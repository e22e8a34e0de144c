/** Instruction words as little-endian bytes in a buffer. */
module Bytes {
  import opened Bits
  import opened Machine

  /** Byte k of a word, counted from the low end. */
  function ByteOf(w: nat, k: nat): Byte
    requires k < 4
  {
    if k == 0 then w % 256 else if k == 1 then w / 0x100 % 256
    else if k == 2 then w / 0x1_0000 % 256 else w / 0x100_0000 % 256
  }

  function WordOf(b0: Byte, b1: Byte, b2: Byte, b3: Byte): nat {
    b0 + b1 * 0x100 + b2 * 0x1_0000 + b3 * 0x100_0000
  }

  function ReadWord(bs: seq<Byte>, at: nat): nat
    requires at + 4 <= |bs|
  {
    WordOf(bs[at], bs[at + 1], bs[at + 2], bs[at + 3])
  }

  lemma WordOfBytes(w: nat)
    requires w < TWO32
    ensures WordOf(ByteOf(w, 0), ByteOf(w, 1), ByteOf(w, 2), ByteOf(w, 3)) == w
  {
    ghost var q1, q2, q3 := w / 0x100, w / 0x1_0000, w / 0x100_0000;
    assert q2 == q1 / 0x100 by { NextByte(q1, w % 0x100, 0x100); }
    assert q3 == q2 / 0x100 by { NextByte(q2, w % 0x1_0000, 0x1_0000); }
    assert w == q1 * 0x100 + w % 0x100;
    assert q1 == q2 * 0x100 + q1 % 0x100;
    assert q2 == q3 * 0x100 + q2 % 0x100;
    assert q3 % 0x100 == q3;
  }

  lemma NextByte(q: nat, r: nat, d: nat)
    requires r < d
    ensures (q * d + r) / (0x100 * d) == q / 0x100
  {
    var q', r' := q / 0x100, q % 0x100;
    calc {
      q * d + r;
      (q' * 0x100 + r') * d + r;
      q' * (0x100 * d) + (r' * d + r);
    }
    assert r' * d + r < 0x100 * d by { MulMono(d, r', 0xFF); }
    DivMod(q', r' * d + r, 0x100 * d);
  }

  function OverwrittenByte(bs: seq<Byte>, at: nat, ws: seq<nat>, i: nat): Byte
    requires i < |bs|
  {
    if at <= i < at + 4 * |ws| then ByteOf(ws[(i - at) / 4], (i - at) % 4) else bs[i]
  }

  /** The buffer after the words ws were stored from offset `at` on. */
  function Overwrite(bs: seq<Byte>, at: nat, ws: seq<nat>): (r: seq<Byte>)
    requires at + 4 * |ws| <= |bs|
    ensures |r| == |bs|
    ensures forall i :: 0 <= i < |bs| ==> r[i] == OverwrittenByte(bs, at, ws, i)
  {
    seq(|bs|, i requires 0 <= i < |bs| => OverwrittenByte(bs, at, ws, i))
  }

  lemma BytesOfWord(b0: Byte, b1: Byte, b2: Byte, b3: Byte)
    ensures var w := WordOf(b0, b1, b2, b3);
            ByteOf(w, 0) == b0 && ByteOf(w, 1) == b1 && ByteOf(w, 2) == b2 && ByteOf(w, 3) == b3
  {
    DivMod(b1 + b2 * 0x100 + b3 * 0x1_0000, b0, 0x100);
    DivMod(b2 + b3 * 0x100, b1, 0x100);
    DivMod(b2 + b3 * 0x100, b0 + b1 * 0x100, 0x1_0000);
    DivMod(b3, b2, 0x100);
    DivMod(b3, b0 + b1 * 0x100 + b2 * 0x1_0000, 0x100_0000);
  }

  /** Storing a word stores its four bytes. */
  lemma OverwriteBytes(bs: seq<Byte>, at: nat, b0: Byte, b1: Byte, b2: Byte, b3: Byte)
    requires at + 4 <= |bs|
    ensures Overwrite(bs, at, [WordOf(b0, b1, b2, b3)]) == bs[at := b0][at + 1 := b1][at + 2 := b2][at + 3 := b3]
  {
    BytesOfWord(b0, b1, b2, b3);
    hide WordOf, ByteOf;
    var r := Overwrite(bs, at, [WordOf(b0, b1, b2, b3)]);
    assert r[at] == OverwrittenByte(bs, at, [WordOf(b0, b1, b2, b3)], at);
    assert r[at + 1] == OverwrittenByte(bs, at, [WordOf(b0, b1, b2, b3)], at + 1);
    assert r[at + 2] == OverwrittenByte(bs, at, [WordOf(b0, b1, b2, b3)], at + 2);
    assert r[at + 3] == OverwrittenByte(bs, at, [WordOf(b0, b1, b2, b3)], at + 3);
  }

  lemma OverwriteMore(bs: seq<Byte>, at: nat, ws: seq<nat>, w: nat)
    requires at + 4 * (|ws| + 1) <= |bs|
    ensures Overwrite(Overwrite(bs, at, ws), at + 4 * |ws|, [w]) == Overwrite(bs, at, ws + [w])
  {
  }

  /** Storing over a stored word replaces it. */
  lemma OverwriteAgain(bs: seq<Byte>, at: nat, ws: seq<nat>, k: nat, w: nat)
    requires at + 4 * |ws| <= |bs| && k < |ws|
    ensures Overwrite(Overwrite(bs, at, ws), at + 4 * k, [w]) == Overwrite(bs, at, ws[k := w])
  {
    hide ByteOf;
    var a, b := Overwrite(Overwrite(bs, at, ws), at + 4 * k, [w]), Overwrite(bs, at, ws[k := w]);
    forall i | 0 <= i < |bs| ensures a[i] == b[i] {
      if at + 4 * k <= i < at + 4 * k + 4 { DivMod(k, i - at - 4 * k, 4); }
    }
  }

  lemma OverwriteNone(bs: seq<Byte>, at: nat)
    requires at <= |bs|
    ensures Overwrite(bs, at, []) == bs
  {
  }

  /** Reading back a stored word, and words beside the stored ones. */
  lemma ReadOverwritten(bs: seq<Byte>, at: nat, ws: seq<nat>, k: nat)
    requires at + 4 * |ws| <= |bs| && at + 4 * k + 4 <= |bs|
    requires k < |ws| ==> ws[k] < TWO32
    ensures ReadWord(Overwrite(bs, at, ws), at + 4 * k) == if k < |ws| then ws[k] else ReadWord(bs, at + 4 * k)
  {
    hide ByteOf, WordOf;
    forall j: nat | j < 4
      ensures OverwrittenByte(bs, at, ws, at + 4 * k + j) == if k < |ws| then ByteOf(ws[k], j) else bs[at + 4 * k + j]
    {
      if k < |ws| { DivMod(k, j, 4); }
    }
    if k < |ws| { WordOfBytes(ws[k]); }
  }

  /** bfd_put_32 / md_number_to_chars: store the low 32 bits of a value. */
  method Put32(data: array<Byte>, at: nat, w: nat)
    requires at + 4 <= data.Length
    modifies data
    ensures data[..] == Overwrite(old(data[..]), at, [w])
  {
    data[at] := w % 256;
    data[at + 1] := w / 0x100 % 256;
    data[at + 2] := w / 0x1_0000 % 256;
    data[at + 3] := w / 0x100_0000 % 256;
  }

  /** n consecutive words. */
  function ReadWords(bs: seq<Byte>, at: nat, n: nat): (ws: seq<nat>)
    requires at + 4 * n <= |bs|
    ensures |ws| == n
  {
    seq(n, k requires 0 <= k < n => ReadWord(bs, at + 4 * k))
  }
}
