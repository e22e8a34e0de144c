/** The bare-metal C library: the line-buffered console, the number printer and
    the number parser. */
module Console {
  import opened Bits
  import opened Machine

  const NEWLINE: Byte := 10
  const SPACE: Byte := 32
  const PLUS: Byte := 43
  const MINUS: Byte := 45
  const DIGIT0: Byte := 48

  // ------------------------------------------------------------- putchar

  function Flatten(chunks: seq<seq<Byte>>): seq<Byte> {
    if chunks == [] then [] else Flatten(chunks[..|chunks| - 1]) + chunks[|chunks| - 1]
  }

  lemma FlattenMore(chunks: seq<seq<Byte>>, c: seq<Byte>)
    ensures Flatten(chunks + [c]) == Flatten(chunks) + c
  {
    assert (chunks + [c])[..|chunks|] == chunks;
  }

  /** A write is a full buffer or ends in a newline. */
  predicate ValidWrite(c: seq<Byte>) { 0 < |c| <= 64 && (|c| == 64 || c[|c| - 1] == NEWLINE) }

  /** What a char holds of an int. */
  function CharOf(ch: int): Byte { ch % 256 }

  class Terminal {
    const buf: array<Byte>
    var buflen: nat
    var writes: seq<seq<Byte>>

    constructor ()
      ensures Valid() && fresh(buf) && Passed() == []
    {
      buf := new Byte[64];
      buflen := 0;
      writes := [];
    }

    ghost predicate Valid()
      reads this
    {
      && buf.Length == 64 && buflen < 64
      && forall i :: 0 <= i < |writes| ==> ValidWrite(writes[i])
    }

    /** Everything written so far, then what is still in the buffer. */
    ghost function Passed(): seq<Byte>
      reads this, buf
      requires Valid()
    {
      Flatten(writes) + buf[..buflen]
    }

    /** Nothing is lost, repeated or reordered, and a newline leaves nothing pending. */
    method PutChar(ch: int)
      requires Valid()
      modifies this`buflen, this`writes, buf
      ensures Valid() && Passed() == old(Passed()) + [CharOf(ch)]
      ensures ch == NEWLINE ==> buflen == 0 && Flatten(writes) == Passed()
      ensures old(writes) <= writes
    {
      hide Flatten;
      buf[buflen] := CharOf(ch);
      buflen := buflen + 1;
      assert buf[..buflen] == old(buf[..buflen]) + [CharOf(ch)];
      if ch == NEWLINE || buflen == 64 {
        FlattenMore(writes, buf[..buflen]);
        writes := writes + [buf[..buflen]];
        buflen := 0;
      }
    }
  }

  // ------------------------------------------------------- positional digits

  predicate ValidBase(base: nat) { 2 <= base <= 16 }

  /** The digits of num, the most significant one first. */
  function Digits(num: nat, base: nat): (ds: seq<nat>)
    requires base >= 2
    ensures |ds| >= 1
  {
    if num < base then [num]
    else
      QuotientPositive(num, base);
      Digits(num / base, base) + [num % base]
  }

  /** The number that a digit string stands for. */
  function Value(ds: seq<int>, base: int): int {
    if ds == [] then 0 else Value(ds[..|ds| - 1], base) * base + ds[|ds| - 1]
  }

  predicate DigitString(ds: seq<int>, base: nat) {
    && |ds| >= 1
    && (forall i :: 0 <= i < |ds| ==> 0 <= ds[i] < base)
    && (|ds| > 1 ==> ds[0] != 0)
  }

  lemma ValueMore(ds: seq<int>, d: int, base: int)
    ensures Value(ds + [d], base) == Value(ds, base) * base + d
  {
    assert (ds + [d])[..|ds|] == ds;
  }

  lemma ValueOne(d: int, base: int)
    ensures Value([d], base) == d
  {
    assert [d][..0] == [];
  }

  lemma DigitStringMore(ds: seq<int>, d: int, base: nat)
    requires DigitString(ds, base) && 0 <= d < base && ds[0] != 0
    ensures DigitString(ds + [d], base) && (ds + [d])[0] != 0
  {
  }

  /** They are digits without a leading zero that stand for the number... */
  lemma {:induction false} DigitsStandForNumber(num: nat, base: nat)
    requires base >= 2
    ensures DigitString(Digits(num, base), base) && Value(Digits(num, base), base) == num
    ensures num > 0 ==> Digits(num, base)[0] != 0
  {
    if num < base {
      ValueOne(num, base);
    } else {
      QuotientPositive(num, base);
      assert num == num / base * base + num % base;
      var q, r := num / base, num % base;
      assert Digits(num, base) == Digits(q, base) + [r];
      DigitsStandForNumber(q, base);
      hide Digits, Value, DigitString;
      ValueMore(Digits(q, base), r, base);
      DigitStringMore(Digits(q, base), r, base);
    }
  }

  lemma QuotientPositive(num: nat, base: nat)
    requires base >= 2 && num >= base
    ensures 1 <= num / base < num
  {
    assert num == num / base * base + num % base;
  }

  lemma {:induction false} DigitStringPositive(ds: seq<int>, base: nat)
    requires base >= 2 && DigitString(ds, base) && ds[0] != 0
    ensures Value(ds, base) >= 1
  {
    if |ds| > 1 {
      DigitStringPositive(ds[..|ds| - 1], base);
      MulMono(base, 1, Value(ds[..|ds| - 1], base));
    } else {
      assert ds[..0] == [];
    }
  }

  /** ...and the only such digits. */
  lemma {:induction false} DigitsAreUnique(ds: seq<int>, base: nat)
    requires base >= 2 && DigitString(ds, base)
    ensures Value(ds, base) >= 0 && ds == Digits(Value(ds, base), base)
  {
    var last := |ds| - 1;
    if last == 0 {
      assert ds[..0] == [];
    } else {
      DigitStringPositive(ds[..last], base);
      var q := Value(ds[..last], base);
      DigitsAreUnique(ds[..last], base);
      DivMod(q, ds[last], base);
      MulMono(base, 1, q);
    }
  }

  lemma {:induction false} DigitCount(num: nat, base: nat, k: nat)
    requires base >= 2 && k >= 1 && num < Pow2(k)
    ensures |Digits(num, base)| <= k
  {
    Pow2Values();
    if num >= base {
      var q := num / base;
      assert num == q * base + num % base;
      MulMono(q, 2, base);
      DigitCount(q, base, k - 1);
    }
  }

  // ------------------------------------------------------------ the printer

  function DigitChar(d: nat): int { if d >= 10 then d + 87 else d + DIGIT0 }

  /** The sixteen digits. */
  lemma DigitIs(d: nat)
    requires d < 16
    ensures CharOf(DigitChar(d)) == "0123456789abcdef"[d] as int
  {
  }

  function DigitText(ds: seq<nat>): (t: seq<Byte>)
    ensures |t| == |ds|
  {
    seq(|ds|, i requires 0 <= i < |ds| => CharOf(DigitChar(ds[i])))
  }

  function Repeat(c: Byte, n: nat): (t: seq<Byte>)
    ensures |t| == n
  {
    seq(n, _ => c)
  }

  function Padding(width: int, len: nat): nat { if width > len then width - len else 0 }

  /** A number printed right-aligned in a field. */
  function NumText(num: nat, base: nat, width: int, padc: Byte): (t: seq<Byte>)
    requires base >= 2
    ensures |t| == if width > |Digits(num, base)| then width else |Digits(num, base)|
  {
    var ds := Digits(num, base);
    Repeat(padc, Padding(width, |ds|)) + DigitText(ds)
  }

  /** In every base up to 16 the text is padding and then the digits' characters. */
  lemma TextIs(num: nat, base: nat, width: int, padc: Byte, i: nat)
    requires ValidBase(base) && i < |NumText(num, base, width, padc)|
    ensures var pad, ds := |NumText(num, base, width, padc)| - |Digits(num, base)|, Digits(num, base);
            && 0 <= pad && (i >= pad ==> 0 <= ds[i - pad] < base)
            && NumText(num, base, width, padc)[i] == if i < pad then padc as int else "0123456789abcdef"[ds[i - pad]] as int
  {
    var ds := Digits(num, base);
    var pad := Padding(width, |ds|);
    DigitsStandForNumber(num, base);
    hide Digits, Value, DigitChar, CharOf;
    if i >= pad {
      assert 0 <= ds[i - pad] < base;
      DigitIs(ds[i - pad]);
    }
  }

  method PrintNum(out: Terminal, num: Octa, base: nat, width: int, padc: Byte)
    requires out.Valid() && ValidBase(base)
    modifies out`buflen, out`writes, out.buf
    ensures out.Valid() && out.Passed() == old(out.Passed()) + NumText(num, base, width, padc)
  {
    hide Terminal.Passed, Terminal.Valid, DigitText, Repeat, Padding, Digits, Pow2;
    Pow64();
    DigitCount(num, base, 64);
    var digs := new nat[64];
    var pos := CollectDigits(digs, num, base);
    Pad(out, width, pos, padc);
    PrintDigits(out, digs, pos, Digits(num, base));
  }

  /** The second loop: as many padding characters as the field is wider. */
  method Pad(out: Terminal, width: int, pos: nat, padc: Byte)
    requires out.Valid()
    modifies out`buflen, out`writes, out.buf
    ensures out.Valid() && out.Passed() == old(out.Passed()) + Repeat(padc, Padding(width, pos))
  {
    hide Flatten, ValidWrite, Terminal.Passed;
    var w := width;
    var done: nat := 0;
    while w > pos
      invariant out.Valid() && done + Padding(w, pos) == Padding(width, pos)
      invariant out.Passed() == old(out.Passed()) + Repeat(padc, done)
      decreases w
    {
      w := w - 1;
      out.PutChar(padc);
      done := done + 1;
      assert Repeat(padc, done) == Repeat(padc, done - 1) + [CharOf(padc)];
    }
    w := w - 1;
  }

  /** The third loop: the digits from the high end down. */
  method PrintDigits(out: Terminal, digs: array<nat>, count: nat, ghost ds: seq<nat>)
    requires out.Valid() && out.buf as object != digs as object
    requires count == |ds| <= digs.Length && digs[..count] == Reversed(ds)
    modifies out`buflen, out`writes, out.buf
    ensures out.Valid() && out.Passed() == old(out.Passed()) + DigitText(ds)
  {
    hide Flatten, ValidWrite, Terminal.Passed, DigitChar;
    var pos := count;
    while pos > 0
      invariant 0 <= pos <= count && out.Valid() && digs[..count] == Reversed(ds)
      invariant out.Passed() == old(out.Passed()) + DigitText(ds)[..count - pos]
    {
      pos := pos - 1;
      assert digs[pos] == digs[..count][pos] == ds[count - 1 - pos];
      out.PutChar(DigitChar(digs[pos]));
      var t := DigitText(ds);
      assert t[..count - pos] == t[..count - pos - 1] + [t[count - pos - 1]];
    }
    assert DigitText(ds)[..count] == DigitText(ds);
  }

  function Reversed(ds: seq<nat>): (r: seq<nat>)
    ensures |r| == |ds| && forall i :: 0 <= i < |ds| ==> r[i] == ds[|ds| - 1 - i]
  {
    seq(|ds|, i requires 0 <= i < |ds| => ds[|ds| - 1 - i])
  }

  lemma DigitsStep(n: nat, base: nat)
    requires base >= 2
    ensures n < base ==> Digits(n, base) == [n] && n % base == n
    ensures n >= base ==> Digits(n, base) == Digits(n / base, base) + [n % base] && n / base < n
  {
    if n >= base { QuotientPositive(n, base); }
  }

  lemma ReversedMore(ds: seq<nat>, d: nat)
    ensures Reversed(ds + [d]) == [d] + Reversed(ds) && Reversed([d]) == [d]
  {
  }

  /** The first loop of the printer: digits from the low end up. */
  method CollectDigits(digs: array<nat>, num: Octa, base: nat) returns (pos: nat)
    requires ValidBase(base) && |Digits(num, base)| <= digs.Length
    modifies digs
    ensures pos == |Digits(num, base)| && digs[..pos] == Reversed(Digits(num, base))
  {
    hide Digits;
    pos := 0;
    var n: nat := num;
    while true
      invariant pos + |Digits(n, base)| == |Digits(num, base)| <= digs.Length
      invariant digs[..pos] + Reversed(Digits(n, base)) == Reversed(Digits(num, base))
      decreases n
    {
      DigitsStep(n, base);
      ReversedMore([], n);
      ghost var before := digs[..pos];
      digs[pos] := n % base;
      pos := pos + 1;
      assert digs[..pos] == before + [n % base];
      if n < base {
        break;
      }
      ReversedMore(Digits(n / base, base), n % base);
      n := n / base;
    }
  }

  // --------------------------------------------------- the integer directives

  /** What va_arg makes of an argument word: an int, or a long when flagged. */
  function GetInt(arg: Octa, lflag: nat): int {
    if lflag > 0 then if arg >= TWO63 then arg - TWO64 else arg
    else if arg % TWO32 >= 0x8000_0000 then arg % TWO32 - TWO32 else arg % TWO32
  }

  function GetUint(arg: Octa, lflag: nat): Octa { if lflag > 0 then arg else arg % TWO32 }

  /** An int passed for %d, in the low half of its word whatever the high half is,
      is what is printed; with a length flag, the long in the whole word is. */
  lemma IntArgument(n: int, arg: Octa, lflag: nat)
    requires if lflag == 0 then -0x8000_0000 <= n < 0x8000_0000 && (arg - n) % TWO32 == 0
             else 0 - TWO63 <= n < TWO63 && (arg == n || arg == n + TWO64)
    ensures GetInt(arg, lflag) == n
  {
    if lflag == 0 { LowHalf(arg, n); }
  }

  lemma LowHalf(arg: Octa, n: int)
    requires -0x8000_0000 <= n < TWO32 && (arg - n) % TWO32 == 0
    ensures arg % TWO32 == if n < 0 then n + TWO32 else n
  {
    var q := (arg - n) / TWO32;
    assert arg == q * TWO32 + n;
    if n < 0 { DivMod(q - 1, n + TWO32, TWO32); } else { DivMod(q, n, TWO32); }
  }

  /** The same for an unsigned int, and an unsigned long. */
  lemma UintArgument(n: nat, arg: Octa, lflag: nat)
    requires if lflag == 0 then n < TWO32 && (arg - n) % TWO32 == 0 else arg == n
    ensures GetUint(arg, lflag) == n
  {
    if lflag == 0 { LowUnsigned(arg, n); }
  }

  lemma LowUnsigned(arg: Octa, n: nat)
    requires n < TWO32 && (arg - n) % TWO32 == 0
    ensures arg % TWO32 == n
  {
    LowHalf(arg, n);
  }

  function Magnitude(n: int): nat { if n < 0 then -n else n }

  /** The sign comes before the padding. */
  function SignedText(n: int, width: int, padc: Byte): seq<Byte> {
    (if n < 0 then [MINUS] else []) + NumText(Magnitude(n), 10, width, padc)
  }

  /** %d with its flags, width and length already parsed. */
  method PrintSigned(out: Terminal, arg: Octa, lflag: nat, width: int, padc: Byte)
    requires out.Valid()
    modifies out`buflen, out`writes, out.buf
    ensures out.Valid() && out.Passed() == old(out.Passed()) + SignedText(GetInt(arg, lflag), width, padc)
  {
    hide Terminal.Passed, Terminal.Valid, NumText;
    var num := Wrap(GetInt(arg, lflag));
    if num >= TWO63 {
      out.PutChar(MINUS);
      num := Wrap(0 - (num - TWO64));
    }
    NegatedWord(GetInt(arg, lflag));
    PrintNum(out, num, 10, width, padc);
  }

  lemma NegatedWord(n: int)
    requires 0 - TWO63 <= n < TWO63
    ensures n >= 0 ==> Wrap(n) == n
    ensures n < 0 ==> Wrap(n) == n + TWO64 && Wrap(n) >= TWO63 && Wrap(0 - (Wrap(n) - TWO64)) == 0 - n
  {
  }

  /** %u, and %o and %x with their bases. */
  method PrintUnsigned(out: Terminal, arg: Octa, lflag: nat, base: nat, width: int, padc: Byte)
    requires out.Valid() && ValidBase(base)
    modifies out`buflen, out`writes, out.buf
    ensures out.Valid() && out.Passed() == old(out.Passed()) + NumText(GetUint(arg, lflag), base, width, padc)
  {
    PrintNum(out, GetUint(arg, lflag), base, width, padc);
  }

  // -------------------------------------------------------------- the parser

  function DigitValues(t: seq<Byte>): (ds: seq<int>)
    ensures |ds| == |t| && forall i :: 0 <= i < |t| ==> ds[i] == t[i] as int - DIGIT0
  {
    seq(|t|, i requires 0 <= i < |t| => t[i] as int - DIGIT0)
  }

  /** What is read after the blanks. */
  function SignedValue(t: seq<Byte>): int {
    if t != [] && t[0] == MINUS then 0 - Value(DigitValues(t[1..]), 10)
    else if t != [] && t[0] == PLUS then Value(DigitValues(t[1..]), 10)
    else Value(DigitValues(t), 10)
  }

  function AtolValue(t: seq<Byte>): int {
    if t != [] && t[0] == SPACE then AtolValue(t[1..]) else SignedValue(t)
  }

  /** The string is what precedes its terminating NUL. */
  method Atol(str: seq<Byte>) returns (r: int)
    ensures r == AtolValue(str)
  {
    hide Value;
    var p := 0;
    while p < |str| && str[p] == SPACE
      invariant 0 <= p <= |str| && AtolValue(str) == AtolValue(str[p..])
    {
      p := p + 1;
    }
    assert AtolValue(str) == SignedValue(str[p..]);
    var sign := false;
    var start := p;
    if p < |str| && (str[p] == MINUS || str[p] == PLUS) {
      sign := str[p] == MINUS;
      p := p + 1;
    }
    ghost var digits := DigitValues(str[p..]);
    assert SignedValue(str[start..]) == if sign then 0 - Value(digits, 10) else Value(digits, 10);
    var res := ReadDigits(str[p..]);
    r := if sign then 0 - res else res;
  }

  method ReadDigits(t: seq<Byte>) returns (res: int)
    ensures res == Value(DigitValues(t), 10)
  {
    res := 0;
    var p := 0;
    while p < |t|
      invariant 0 <= p <= |t| && res == Value(DigitValues(t)[..p], 10)
    {
      assert DigitValues(t)[..p + 1][..p] == DigitValues(t)[..p];
      res := res * 10;
      res := res + (t[p] as int - DIGIT0);
      p := p + 1;
    }
    assert DigitValues(t)[..p] == DigitValues(t);
  }

  // ------------------------------------------- parsing what was printed

  function Power(base: nat, k: nat): (p: nat)
    ensures base >= 1 ==> p >= 1
  {
    if k == 0 then 1 else Power(base, k - 1) * base
  }

  lemma {:induction false} ValueConcat(a: seq<int>, b: seq<int>, base: nat)
    ensures Value(a + b, base) == Value(a, base) * Power(base, |b|) + Value(b, base)
  {
    if b == [] {
      assert a + b == a;
    } else {
      var last := |b| - 1;
      assert (a + b)[..|a| + last] == a + b[..last];
      ValueConcat(a, b[..last], base);
      var x, p, y := Value(a, base), Power(base, last), Value(b[..last], base);
      assert (x * p + y) * base == x * (p * base) + y * base;
    }
  }

  /** k characters that each count c. */
  function Same(c: int, k: nat): (s: seq<int>)
    ensures |s| == k
  {
    seq(k, _ => c)
  }

  lemma {:induction false} SameValue(c: int, k: nat)
    requires c <= 0
    ensures c == 0 ==> Value(Same(c, k), 10) == 0
    ensures k > 0 ==> Value(Same(c, k), 10) <= c
    ensures Value(Same(c, k), 10) <= 0
  {
    if k > 0 {
      SameValue(c, k - 1);
      assert Same(c, k)[..k - 1] == Same(c, k - 1);
    }
  }

  lemma DecimalChar(d: nat)
    requires d < 10
    ensures CharOf(DigitChar(d)) == 48 + d
  {
  }

  lemma DecimalText(num: nat)
    ensures DigitValues(DigitText(Digits(num, 10))) == Digits(num, 10)
    ensures DigitText(Digits(num, 10))[0] in {48, 49, 50, 51, 52, 53, 54, 55, 56, 57}
  {
    DigitsStandForNumber(num, 10);
    var ds := Digits(num, 10);
    hide Digits, Value, CharOf, DigitChar;
    forall i | 0 <= i < |ds| ensures DigitValues(DigitText(ds))[i] == ds[i] {
      DecimalChar(ds[i]);
    }
    DecimalChar(ds[0]);
  }

  /** What k padding characters that count c each contribute in front of n digits. */
  function PadValue(c: int, k: nat, n: nat): int { Value(Same(c, k), 10) * Power(10, n) }

  lemma PadValueSign(c: int, k: nat, n: nat)
    requires c <= 0
    ensures c == 0 || k == 0 ==> PadValue(c, k, n) == 0
    ensures c < 0 && k > 0 ==> PadValue(c, k, n) <= 0 - Power(10, n)
    ensures c <= -3 && k > 0 ==> PadValue(c, k, n) <= -3 * Power(10, n)
    ensures Power(10, n) >= 1
  {
    SameValue(c, k);
    var v, p := Value(Same(c, k), 10), Power(10, n);
    if k == 0 { assert Same(c, 0) == Same(0, 0); SameValue(0, 0); }
    hide Value, Power;
    if v < 0 { MulMono(p, v, -1); }
    if v <= -3 { MulMono(p, v, -3); }
  }

  /** The digits of the text, padding included, as the parser sees them. */
  lemma FieldValue(num: nat, width: int, padc: Byte)
    ensures Value(DigitValues(NumText(num, 10, width, padc)), 10)
         == PadValue(padc as int - DIGIT0, Padding(width, |Digits(num, 10)|), |Digits(num, 10)|) + num
  {
    var ds := Digits(num, 10);
    var k := Padding(width, |ds|);
    DecimalText(num);
    DigitsStandForNumber(num, 10);
    hide Digits, Value;
    assert DigitValues(NumText(num, 10, width, padc)) == Same(padc as int - DIGIT0, k) + ds;
    ValueConcat(Same(padc as int - DIGIT0, k), ds, 10);
  }

  lemma FirstChar(num: nat, width: int, padc: Byte)
    ensures var t := NumText(num, 10, width, padc);
            t != [] && (if width > |Digits(num, 10)| then t[0] == padc else 48 <= t[0] <= 57)
  {
    DecimalText(num);
    hide Digits;
  }

  lemma ReadSign(t: seq<Byte>)
    ensures AtolValue([MINUS] + t) == 0 - Value(DigitValues(t), 10)
    ensures t != [] && t[0] != SPACE && t[0] != MINUS && t[0] != PLUS ==> AtolValue(t) == Value(DigitValues(t), 10)
  {
    hide Value;
    assert ([MINUS] + t)[1..] == t;
  }

  lemma ReadPlus(t: seq<Byte>)
    ensures AtolValue([PLUS] + t) == Value(DigitValues(t), 10)
  {
    hide Value;
    assert ([PLUS] + t)[1..] == t;
  }

  lemma {:induction false} ReadBlanks(k: nat, t: seq<Byte>)
    ensures AtolValue(Repeat(SPACE, k) + t) == AtolValue(t)
  {
    hide SignedValue;
    if k == 0 {
      assert Repeat(SPACE, 0) + t == t;
    } else {
      assert (Repeat(SPACE, k) + t)[1..] == Repeat(SPACE, k - 1) + t;
      ReadBlanks(k - 1, t);
    }
  }

  lemma ReadDigitsOnly(num: nat, width: int, padc: Byte)
    requires padc == DIGIT0 || Padding(width, |Digits(num, 10)|) == 0
    ensures AtolValue(NumText(num, 10, width, padc)) == num
  {
    var n := |Digits(num, 10)|;
    FieldValue(num, width, padc);
    FirstChar(num, width, padc);
    PadNothing(padc as int - DIGIT0, Padding(width, n), n);
    hide Digits, Value, PadValue, NumText, AtolValue;
    ReadSign(NumText(num, 10, width, padc));
  }

  lemma PadNothing(c: int, k: nat, n: nat)
    requires c == 0 || k == 0
    ensures PadValue(c, k, n) == 0
  {
    if k == 0 { assert Same(c, 0) == Same(0, 0); }
    SameValue(0, k);
    hide Value, Power;
  }

  /** What the parser makes of a padded number without a sign. */
  lemma ReadUnsigned(num: nat, width: int, padc: Byte)
    requires padc == SPACE || padc == DIGIT0 || Padding(width, |Digits(num, 10)|) == 0
    ensures AtolValue(NumText(num, 10, width, padc)) == num
  {
    if padc == SPACE {
      var ds := Digits(num, 10);
      hide Digits, AtolValue;
      assert NumText(num, 10, 0, SPACE) == DigitText(ds) by { assert Repeat(SPACE, 0) == []; }
      ReadDigitsOnly(num, 0, SPACE);
      ReadBlanks(Padding(width, |ds|), DigitText(ds));
    } else {
      ReadDigitsOnly(num, width, padc);
    }
  }

  /** Any blanks, any sign, then decimal digits: the number is read. */
  lemma AtolReads(k: nat, num: nat)
    ensures AtolValue(Repeat(SPACE, k) + DigitText(Digits(num, 10))) == num
    ensures AtolValue(Repeat(SPACE, k) + ([PLUS] + DigitText(Digits(num, 10)))) == num
    ensures AtolValue(Repeat(SPACE, k) + ([MINUS] + DigitText(Digits(num, 10)))) == 0 - num
  {
    var t := DigitText(Digits(num, 10));
    DecimalText(num);
    DigitsStandForNumber(num, 10);
    hide Digits, Value, Repeat, AtolValue, DigitText, DigitValues;
    ReadBlanks(k, t);
    ReadBlanks(k, [PLUS] + t);
    ReadBlanks(k, [MINUS] + t);
    ReadSign(t);
    ReadPlus(t);
  }

  /** A negative number: the padding is behind the sign and counts as digits. */
  lemma ReadNegative(num: nat, width: int, padc: Byte)
    requires padc as int <= DIGIT0
    ensures AtolValue([MINUS] + NumText(num, 10, width, padc)) == 0 - num
       <==> padc == DIGIT0 || Padding(width, |Digits(num, 10)|) == 0
  {
    var n := |Digits(num, 10)|;
    FieldValue(num, width, padc);
    PadValueSign(padc as int - DIGIT0, Padding(width, n), n);
    hide Digits, Value, PadValue, NumText, AtolValue, Power;
    ReadSign(NumText(num, 10, width, padc));
  }

  lemma OneMoreDigit(q: int, d: int, base: nat, p: nat)
    requires base >= 1 && 0 <= q < p && 0 <= d < base
    ensures 0 <= q <= q * base + d < p * base
  {
    MulMono(base, q, p - 1);
    assert base * (p - 1) == p * base - base;
    MulMono(q, 1, base);
  }

  lemma {:induction false} PowerAbove(ds: seq<int>, base: nat)
    requires base >= 1 && forall i :: 0 <= i < |ds| ==> 0 <= ds[i] < base
    ensures 0 <= Value(ds, base) < Power(base, |ds|)
  {
    if ds != [] {
      var last := |ds| - 1;
      PowerAbove(ds[..last], base);
      OneMoreDigit(Value(ds[..last], base), ds[last], base, Power(base, last));
    }
  }

  lemma DashText(num: nat, width: int)
    requires Padding(width, |Digits(num, 10)|) > 0
    ensures Padding(width - 1, |Digits(num, 10)|) == Padding(width, |Digits(num, 10)|) - 1
    ensures NumText(num, 10, width, MINUS) == [MINUS] + NumText(num, 10, width - 1, MINUS)
  {
    hide Digits, DigitText;
  }

  lemma NumBelowPower(num: nat)
    ensures num < Power(10, |Digits(num, 10)|) && (num == 0 ==> |Digits(num, 10)| == 1)
  {
    DigitsStandForNumber(num, 10);
    PowerAbove(Digits(num, 10), 10);
    hide Value, Power;
  }

  /** A field that dashes fill up: the first one is taken for a sign. */
  lemma ReadDashes(num: nat, width: int)
    requires Padding(width, |Digits(num, 10)|) > 0
    ensures AtolValue(NumText(num, 10, width, MINUS)) == num <==> num == 0 && width == 2
  {
    hide Digits, Value, NumText, PadValue, AtolValue, Power;
    var n := |Digits(num, 10)|;
    DashText(num, width);
    NumBelowPower(num);
    FieldValue(num, width - 1, MINUS);
    PadValueSign(MINUS as int - DIGIT0, Padding(width - 1, n), n);
    ReadSign(NumText(num, 10, width - 1, MINUS));
  }

  /** atol gives back what %ld printed exactly when the field adds nothing, or
      zeros, or blanks before a number without a sign; of fields filled with
      dashes only "-0" is read back. */
  lemma AtolReadsBack(n: int, width: int, padc: Byte)
    requires padc == SPACE || padc == DIGIT0 || padc == MINUS
    ensures AtolValue(SignedText(n, width, padc)) == n
       <==> || width <= |Digits(Magnitude(n), 10)| || padc == DIGIT0
            || (padc == SPACE && n >= 0) || (padc == MINUS && n == 0 && width == 2)
  {
    var num := Magnitude(n);
    hide Digits, NumText, AtolValue;
    if n < 0 {
      ReadNegative(num, width, padc);
    } else {
      assert SignedText(n, width, padc) == NumText(num, 10, width, padc);
      if padc == MINUS && Padding(width, |Digits(num, 10)|) > 0 {
        ReadDashes(num, width);
      } else {
        ReadUnsigned(num, width, padc);
      }
    }
  }

  /** Reading digits never goes above their value on the way. */
  lemma {:induction false} PrefixBelow(ds: seq<int>, k: nat)
    requires k <= |ds| && forall i :: 0 <= i < |ds| ==> 0 <= ds[i] < 10
    ensures 0 <= Value(ds[..k], 10) <= Value(ds, 10)
    decreases |ds|
  {
    PowerAbove(ds[..k], 10);
    if k < |ds| {
      var last := |ds| - 1;
      assert ds[..last][..k] == ds[..k];
      PrefixBelow(ds[..last], k);
    } else {
      assert ds[..k] == ds;
    }
  }

  /** For every n with |n| < 2^63 the parser's running value stays a long. */
  lemma AtolStaysLong(n: int, k: nat)
    requires 0 - TWO63 < n < TWO63 && k <= |Digits(Magnitude(n), 10)|
    ensures 0 <= Value(DigitValues(DigitText(Digits(Magnitude(n), 10)))[..k], 10) < TWO63
  {
    var num := Magnitude(n);
    DecimalText(num);
    DigitsStandForNumber(num, 10);
    hide Digits, Value;
    PrefixBelow(Digits(num, 10), k);
  }
}
