/** vsnprintf of lib/libstink_printf.c: the loop over the format against a recursive expansion. */
module PrintfModel {
  import opened Common
  import opened FormatSpec
  import opened StrtolModel

  const NUL := 0 as char

  /** One variadic argument: a 32-bit word, or a string pointer. */
  datatype Arg = WordArg(w: Word) | StrArg(s: string) | NullStr

  // ------------------------------------------------------------- the expansion

  function At(fmt: string, i: nat): char {
    if i < |fmt| then fmt[i] else NUL
  }

  function FlagsFrom(fmt: string, i: nat, f: Flags): (r: (Flags, nat))
    requires i <= |fmt|
    ensures i <= r.1 <= |fmt|
    decreases |fmt| - i
  {
    var c := At(fmt, i);
    if c == '-' then FlagsFrom(fmt, i + 1, f.(left := true))
    else if c == '0' then FlagsFrom(fmt, i + 1, f.(zero := true))
    else if c == '#' then FlagsFrom(fmt, i + 1, f.(hash := true))
    else if c == '+' then FlagsFrom(fmt, i + 1, f.(plus := true))
    else if c == ' ' then FlagsFrom(fmt, i + 1, f.(space := true))
    else (f, i)
  }

  function IntFrom(fmt: string, i: nat, v: nat): (r: (nat, nat))
    requires i <= |fmt|
    ensures i <= r.1 <= |fmt|
    decreases |fmt| - i
  {
    var c := At(fmt, i);
    if '0' <= c <= '9' then IntFrom(fmt, i + 1, v * 10 + (c as int - '0' as int)) else (v, i)
  }

  function LengthFrom(fmt: string, i: nat): (r: nat)
    requires i <= |fmt|
    ensures i <= r <= |fmt|
    decreases |fmt| - i
  {
    var c := At(fmt, i);
    if c == 'l' || c == 'h' || c == 'z' then LengthFrom(fmt, i + 1) else i
  }

  /** An int argument for `*`; there is none when the arguments run out or the next one is a string. */
  function IntArg(args: seq<Arg>, a: nat): Option<int> {
    if a < |args| && args[a].WordArg? then Some(Signed(args[a].w)) else None
  }

  datatype Spec = Spec(fl: Flags, width: int, prec: int, next: nat, arg: nat)

  /** A literal width or precision, as long as it fits an int. */
  function Literal(fmt: string, i: nat): Option<(int, nat)>
    requires i <= |fmt|
  {
    var (v, j) := IntFrom(fmt, i, 0);
    if v <= INT_MAX then Some((v, j)) else None
  }

  function WidthFrom(fmt: string, i: nat, args: seq<Arg>, a: nat, fl: Flags): (r: Option<Spec>)
    requires i <= |fmt|
    ensures r.Some? ==> i <= r.value.next <= |fmt|
  {
    if At(fmt, i) == '*' then
      var w :- IntArg(args, a);
      if w < -INT_MAX then None
      else if w < 0 then Some(Spec(fl.(left := true), -w, -1, i + 1, a + 1))
      else Some(Spec(fl, w, -1, i + 1, a + 1))
    else
      var (w, j) :- Literal(fmt, i);
      Some(Spec(fl, w, -1, j, a))
  }

  function PrecFrom(fmt: string, s: Spec, args: seq<Arg>): (r: Option<Spec>)
    requires s.next <= |fmt|
    ensures r.Some? ==> s.next <= r.value.next <= |fmt|
  {
    if At(fmt, s.next) != '.' then Some(s)
    else if At(fmt, s.next + 1) == '*' then
      var p :- IntArg(args, s.arg);
      Some(s.(prec := if p < 0 then -1 else p, next := s.next + 2, arg := s.arg + 1))
    else
      var (p, j) :- Literal(fmt, s.next + 1);
      Some(s.(prec := p, next := j))
  }

  const NO_FLAGS := Flags(false, false, false, false, false)

  /** Everything between a % and its conversion character; no value if the format ends there. */
  function SpecFrom(fmt: string, i: nat, args: seq<Arg>, a: nat): (r: Option<Spec>)
    requires i <= |fmt|
    ensures r.Some? ==> i <= r.value.next < |fmt|
  {
    var (fl, j) := FlagsFrom(fmt, i, NO_FLAGS);
    var s :- WidthFrom(fmt, j, args, a, fl);
    var t :- PrecFrom(fmt, s, args);
    var k := LengthFrom(fmt, t.next);
    if k < |fmt| then Some(t.(next := k)) else None
  }

  function Clip(s: string, prec: int): string {
    if 0 <= prec < |s| then s[..prec] else s
  }

  function WordText(s: Spec, c: char, w: Word): string {
    if c == 'd' || c == 'i' then SignedText(s.fl, s.width, s.prec, w)
    else if c == 'u' then UnsignedText(s.fl, s.width, s.prec, Dec, w)
    else if c == 'x' then UnsignedText(s.fl, s.width, s.prec, HexLow, w)
    else if c == 'X' then UnsignedText(s.fl, s.width, s.prec, HexUp, w)
    else if c == 'o' then UnsignedText(s.fl, s.width, s.prec, Oct, w)
    else if c == 'p' then Numeric(s.fl, s.width, s.prec, "0x", Digits(w, 16, false))
    else Justified(s.fl, s.width, [(w % 256) as char])
  }

  predicate TakesWord(c: char) {
    c == 'd' || c == 'i' || c == 'u' || c == 'x' || c == 'X' || c == 'o' || c == 'p' || c == 'c'
  }

  /** The text of one conversion and the next argument; no value if its argument is missing or of the wrong kind. */
  function Convert(s: Spec, c: char, args: seq<Arg>): Option<(string, nat)> {
    if TakesWord(c) then
      if s.arg < |args| && args[s.arg].WordArg? then Some((WordText(s, c, args[s.arg].w), s.arg + 1)) else None
    else if c == 's' then
      if s.arg < |args| && !args[s.arg].WordArg? then
        var str := if args[s.arg].NullStr? then "(null)" else args[s.arg].s;
        Some((Justified(s.fl, s.width, Clip(str, s.prec)), s.arg + 1))
      else None
    else if c == '%' then Some(("%", s.arg))
    else Some((['%', c], s.arg))
  }

  /** The whole output of fmt from position i on, reading arguments from a on. */
  function Expand(fmt: string, i: nat, args: seq<Arg>, a: nat): Option<string>
    requires i <= |fmt|
    decreases |fmt| - i
  {
    if i == |fmt| then Some("")
    else if fmt[i] != '%' then
      var rest :- Expand(fmt, i + 1, args, a);
      Some([fmt[i]] + rest)
    else
      var s :- SpecFrom(fmt, i + 1, args, a);
      var (text, a') :- Convert(s, fmt[s.next], args);
      var rest :- Expand(fmt, s.next + 1, args, a');
      Some(text + rest)
  }

  /** A format that is one single conversion prints exactly that conversion. */
  lemma SingleConversion(fmt: string, args: seq<Arg>, s: Spec, c: char)
    requires |fmt| > 1 && fmt[0] == '%' && SpecFrom(fmt, 1, args, 0) == Some(s) && s.next + 1 == |fmt|
             && fmt[s.next] == c
    requires TakesWord(c) && s.arg < |args| && args[s.arg].WordArg?
    ensures Expand(fmt, 0, args, 0) == Some(WordText(s, c, args[s.arg].w))
  {
    hide SpecFrom, WordText;
    assert Expand(fmt, |fmt|, args, s.arg + 1) == Some("");
    assert WordText(s, c, args[s.arg].w) + "" == WordText(s, c, args[s.arg].w);
  }

  // ---------------------------------------------------------------- struct buf

  /** What memory holds after text has been printed into `before` with capacity cap. */
  function Written(before: seq<char>, text: string, cap: nat): (r: seq<char>)
    requires cap <= |before|
    ensures |r| == |before|
  {
    if cap == 0 then before
    else
      var m := if |text| < cap then |text| else cap - 1;
      text[..m] + [NUL] + before[m + 1..]
  }

  class Buf {
    const out: array<char>
    const cap: nat
    var pos: nat
    ghost const before: seq<char>
    ghost var text: string

    ghost predicate Valid()
      reads this, out
    {
      && cap <= out.Length == |before| && pos == |text|
      && (forall i | 0 <= i < out.Length :: out[i] == if i < pos && i + 1 < cap then text[i] else before[i])
    }

    constructor (out: array<char>, cap: nat)
      requires cap <= out.Length
      ensures Valid() && this.out == out && this.cap == cap && text == "" && before == out[..]
    {
      this.out, this.cap, this.pos := out, cap, 0;
      this.before, this.text := out[..], "";
    }

    method PutC(c: char)
      requires Valid()
      modifies this`pos, this`text, out
      ensures Valid() && text == old(text) + [c]
    {
      if pos + 1 < cap {
        out[pos] := c;
      }
      pos := pos + 1;
      text := text + [c];
    }

    method PadWith(fill: char, n: int)
      requires Valid()
      modifies this`pos, this`text, out
      ensures Valid() && text == old(text) + Pad(fill, n)
    {
      if n > 0 {
        for i := 0 to n
          invariant Valid() && text == old(text) + seq(i, _ => fill)
        {
          PutC(fill);
          assert seq(i + 1, _ => fill) == seq(i, _ => fill) + [fill];
        }
      }
    }

    method PutAll(s: string)
      requires Valid()
      modifies this`pos, this`text, out
      ensures Valid() && text == old(text) + s
    {
      for i := 0 to |s|
        invariant Valid() && text == old(text) + s[..i]
      {
        PutC(s[i]);
      }
      assert s[..|s|] == s;
    }

    method Finish()
      requires Valid()
      modifies out
      ensures out[..] == Written(before, text, cap)
    {
      if cap > 0 {
        out[if pos < cap then pos else cap - 1] := NUL;
      }
    }

    /** The shared numeric emit path. */
    method EmitNumeric(fl: Flags, width: int, prec: int, prefix: string, digits: string)
      requires Valid()
      modifies this`pos, this`text, out
      ensures Valid() && text == old(text) + Numeric(fl, width, prec, prefix, digits)
    {
      hide Valid, Pad;
      var zero_pad, prec_pad := 0, 0;
      if prec > |digits| {
        prec_pad := prec - |digits|;
      }
      var body := |prefix| + prec_pad + |digits|;
      var width_pad := if width > body then width - body else 0;
      ghost var full := width_pad;
      if fl.zero && !fl.left && prec < 0 {
        zero_pad, width_pad := width_pad, 0;
      }
      NoPad(' ');
      ghost var t := text;
      if !fl.left {
        PadWith(' ', width_pad);
      }
      ghost var front := if fl.left then "" else Pad(' ', width_pad);
      assert text == t + front;
      PutAll(prefix);
      PadWith('0', zero_pad);
      PadWith('0', prec_pad);
      PutAll(digits);
      if fl.left {
        PadWith(' ', width_pad);
      }
      ghost var back := if fl.left then Pad(' ', width_pad) else "";
      Assemble(t, front, prefix, Pad('0', zero_pad), Pad('0', prec_pad), digits, back, text);
    }

    method EmitJustified(fl: Flags, width: int, s: string)
      requires Valid()
      modifies this`pos, this`text, out
      ensures Valid() && text == old(text) + Justified(fl, width, s)
    {
      hide Valid, Pad;
      ghost var t := text;
      var pad := width - |s|;
      if !fl.left {
        PadWith(' ', pad);
      }
      PutAll(s);
      if fl.left {
        PadWith(' ', pad);
      }
    }
  }

  lemma NoPad(c: char)
    ensures Pad(c, 0) == ""
  {
  }

  lemma Assemble(t: string, a: string, b: string, c: string, d: string, e: string, f: string, all: string)
    requires all == t + a + b + c + d + e + f || (f == "" && all == t + a + b + c + d + e)
    ensures all == t + (a + b + c + d + e + f)
  {
  }

  // ------------------------------------------------------------------ format_u

  function Pow2(n: nat): nat { if n == 0 then 1 else 2 * Pow2(n - 1) }

  ghost function Reversed(s: string): string {
    if |s| == 0 then "" else [s[|s| - 1]] + Reversed(s[..|s| - 1])
  }

  lemma ReversedAt(s: string, k: nat)
    requires k < |s|
    ensures |Reversed(s)| == |s| && Reversed(s)[k] == s[|s| - 1 - k]
  {
    if |s| > 1 {
      ReversedAt(s[..|s| - 1], if k > 0 then k - 1 else 0);
    } else {
      assert Reversed(s[..0]) == "";
    }
  }

  /** What format_u still has to do: the digits of v, then the ones already found. */
  ghost function Pending(v: nat, base: nat, upper: bool, found: string): string
    requires 2 <= base <= 16
  {
    (if v > 0 then Digits(v, base, upper) else "") + Reversed(found)
  }

  lemma PendingStep(v: nat, base: nat, upper: bool, found: string)
    requires 2 <= base <= 16 && v > 0
    ensures Pending(v, base, upper, found) == Pending(v / base, base, upper, found + [DigitChar(v % base, upper)])
  {
    var c := DigitChar(v % base, upper);
    assert (found + [c])[..|found|] == found;
    assert Reversed(found + [c]) == [c] + Reversed(found);
    DivisionSplits(v, base);
    if v < base {
      SmallQuotient(v, base);
    }
  }

  lemma SmallQuotient(v: nat, base: nat)
    requires v < base
    ensures v / base == 0 && v % base == v
  {
  }

  lemma HalvedAtLeast(v: nat, base: nat, n: nat, bound: nat)
    requires 2 <= base && v * Pow2(n) <= bound
    ensures v / base * Pow2(n + 1) <= bound
  {
    assert v / base * 2 <= v by { DivisionSplits(v, base); TwiceQuotient(v, base); }
    ScaleUp(v / base * 2, v, Pow2(n));
    assert v / base * Pow2(n + 1) == v / base * 2 * Pow2(n);
  }

  lemma TwiceQuotient(v: nat, base: nat)
    requires 2 <= base
    ensures v / base * 2 <= v / base * base
  {
    ScaleUp(2, base, v / base);
  }

  lemma ScaleUp(x: nat, y: nat, k: nat)
    requires x <= y
    ensures x * k <= y * k && k * x <= k * y
  {
  }

  lemma ThirtyTwoBits(v: nat, n: nat)
    requires v * Pow2(n) < WORD && n == 32
    ensures v == 0
  {
    PowTen();
    hide Pow2;
    PowSum(10, 10);
    PowSum(20, 10);
    PowSum(30, 2);
  }

  lemma PowTen()
    ensures Pow2(10) == 1024 && Pow2(2) == 4
  {
  }

  lemma PowSum(a: nat, b: nat)
    ensures Pow2(a + b) == Pow2(a) * Pow2(b)
  {
    if b > 0 {
      PowSum(a, b - 1);
    }
  }

  /** The digit loop: least significant digit first, in tmp. */
  method CollectDigits(v0: Word, base: nat, upper: bool, tmp: array<char>) returns (n: nat)
    requires 2 <= base <= 16 && tmp.Length == 32 && v0 > 0
    modifies tmp
    ensures n <= 32 && Reversed(tmp[..n]) == Digits(v0, base, upper)
  {
    hide DigitChar, Digits, Pending, Reversed, Pow2;
    var v: nat := v0;
    n := 0;
    PendingStart(v, base, upper, tmp[..0]);
    while v > 0 && n < 32
      invariant n <= 32 && v * Pow2(n) <= v0
      invariant Pending(v, base, upper, tmp[..n]) == Digits(v0, base, upper)
      decreases 32 - n
    {
      PendingStep(v, base, upper, tmp[..n]);
      HalvedAtLeast(v, base, n, v0);
      var d := v % base;
      tmp[n] := DigitChar(d, upper);
      assert tmp[..n + 1] == tmp[..n] + [DigitChar(d, upper)];
      v := v / base;
      n := n + 1;
    }
    if n == 32 {
      ThirtyTwoBits(v, n);
    }
    PendingDone(v, base, upper, tmp[..n]);
  }

  lemma PendingStart(v: nat, base: nat, upper: bool, found: string)
    requires 2 <= base <= 16 && v > 0 && found == ""
    ensures Pending(v, base, upper, found) == Digits(v, base, upper) && v * Pow2(0) == v
  {
  }

  lemma PendingDone(v: nat, base: nat, upper: bool, found: string)
    requires 2 <= base <= 16 && v == 0
    ensures Pending(v, base, upper, found) == Reversed(found)
  {
  }

  method FormatU(v: Word, base: nat, upper: bool, out: array<char>) returns (n: nat)
    requires 2 <= base <= 16 && out.Length >= 33
    modifies out
    ensures n <= out.Length && out[..n] == Digits(v, base, upper)
  {
    hide DigitChar, Digits;
    if v == 0 {
      out[0] := '0';
      ZeroDigit(base, upper);
      assert out[..1] == ['0'];
      return 1;
    }
    var tmp := new char[32];
    n := CollectDigits(v, base, upper, tmp);
    ghost var found := tmp[..n];
    for i := 0 to n
      invariant tmp[..n] == found
      invariant forall k | 0 <= k < i :: out[k] == tmp[n - 1 - k]
    {
      out[i] := tmp[n - 1 - i];
    }
    ReverseIs(tmp[..n], out[..n]);
  }

  lemma ReverseIs(s: string, t: string)
    requires |s| == |t| && forall k | 0 <= k < |s| :: t[k] == s[|s| - 1 - k]
    ensures t == Reversed(s)
  {
    if |s| > 0 {
      ReversedAt(s, 0);
    }
    forall k | 0 <= k < |s| ensures t[k] == Reversed(s)[k] {
      ReversedAt(s, k);
    }
  }

  lemma ZeroDigit(base: nat, upper: bool)
    requires 2 <= base <= 16
    ensures Digits(0, base, upper) == ['0']
  {
  }

  // ----------------------------------------------------------------- vsnprintf

  method ParseFlags(fmt: string, i: nat) returns (fl: Flags, j: nat)
    requires i <= |fmt|
    ensures i <= j <= |fmt| && (fl, j) == FlagsFrom(fmt, i, NO_FLAGS)
  {
    fl, j := NO_FLAGS, i;
    while true
      invariant i <= j <= |fmt| && FlagsFrom(fmt, j, fl) == FlagsFrom(fmt, i, NO_FLAGS)
      decreases |fmt| - j
    {
      var c := At(fmt, j);
      if c == '-' { fl := fl.(left := true); }
      else if c == '0' { fl := fl.(zero := true); }
      else if c == '#' { fl := fl.(hash := true); }
      else if c == '+' { fl := fl.(plus := true); }
      else if c == ' ' { fl := fl.(space := true); }
      else { break; }
      j := j + 1;
    }
  }

  method ParseInt(fmt: string, i: nat) returns (v: nat, j: nat)
    requires i <= |fmt|
    ensures i <= j <= |fmt| && (v, j) == IntFrom(fmt, i, 0)
  {
    v, j := 0, i;
    while '0' <= At(fmt, j) <= '9'
      invariant i <= j <= |fmt| && IntFrom(fmt, j, v) == IntFrom(fmt, i, 0)
      decreases |fmt| - j
    {
      v := v * 10 + (At(fmt, j) as int - '0' as int);
      j := j + 1;
    }
  }

  method SkipLength(fmt: string, i: nat) returns (j: nat)
    requires i <= |fmt|
    ensures i <= j <= |fmt| && j == LengthFrom(fmt, i)
  {
    j := i;
    while At(fmt, j) == 'l' || At(fmt, j) == 'h' || At(fmt, j) == 'z'
      invariant i <= j <= |fmt| && LengthFrom(fmt, j) == LengthFrom(fmt, i)
      decreases |fmt| - j
    {
      j := j + 1;
    }
  }

  /** Flags, width, precision and length modifiers. */
  method ParseSpec(fmt: string, i: nat, args: seq<Arg>, a: nat) returns (s: Spec)
    requires i <= |fmt| && SpecFrom(fmt, i, args, a).Some?
    ensures Some(s) == SpecFrom(fmt, i, args, a)
  {
    hide FlagsFrom, IntFrom, LengthFrom;
    var fl, j := ParseFlags(fmt, i);
    var width, prec, arg := 0, -1, a;
    if At(fmt, j) == '*' {
      width := Signed(args[arg].w);
      if width < 0 {
        fl := fl.(left := true);
        width := -width;
      }
      arg := arg + 1;
      j := j + 1;
    } else {
      width, j := ParseInt(fmt, j);
    }
    if At(fmt, j) == '.' {
      j := j + 1;
      if At(fmt, j) == '*' {
        prec := Signed(args[arg].w);
        if prec < 0 {
          prec := -1;
        }
        arg := arg + 1;
        j := j + 1;
      } else {
        prec, j := ParseInt(fmt, j);
      }
    }
    j := SkipLength(fmt, j);
    s := Spec(fl, width, prec, j, arg);
  }

  /** %d and %i: sign, magnitude, emit. */
  method EmitSigned(b: Buf, s: Spec, w: Word)
    requires b.Valid()
    modifies b`pos, b`text, b.out
    ensures b.Valid() && b.text == old(b.text) + SignedText(s.fl, s.width, s.prec, w)
  {
    hide Digits, Numeric;
    var digits := new char[33];
    var v := Signed(w);
    var prefix := "";
    var mag: Word := if v < 0 then -v else v;
    if v < 0 {
      prefix := "-";
    } else if s.fl.plus {
      prefix := "+";
    } else if s.fl.space {
      prefix := " ";
    }
    var dlen := FormatU(mag, 10, false, digits);
    var fl := s.fl;
    if s.prec >= 0 {
      fl := fl.(zero := false);
    }
    b.EmitNumeric(fl, s.width, s.prec, prefix, digits[..dlen]);
  }

  /** %u, %x, %X and %o: digits, prefix, emit. */
  method EmitUnsigned(b: Buf, s: Spec, r: Radix, w: Word)
    requires b.Valid()
    modifies b`pos, b`text, b.out
    ensures b.Valid() && b.text == old(b.text) + UnsignedText(s.fl, s.width, s.prec, r, w)
  {
    hide Digits, Numeric, Buf.Valid;
    var digits := new char[33];
    var prefix := "";
    var dlen := FormatU(w, BaseOf(r), r == HexUp, digits);
    if r == HexLow || r == HexUp {
      if s.fl.hash && w != 0 {
        prefix := if r == HexUp then "0X" else "0x";
      }
    } else if r == Oct {
      OctalStart(w);
      assert digits[0] == digits[..dlen][0];
      if s.fl.hash && (dlen == 0 || digits[0] != '0') {
        prefix := "0";
      }
    }
    var fl := s.fl;
    if s.prec >= 0 {
      fl := fl.(zero := false);
    }
    b.EmitNumeric(fl, s.width, s.prec, prefix, digits[..dlen]);
  }

  /** Only the number zero starts with the digit 0. */
  lemma OctalStart(w: Word)
    ensures Digits(w, 8, false)[0] == '0' <==> w == 0
  {
    hide IsDigit, Value;
    DigitsAreDigits(w, 8, false);
  }

  /** %p: always prefixed. */
  method EmitPointer(b: Buf, s: Spec, w: Word)
    requires b.Valid()
    modifies b`pos, b`text, b.out
    ensures b.Valid() && b.text == old(b.text) + Numeric(s.fl, s.width, s.prec, "0x", Digits(w, 16, false))
  {
    hide Digits, Numeric;
    var digits := new char[33];
    var dlen := FormatU(w, 16, false, digits);
    b.EmitNumeric(s.fl, s.width, s.prec, "0x", digits[..dlen]);
  }

  /** The conversions that take a word. */
  method EmitWord(b: Buf, s: Spec, c: char, w: Word)
    requires b.Valid() && TakesWord(c)
    modifies b`pos, b`text, b.out
    ensures b.Valid() && b.text == old(b.text) + WordText(s, c, w)
  {
    hide Digits, Numeric, SignedText, UnsignedText, Justified;
    if c == 'd' || c == 'i' {
      EmitSigned(b, s, w);
    } else if c == 'u' {
      EmitUnsigned(b, s, Dec, w);
    } else if c == 'x' {
      EmitUnsigned(b, s, HexLow, w);
    } else if c == 'X' {
      EmitUnsigned(b, s, HexUp, w);
    } else if c == 'o' {
      EmitUnsigned(b, s, Oct, w);
    } else if c == 'p' {
      EmitPointer(b, s, w);
    } else {
      b.EmitJustified(s.fl, s.width, [(w % 256) as char]);
    }
  }

  method StrLen(s: string, prec: int) returns (n: nat)
    ensures n <= |s| && s[..n] == Clip(s, prec)
  {
    n := 0;
    while n < |s| && (prec < 0 || n < prec)
      invariant n <= |s| && (prec >= 0 ==> n <= prec)
    {
      n := n + 1;
    }
    assert s[..|s|] == s;
  }

  method EmitConversion(b: Buf, s: Spec, c: char, args: seq<Arg>) returns (a: nat)
    requires b.Valid() && Convert(s, c, args).Some?
    modifies b`pos, b`text, b.out
    ensures b.Valid() && b.text == old(b.text) + Convert(s, c, args).value.0 && a == Convert(s, c, args).value.1
  {
    hide WordText, Justified, Clip;
    a := s.arg;
    if TakesWord(c) {
      EmitWord(b, s, c, args[a].w);
      a := a + 1;
    } else if c == 's' {
      var str := if args[a].NullStr? then "(null)" else args[a].s;
      var n := StrLen(str, s.prec);
      b.EmitJustified(s.fl, s.width, str[..n]);
      a := a + 1;
    } else if c == '%' {
      b.PutC('%');
    } else {
      ghost var t := b.text;
      b.PutC('%');
      b.PutC(c);
      assert t + ['%'] + [c] == t + ['%', c];
    }
  }

  /** The value returned is the length of the full expansion; the buffer gets as much of it as fits. */
  method VsnPrintf(out: array<char>, cap: nat, fmt: string, args: seq<Arg>) returns (n: nat)
    requires cap <= out.Length && Expand(fmt, 0, args, 0).Some?
    requires |Expand(fmt, 0, args, 0).value| <= INT_MAX
    modifies out
    ensures n == |Expand(fmt, 0, args, 0).value|
    ensures out[..] == Written(old(out[..]), Expand(fmt, 0, args, 0).value, cap)
  {
    hide SpecFrom, Convert, Written, Expand;
    var b := new Buf(out, cap);
    var i, a := 0, 0;
    while i < |fmt|
      invariant i <= |fmt| && b.Valid() && fresh(b) && b.out == out && b.cap == cap && b.before == old(out[..])
      invariant Expand(fmt, i, args, a).Some?
      invariant Expand(fmt, 0, args, 0).value == b.text + Expand(fmt, i, args, a).value
      decreases |fmt| - i
    {
      ExpandStep(fmt, i, args, a, b.text);
      if fmt[i] != '%' {
        b.PutC(fmt[i]);
        i := i + 1;
      } else {
        var s := ParseSpec(fmt, i + 1, args, a);
        a := EmitConversion(b, s, fmt[s.next], args);
        i := s.next + 1;
      }
    }
    ExpandEnd(fmt, args, a, b.text);
    b.Finish();
    n := b.pos;
  }

  /** One character or one conversion of the format moves from what is to come to the text t. */
  lemma ExpandStep(fmt: string, i: nat, args: seq<Arg>, a: nat, t: string)
    requires i < |fmt| && Expand(fmt, i, args, a).Some?
    ensures if fmt[i] != '%' then
              Expand(fmt, i + 1, args, a).Some?
              && t + Expand(fmt, i, args, a).value == (t + [fmt[i]]) + Expand(fmt, i + 1, args, a).value
            else
              SpecFrom(fmt, i + 1, args, a).Some?
              && var s := SpecFrom(fmt, i + 1, args, a).value;
                 Convert(s, fmt[s.next], args).Some?
                 && var (text, a') := Convert(s, fmt[s.next], args).value;
                    Expand(fmt, s.next + 1, args, a').Some?
                    && t + Expand(fmt, i, args, a).value == (t + text) + Expand(fmt, s.next + 1, args, a').value
  {
    hide Convert;
  }

  lemma ExpandEnd(fmt: string, args: seq<Arg>, a: nat, t: string)
    ensures Expand(fmt, |fmt|, args, a) == Some("") && t + "" == t
  {
  }

  // -------------------------------------------------------- print, then parse

  /** fmt is one conversion that takes a number. */
  ghost predicate OneNumber(fmt: string, args: seq<Arg>, s: Spec, c: char) {
    && |fmt| > 1 && fmt[0] == '%' && SpecFrom(fmt, 1, args, 0) == Some(s) && s.next + 1 == |fmt| && fmt[s.next] == c
    && TakesWord(c) && s.arg < |args| && args[s.arg].WordArg?
  }

  /** Whatever flags, width and precision the format asks for, the text parses to the argument. */
  lemma PrintedNumberParses(fmt: string, args: seq<Arg>, s: Spec, c: char)
    requires OneNumber(fmt, args, s, c)
    ensures var w, text := args[s.arg].w, Expand(fmt, 0, args, 0);
            && text.Some?
            && (c == 'd' || c == 'i' ==> StrtolValue(text.value, 10) == Signed(w))
            && (c == 'u' ==> Strtoul(text.value, 10).value == w)
            && (c == 'x' || c == 'X' ==> Strtoul(text.value, 16).value == w)
            && (c == 'o' ==> Strtoul(text.value, 8).value == w)
  {
    hide SpecFrom, SignedText, UnsignedText, StrtolValue, Strtoul, Expand;
    var w := args[s.arg].w;
    SingleConversion(fmt, args, s, c);
    StrtolInvertsSigned(s.fl, s.width, s.prec, w);
    StrtoulInvertsUnsigned(s.fl, s.width, s.prec, Dec, w);
    StrtoulInvertsUnsigned(s.fl, s.width, s.prec, HexLow, w);
    StrtoulInvertsUnsigned(s.fl, s.width, s.prec, HexUp, w);
    StrtoulInvertsUnsigned(s.fl, s.width, s.prec, Oct, w);
  }

  /** The two halves together: a number printed with any %d into a buffer that is large enough is
      what strtol reads from the buffer. */
  method PrintAndParse(out: array<char>, fmt: string, args: seq<Arg>, ghost s: Spec) returns (v: int)
    requires OneNumber(fmt, args, s, 'd') && Expand(fmt, 0, args, 0).Some?
    requires |Expand(fmt, 0, args, 0).value| < out.Length && |Expand(fmt, 0, args, 0).value| <= INT_MAX
    modifies out
    ensures v == Signed(args[s.arg].w)
  {
    hide SpecFrom, Expand, OneNumber, StrtolValue, Strtol, Strtoul;
    var n := VsnPrintf(out, out.Length, fmt, args);
    ghost var text := Expand(fmt, 0, args, 0).value;
    assert out[..n] == text;
    PrintedNumberParses(fmt, args, s, 'd');
    var end;
    v, end := StrtolRun(out[..n], 10);
  }
}
