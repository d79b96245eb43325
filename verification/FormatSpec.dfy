/** What lib/libstink_printf.c prints for one conversion, and that the parsers of StrtolModel read it back. */
module FormatSpec {
  import opened StrtolModel

  // -------------------------------------------------------------------- digits

  function DigitChar(d: nat, upper: bool): char
    requires d < 16
  {
    if d < 10 then ('0' as int + d) as char
    else if upper then ('A' as int + d - 10) as char
    else ('a' as int + d - 10) as char
  }

  /** v in the given base, most significant digit first. */
  function Digits(v: nat, base: nat, upper: bool): (s: string)
    requires 2 <= base <= 16
    ensures |s| > 0
  {
    if v < base then [DigitChar(v, upper)] else Digits(v / base, base, upper) + [DigitChar(v % base, upper)]
  }

  lemma DigitCharIsDigit(d: nat, base: nat, upper: bool)
    requires d < base <= 16
    ensures DigitOf(DigitChar(d, upper)) == d && IsDigit(DigitChar(d, upper), base)
    ensures DigitChar(d, upper) == '0' <==> d == 0
  {
  }

  lemma {:induction false} DigitsAreDigits(v: nat, base: nat, upper: bool)
    requires 2 <= base <= 16
    ensures var s := Digits(v, base, upper);
            && (forall i | 0 <= i < |s| :: IsDigit(s[i], base))
            && Value(s, base) == v
            && (s[0] == '0' <==> v == 0) && (v == 0 ==> |s| == 1)
  {
    hide DigitChar, DigitOf, IsDigit, Value;
    if v < base {
      DigitCharIsDigit(v, base, upper);
      OneDigit(DigitChar(v, upper), base);
    } else {
      var t, c := Digits(v / base, base, upper), DigitChar(v % base, upper);
      DivisionSplits(v, base);
      DigitsAreDigits(v / base, base, upper);
      DigitCharIsDigit(v % base, base, upper);
      OneMoreDigit(t, c, base);
    }
  }

  lemma OneDigit(c: char, base: nat)
    requires IsDigit(c, base)
    ensures Value([c], base) == DigitOf(c)
  {
    assert [c][..0] == "";
    assert Value([c][..0], base) == 0;
  }

  lemma OneMoreDigit(s: string, c: char, base: nat)
    requires IsDigit(c, base) && forall i | 0 <= i < |s| :: IsDigit(s[i], base)
    ensures Value(s + [c], base) == Value(s, base) * base + DigitOf(c)
  {
    assert (s + [c])[..|s|] == s;
  }

  lemma DivisionSplits(v: nat, base: nat)
    requires 0 < base
    ensures v == v / base * base + v % base
    ensures v >= base ==> v / base > 0
  {
  }

  // ----------------------------------------------------------------- conversion

  datatype Flags = Flags(left: bool, zero: bool, hash: bool, plus: bool, space: bool)

  function Pad(c: char, n: int): string {
    if n <= 0 then "" else seq(n, _ => c)
  }

  /** The shared numeric path: prefix, zero padding, precision padding, digits, within the width. */
  function Numeric(fl: Flags, width: int, prec: int, prefix: string, digits: string): string {
    var precPad := if prec > |digits| then prec - |digits| else 0;
    var body := |prefix| + precPad + |digits|;
    var widthPad := if width > body then width - body else 0;
    var zeros := fl.zero && !fl.left && prec < 0;
    (if !fl.left && !zeros then Pad(' ', widthPad) else "")
    + prefix + Pad('0', if zeros then widthPad else 0) + Pad('0', precPad) + digits
    + (if fl.left then Pad(' ', widthPad) else "")
  }

  /** The %s and %c path. */
  function Justified(fl: Flags, width: int, s: string): string {
    (if fl.left then "" else Pad(' ', width - |s|)) + s + (if fl.left then Pad(' ', width - |s|) else "")
  }

  function SignPrefix(fl: Flags, v: int): string {
    if v < 0 then "-" else if fl.plus then "+" else if fl.space then " " else ""
  }

  function Magnitude(v: int): nat {
    if v < 0 then -v else v
  }

  /** %d and %i. */
  function SignedText(fl: Flags, width: int, prec: int, w: Word): string {
    var fl' := if prec >= 0 then fl.(zero := false) else fl;
    Numeric(fl', width, prec, SignPrefix(fl, Signed(w)), Digits(Magnitude(Signed(w)), 10, false))
  }

  datatype Radix = Dec | HexLow | HexUp | Oct

  function BaseOf(r: Radix): nat {
    match r case Dec => 10 case HexLow => 16 case HexUp => 16 case Oct => 8
  }

  function RadixPrefix(fl: Flags, r: Radix, w: Word): string {
    if !fl.hash || w == 0 then ""
    else match r case Dec => "" case HexLow => "0x" case HexUp => "0X" case Oct => "0"
  }

  /** %u, %x, %X and %o. */
  function UnsignedText(fl: Flags, width: int, prec: int, r: Radix, w: Word): string {
    var fl' := if prec >= 0 then fl.(zero := false) else fl;
    Numeric(fl', width, prec, RadixPrefix(fl, r, w), Digits(w, BaseOf(r), r == HexUp))
  }

  // ------------------------------------------------------------------ read back

  function Spaces(n: nat): string { seq(n, _ => ' ') }

  function Zeros(n: nat): string { seq(n, _ => '0') }

  function Body(z: nat, digits: string, b: nat): string { Zeros(z) + digits + Spaces(b) }

  lemma NumericShape(fl: Flags, width: int, prec: int, prefix: string, digits: string) returns (a: nat, z: nat, b: nat)
    ensures Numeric(fl, width, prec, prefix, digits) == Spaces(a) + (prefix + Body(z, digits, b))
    ensures width <= |prefix| + |digits| && prec <= |digits| ==> a == z == b == 0
  {
    var precPad := if prec > |digits| then prec - |digits| else 0;
    var body := |prefix| + precPad + |digits|;
    var widthPad := if width > body then width - body else 0;
    var zeros := fl.zero && !fl.left && prec < 0;
    a := if !fl.left && !zeros then widthPad else 0;
    z := (if zeros then widthPad else 0) + precPad;
    b := if fl.left then widthPad else 0;
    PadIs(' ', widthPad);
    PadIs('0', precPad);
    PadIs('0', widthPad);
    hide Pad;
    assert Zeros(z) == Pad('0', if zeros then widthPad else 0) + Pad('0', precPad) by {
      ZerosSplit(if zeros then widthPad else 0, precPad);
    }
    Grouped(Spaces(a), prefix, Pad('0', if zeros then widthPad else 0), Pad('0', precPad), digits, Spaces(b));
  }

  lemma PadIs(c: char, n: nat)
    ensures Pad(c, n) == seq(n, _ => c) && Pad(c, 0) == ""
  {
  }

  lemma ZerosSplit(x: nat, y: nat)
    ensures Zeros(x + y) == Pad('0', x) + Pad('0', y)
  {
    PadIs('0', x);
    PadIs('0', y);
  }

  lemma Grouped(a: string, p: string, x: string, y: string, d: string, b: string)
    ensures a + p + x + y + d + b == a + (p + (x + y + d + b))
  {
  }

  lemma SkipLeading(a: nat, t: string)
    requires |t| > 0 ==> !IsSpace(t[0])
    ensures SkipSpaces(Spaces(a) + t) == t
  {
    if a == 0 {
      assert Spaces(0) + t == t;
    } else {
      assert (Spaces(a) + t)[1..] == Spaces(a - 1) + t;
      SkipLeading(a - 1, t);
    }
  }

  lemma ValueOfZeros(z: nat, base: nat)
    requires 2 <= base
    ensures (forall i | 0 <= i < z :: IsDigit(Zeros(z)[i], base)) && Value(Zeros(z), base) == 0
  {
    if z > 0 {
      ValueOfZeros(z - 1, base);
      assert Zeros(z)[..z - 1] == Zeros(z - 1);
    }
  }

  lemma {:induction false} LeadingZeros(z: nat, s: string, base: nat)
    requires 2 <= base && forall i | 0 <= i < |s| :: IsDigit(s[i], base)
    ensures var t := Zeros(z) + s;
            (forall i | 0 <= i < |t| :: IsDigit(t[i], base)) && Value(t, base) == Value(s, base)
  {
    hide IsDigit, DigitOf, Value;
    ValueOfZeros(z, base);
    if |s| == 0 {
      assert Zeros(z) + s == Zeros(z);
      ValueEmpty(s, base);
    } else {
      var k := |s| - 1;
      LeadingZeros(z, s[..k], base);
      OneMoreDigit(s[..k], s[k], base);
      OneMoreDigit(Zeros(z) + s[..k], s[k], base);
      assert s == s[..k] + [s[k]];
      assert Zeros(z) + s == Zeros(z) + s[..k] + [s[k]];
    }
  }

  /** Zeros, digits and trailing spaces parse to the number the digits denote. */
  lemma ParsePadded(z: nat, digits: string, b: nat, base: nat, size: nat)
    requires 2 <= base <= 16 && |digits| > 0 && forall i | 0 <= i < |digits| :: IsDigit(digits[i], base)
    requires z + |digits| + b <= size
    ensures ParseDigits(Zeros(z) + digits + Spaces(b), base, size).value == Value(digits, base) % WORD
  {
    LeadingZeros(z, digits, base);
    var t := Zeros(z) + digits;
    RunIs(t + Spaces(b), |t|, base);
    assert (t + Spaces(b))[..|t|] == t;
  }

  /** What both parsers see behind the prefix: no white space, sign or base prefix of its own, and the number. */
  lemma BodyParses(z: nat, digits: string, b: nat, base: nat, size: nat)
    requires 2 <= base <= 16 && |digits| > 0 && forall i | 0 <= i < |digits| :: IsDigit(digits[i], base)
    requires |Body(z, digits, b)| <= size
    ensures var t := Body(z, digits, b);
            && |t| > 0 && !IsSpace(t[0]) && t[0] != '-' && t[0] != '+' && !HasHexPrefix(t)
            && ParseDigits(t, base, size).value == Value(digits, base) % WORD
  {
    hide DigitOf, ParseDigits, Value;
    var t := Body(z, digits, b);
    assert t[0] == if z > 0 then '0' else digits[0];
    if z > 0 {
      assert IsDigit('0', base) by { DigitCharIsDigit(0, base, false); }
    }
    StartsWithDigit(t, base);
    NoHexPrefix(z, digits, b, base);
    ParsePadded(z, digits, b, base, size);
  }

  lemma StrtolPrefixed(a: nat, prefix: string, t: string, base: nat)
    requires |t| > 0 && !IsSpace(t[0]) && t[0] != '-' && t[0] != '+' && !HasHexPrefix(t) && base == 10
    requires prefix == "" || prefix == " " || prefix == "-" || prefix == "+"
    ensures var s := Spaces(a) + (prefix + t);
            Strtol(s, base) == (ParseDigits(t, base, |s|), prefix == "-")
  {
    hide ParseDigits;
    if prefix == " " {
      MoreSpaces(a, t);
      SkipLeading(a + 1, t);
    } else if prefix == "" {
      assert prefix + t == t;
      SkipLeading(a, t);
    } else {
      SkipLeading(a, prefix + t);
      assert (prefix + t)[1..] == t;
    }
  }

  /** strtol in base 10 inverts %d, whatever the flags, width and precision. */
  lemma StrtolInvertsSigned(fl: Flags, width: int, prec: int, w: Word)
    ensures StrtolValue(SignedText(fl, width, prec, w), 10) == Signed(w)
  {
    hide Numeric, ParseDigits, Value, Digits, IsDigit, Strtol, Zeros, Spaces;
    var v := Signed(w);
    var fl' := if prec >= 0 then fl.(zero := false) else fl;
    var prefix, digits := SignPrefix(fl, v), Digits(Magnitude(v), 10, false);
    DigitsAreDigits(Magnitude(v), 10, false);
    var a, z, b := NumericShape(fl', width, prec, prefix, digits);
    var s := SignedText(fl, width, prec, w);
    assert s == Spaces(a) + (prefix + Body(z, digits, b));
    BodyParses(z, digits, b, 10, |s|);
    StrtolPrefixed(a, prefix, Body(z, digits, b), 10);
  }

  lemma StartsWithDigit(s: string, base: nat)
    requires |s| > 0 && base <= 16 && IsDigit(s[0], base)
    ensures !IsSpace(s[0]) && s[0] != '-' && s[0] != '+'
  {
  }

  lemma MoreSpaces(a: nat, t: string)
    ensures Spaces(a) + (" " + t) == Spaces(a + 1) + t
  {
    assert Spaces(a) + " " == Spaces(a + 1);
  }

  /** Only the magnitude of INT_MIN does not fit the 32-bit long that strtol accumulates in. */
  lemma SignedValueFits(w: Word)
    ensures Magnitude(Signed(w)) <= INT_MAX <==> Signed(w) != -INT_MAX - 1
  {
  }

  /** strtoul in the matching base inverts %u, %x, %X and %o, whatever the flags, width and precision. */
  lemma StrtoulInvertsUnsigned(fl: Flags, width: int, prec: int, r: Radix, w: Word)
    ensures Strtoul(UnsignedText(fl, width, prec, r, w), BaseOf(r)).value == w
  {
    hide Numeric, ParseDigits, Value, Digits, IsDigit, Strtoul, Zeros, Spaces, Body;
    var fl' := if prec >= 0 then fl.(zero := false) else fl;
    var base, prefix, digits := BaseOf(r), RadixPrefix(fl, r, w), Digits(w, BaseOf(r), r == HexUp);
    DigitsAreDigits(w, base, r == HexUp);
    var a, z, b := NumericShape(fl', width, prec, prefix, digits);
    var s := UnsignedText(fl, width, prec, r, w);
    assert s == Spaces(a) + (prefix + Body(z, digits, b));
    BodyParses(z, digits, b, base, |s|);
    if prefix == "0" {
      OctalPrefix(z, digits, b);
      BodyParses(z + 1, digits, b, base, |s|);
      StrtoulPrefixed(a, "", Body(z + 1, digits, b), base);
      assert "" + Body(z + 1, digits, b) == prefix + Body(z, digits, b);
    } else {
      StrtoulPrefixed(a, prefix, Body(z, digits, b), base);
    }
  }

  lemma OctalPrefix(z: nat, digits: string, b: nat)
    ensures "0" + Body(z, digits, b) == Body(z + 1, digits, b)
  {
  }

  lemma StrtoulPrefixed(a: nat, prefix: string, t: string, base: nat)
    requires |t| > 0 && !IsSpace(t[0]) && t[0] != '-' && t[0] != '+' && !HasHexPrefix(t)
    requires prefix == "" || (base == 16 && (prefix == "0x" || prefix == "0X"))
    requires base == 8 || base == 10 || base == 16
    ensures var s := Spaces(a) + (prefix + t);
            Strtoul(s, base) == ParseDigits(t, base, |s|)
  {
    hide ParseDigits;
    SkipLeading(a, prefix + t);
    if prefix == "" {
      assert prefix + t == t;
    } else {
      assert (prefix + t)[2..] == t;
    }
  }

  lemma NoHexPrefix(z: nat, digits: string, b: nat, base: nat)
    requires |digits| > 0 && base <= 16 && forall i | 0 <= i < |digits| :: IsDigit(digits[i], base)
    ensures !HasHexPrefix(Zeros(z) + digits + Spaces(b))
  {
    var t := Zeros(z) + digits + Spaces(b);
    if |t| > 1 {
      assert t[1] == if z > 1 then '0' else if 1 - z < |digits| then digits[1 - z] else ' ';
    }
  }

  lemma StrtoulPlain(s: string)
    requires |s| > 0 && !IsSpace(s[0]) && s[0] != '-' && s[0] != '+'
    ensures var (b, d) := ResolveBase(s, 0);
            Strtoul(s, 0) == ParseDigits(d, b, |s|)
  {
    hide ParseDigits, ResolveBase;
    SkipLeading(0, s);
    assert Spaces(0) + s == s;
  }

  /** Base 0 looks at the prefix: 0x or 0X is hexadecimal, another leading 0 octal. */
  lemma BasePrefix(prefix: string, digits: string)
    requires |digits| > 0 && !HasHexPrefix(digits) && !HasHexPrefix("0" + digits)
    ensures prefix == "" && digits[0] != '0' ==> ResolveBase(prefix + digits, 0) == (10, digits)
    ensures prefix == "" && digits == "0" ==> ResolveBase(prefix + digits, 0) == (8, "")
    ensures prefix == "0" ==> ResolveBase(prefix + digits, 0) == (8, digits)
    ensures prefix == "0x" || prefix == "0X" ==> ResolveBase(prefix + digits, 0) == (16, digits)
  {
    assert prefix == "" ==> prefix + digits == digits;
    assert digits == "0" ==> digits[1..] == "";
    assert prefix == "0" ==> (prefix + digits)[1..] == digits;
    assert |prefix| == 2 ==> (prefix + digits)[2..] == digits;
  }

  /** Without padding, strtoul in base 0 recognises the base of %u, %#x, %#X and %#o by itself. */
  lemma StrtoulBaseZero(fl: Flags, width: int, prec: int, r: Radix, w: Word)
    requires r == Dec || fl.hash
    requires var digits := Digits(w, BaseOf(r), r == HexUp);
             width <= |RadixPrefix(fl, r, w)| + |digits| && prec <= |digits|
    ensures Strtoul(UnsignedText(fl, width, prec, r, w), 0).value == w
  {
    hide Numeric, ParseDigits, Value, Digits, IsDigit, Body, Strtoul, ResolveBase, HasHexPrefix, IsSpace;
    var fl' := if prec >= 0 then fl.(zero := false) else fl;
    var base, prefix, digits := BaseOf(r), RadixPrefix(fl, r, w), Digits(w, BaseOf(r), r == HexUp);
    DigitsAreDigits(w, base, r == HexUp);
    var a, z, b := NumericShape(fl', width, prec, prefix, digits);
    var s := UnsignedText(fl, width, prec, r, w);
    BareBody(digits, prefix);
    assert s == prefix + digits;
    BodyParses(0, digits, 0, base, |s|);
    NoHexPrefix(1, digits, 0, base);
    assert Zeros(1) + digits + Spaces(0) == "0" + digits;
    BasePrefix(prefix, digits);
    StartsWithDigit(digits, base);
    ZeroIsNoSpace();
    StrtoulPlain(s);
    if w == 0 {
      ParseNothing(|s|);
    }
  }

  lemma ZeroIsNoSpace()
    ensures !IsSpace('0')
  {
  }

  lemma BareBody(digits: string, prefix: string)
    ensures Body(0, digits, 0) == digits && Spaces(0) + (prefix + Body(0, digits, 0)) == prefix + digits
  {
    assert Body(0, digits, 0) == digits;
  }

  lemma ParseNothing(size: nat)
    ensures ParseDigits("", 8, size).value == 0
  {
    assert ""[..0] == "";
  }
}
