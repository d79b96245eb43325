/** What a user of vsnprintf relies on, stated of the text itself: its length, the side of the padding,
    which character is where. */
module FormatLaws {
  import opened Common
  import opened StrtolModel
  import opened FormatSpec
  import opened PrintfModel

  function Rep(c: char, n: nat): string {
    seq(n, _ => c)
  }

  // ---------------------------------------------------------------- width, precision, sides

  /** A number fills its field: the text is as long as the width asks for, or as prefix, precision and
      digits need. The padding is all spaces behind with `-`, all zeros between prefix and digits with
      `0` and no precision, and all spaces in front otherwise. */
  lemma NumericLaw(fl: Flags, width: int, prec: int, prefix: string, digits: string)
    ensures |Numeric(fl, width, prec, prefix, digits)| == Max(width, |prefix| + Max(prec, |digits|))
    ensures var z := Max(prec, |digits|) - |digits|;
            var p := Max(width - |prefix| - z - |digits|, 0);
            Numeric(fl, width, prec, prefix, digits) ==
              if fl.left then prefix + Rep('0', z) + digits + Rep(' ', p)
              else if fl.zero && prec < 0 then prefix + Rep('0', p) + digits
              else Rep(' ', p) + prefix + Rep('0', z) + digits
  {
  }

  /** So does a string, and its padding is all on one side. */
  lemma JustifiedLaw(fl: Flags, width: int, s: string)
    ensures |Justified(fl, width, s)| == Max(width, |s|)
    ensures Justified(fl, width, s) ==
              if fl.left then s + Rep(' ', Max(width - |s|, 0)) else Rep(' ', Max(width - |s|, 0)) + s
  {
  }

  /** A precision that is given bounds the string. */
  lemma ClipLaw(s: string, prec: int)
    ensures Clip(s, prec) <= s && |Clip(s, prec)| == if prec < 0 then |s| else Min(prec, |s|)
  {
  }

  // ---------------------------------------------------------------- digits

  /** v without its last k digits in base b. */
  function Drop(v: int, b: nat, k: nat): int
    requires b > 0
    decreases k
  {
    if k == 0 then v else Drop(v / b, b, k - 1)
  }

  /** The digit for d: capital letters only for %X. */
  function Face(d: nat, upper: bool): char
    requires d < 16
  {
    if upper then "0123456789ABCDEF"[d] else "0123456789abcdef"[d]
  }

  lemma FaceIs(d: nat, upper: bool)
    requires d < 16
    ensures DigitChar(d, upper) == Face(d, upper)
  {
  }

  /** The k-th character from the right is the digit of that place. */
  ghost predicate Shows(s: string, k: nat, v: nat, base: nat, upper: bool)
    requires k < |s| && 2 <= base <= 16
  {
    s[|s| - 1 - k] == Face(Drop(v, base, k) % base, upper)
  }

  lemma LastPlace(s: string, v: nat, base: nat, upper: bool)
    requires 2 <= base <= 16
    ensures Shows(s + [DigitChar(v % base, upper)], 0, v, base, upper)
  {
    hide DigitChar, Face;
    FaceIs(v % base, upper);
  }

  lemma NextPlace(s: string, c: char, k: nat, v: nat, base: nat, upper: bool)
    requires 2 <= base <= 16 && k < |s| && Shows(s, k, v / base, base, upper)
    ensures Shows(s + [c], k + 1, v, base, upper)
  {
    hide Face;
  }

  /** Every place of the text shows the digit of that place, and the text is no longer than needed. */
  ghost predicate Spells(s: string, v: nat, base: nat, upper: bool)
    requires 2 <= base <= 16
  {
    && (forall k | 0 <= k < |s| :: Shows(s, k, v, base, upper))
    && Drop(v, base, |s|) == 0 && (|s| > 1 ==> Drop(v, base, |s| - 1) != 0)
  }

  lemma {:induction false} DigitsLaw(v: nat, base: nat, upper: bool)
    requires 2 <= base <= 16
    ensures Spells(Digits(v, base, upper), v, base, upper)
  {
    hide DigitChar, Spells;
    if v < base {
      OneSpelled(v, base, upper);
    } else {
      ShorterQuotient(v, base);
      DigitsLaw(v / base, base, upper);
      MoreSpelled(Digits(v / base, base, upper), v, v / base, base, upper);
    }
  }

  lemma ShorterQuotient(v: nat, base: nat)
    requires 2 <= base <= v
    ensures 0 < v / base < v
  {
    DivisionSplits(v, base);
    Grows(v / base, base);
  }

  lemma Grows(q: nat, base: nat)
    requires q > 0 && base >= 2
    ensures q * base > q
  {
  }

  lemma OneSpelled(v: nat, base: nat, upper: bool)
    requires 2 <= base <= 16 && v < base
    ensures Spells([DigitChar(v, upper)], v, base, upper)
  {
    hide DigitChar, Drop, Shows;
    SmallNumber(v, base);
    LastPlace("", v, base, upper);
    assert "" + [DigitChar(v, upper)] == [DigitChar(v, upper)];
    DropMore(v, base, 0, 1);
  }

  lemma MoreSpelled(t: string, v: nat, q: nat, base: nat, upper: bool)
    requires 2 <= base <= 16 && q == v / base && q > 0 && |t| > 0 && Spells(t, q, base, upper)
    ensures Spells(t + [DigitChar(v % base, upper)], v, base, upper)
  {
    hide DigitChar, Drop, Shows;
    LastPlace(t, v, base, upper);
    var c := DigitChar(v % base, upper);
    forall k | 0 < k <= |t| ensures Shows(t + [c], k, v, base, upper) {
      NextPlace(t, c, k - 1, v, base, upper);
    }
    DropMore(v, base, q, |t|);
    DropMore(v, base, q, |t| + 1);
  }

  lemma DropMore(v: nat, base: nat, q: nat, k: nat)
    requires base > 0 && q == v / base && k > 0
    ensures Drop(v, base, k) == Drop(q, base, k - 1) && Drop(q, base, 0) == q
  {
  }

  lemma SmallNumber(v: nat, base: nat)
    requires v < base
    ensures v / base == 0 && v % base == v
  {
  }

  // ---------------------------------------------------------------- between % and the conversion

  /** Flags are read as far as there are any, and each is set by its own character. */
  lemma FlagsLaw(fmt: string, i: nat)
    requires i <= |fmt|
    ensures var (fl, j) := FlagsFrom(fmt, i, NO_FLAGS);
            && (forall k | i <= k < j :: fmt[k] in "-0#+ ") && (j < |fmt| ==> fmt[j] !in "-0#+ ")
            && (fl.left <==> '-' in fmt[i..j]) && (fl.zero <==> '0' in fmt[i..j]) && (fl.hash <==> '#' in fmt[i..j])
            && (fl.plus <==> '+' in fmt[i..j]) && (fl.space <==> ' ' in fmt[i..j])
  {
    FlagsSince(fmt, i, NO_FLAGS);
  }

  function With(f: Flags, c: char): Flags {
    Flags(f.left || c == '-', f.zero || c == '0', f.hash || c == '#', f.plus || c == '+', f.space || c == ' ')
  }

  /** fl is f with the flags in s. */
  ghost predicate Adds(fl: Flags, f: Flags, s: string) {
    fl == Flags(f.left || '-' in s, f.zero || '0' in s, f.hash || '#' in s, f.plus || '+' in s, f.space || ' ' in s)
  }

  lemma AddsOne(fl: Flags, f: Flags, c: char, s: string)
    requires Adds(fl, With(f, c), s)
    ensures Adds(fl, f, [c] + s)
  {
  }

  lemma OneFlag(fmt: string, i: nat, f: Flags)
    requires i <= |fmt|
    ensures FlagsFrom(fmt, i, f) ==
              if i < |fmt| && fmt[i] in "-0#+ " then FlagsFrom(fmt, i + 1, With(f, fmt[i])) else (f, i)
  {
  }

  lemma {:induction false} FlagsSince(fmt: string, i: nat, f: Flags)
    requires i <= |fmt|
    ensures var (fl, j) := FlagsFrom(fmt, i, f);
            && (forall k | i <= k < j :: fmt[k] in "-0#+ ") && (j < |fmt| ==> fmt[j] !in "-0#+ ")
            && Adds(fl, f, fmt[i..j])
    decreases |fmt| - i
  {
    hide FlagsFrom;
    OneFlag(fmt, i, f);
    if i < |fmt| && fmt[i] in "-0#+ " {
      hide With, Adds;
      FlagsSince(fmt, i + 1, With(f, fmt[i]));
      var (fl, j) := FlagsFrom(fmt, i, f);
      assert fmt[i..j] == [fmt[i]] + fmt[i + 1..j];
      AddsOne(fl, f, fmt[i], fmt[i + 1..j]);
    }
  }

  predicate Figure(c: char) {
    '0' <= c <= '9'
  }

  ghost predicate Figures(s: string) {
    forall k | 0 <= k < |s| :: Figure(s[k])
  }

  /** A text of decimal digits as a number. */
  function Decimal(s: string): nat
    requires forall k | 0 <= k < |s| :: Figure(s[k])
  {
    if s == "" then 0 else
      assert Figure(s[|s| - 1]);
      Decimal(s[..|s| - 1]) * 10 + (s[|s| - 1] as int - '0' as int)
  }

  /** A width or precision is the decimal number that stands there, 0 if there is none. */
  lemma LiteralLaw(fmt: string, i: nat)
    requires i <= |fmt|
    ensures var (v, j) := IntFrom(fmt, i, 0);
            && (forall k | i <= k < j :: Figure(fmt[k])) && (j < |fmt| ==> !Figure(fmt[j]))
            && v == Decimal(fmt[i..j])
  {
    assert fmt[i..i] == "";
    DecimalSince(fmt, i, i);
  }

  lemma DecimalMore(s: string, c: char)
    requires Figures(s) && Figure(c)
    ensures Decimal(s + [c]) == Decimal(s) * 10 + (c as int - '0' as int)
  {
    assert (s + [c])[..|s|] == s;
  }

  lemma {:induction false} DecimalSince(fmt: string, i: nat, m: nat)
    requires i <= m <= |fmt| && forall k | i <= k < m :: Figure(fmt[k])
    ensures var (v, j) := IntFrom(fmt, m, Decimal(fmt[i..m]));
            && m <= j && (forall k | i <= k < j :: Figure(fmt[k])) && (j < |fmt| ==> !Figure(fmt[j]))
            && v == Decimal(fmt[i..j])
    decreases |fmt| - m
  {
    hide Decimal;
    if m < |fmt| && Figure(fmt[m]) {
      DecimalMore(fmt[i..m], fmt[m]);
      assert fmt[i..m + 1] == fmt[i..m] + [fmt[m]];
      DecimalSince(fmt, i, m + 1);
    }
  }

  /** The length modifiers l, h and z are skipped, and nothing else is. */
  lemma {:induction false} LengthLaw(fmt: string, i: nat)
    requires i <= |fmt|
    ensures var j := LengthFrom(fmt, i);
            (forall k | i <= k < j :: fmt[k] in "lhz") && (j < |fmt| ==> fmt[j] !in "lhz")
    decreases |fmt| - i
  {
    if i < |fmt| && fmt[i] in "lhz" {
      LengthLaw(fmt, i + 1);
    }
  }

  ghost predicate AllIn(s: string, set_: string) {
    forall k | 0 <= k < |s| :: s[k] in set_
  }

  /** The parts of a conversion without `*`: flags, width, precision with its dot, length modifiers and the
      conversion character. */
  datatype Parts = Parts(flags: string, width: string, prec: string, mods: string, conv: char)

  function FormatOf(p: Parts): string {
    "%" + (p.flags + (p.width + (p.prec + (p.mods + [p.conv]))))
  }

  ghost predicate WellFormed(p: Parts) {
    && AllIn(p.flags, "-0#+ ") && Figures(p.width) && (p.width != "" ==> p.width[0] != '0')
    && (p.prec != "" ==> p.prec[0] == '.' && Figures(p.prec[1..])) && AllIn(p.mods, "lhz")
    && p.conv !in "-0#+ lhz.*" && !Figure(p.conv)
    && Decimal(p.width) <= 0x7fff_ffff && (p.prec != "" ==> Decimal(p.prec[1..]) <= 0x7fff_ffff)
  }

  /** s stands at i, and something follows it. */
  ghost predicate StandsAt(fmt: string, i: nat, s: string) {
    i + |s| < |fmt| && fmt[i..i + |s|] == s
  }

  lemma CharAt(fmt: string, i: nat, s: string, k: nat)
    requires StandsAt(fmt, i, s) && i <= k < i + |s|
    ensures fmt[k] in s
  {
    assert fmt[k] == fmt[i..i + |s|][k - i];
  }

  lemma FlagsRun(fmt: string, i: nat, s: string)
    requires StandsAt(fmt, i, s) && AllIn(s, "-0#+ ") && fmt[i + |s|] !in "-0#+ "
    ensures FlagsFrom(fmt, i, NO_FLAGS) == (Flags('-' in s, '0' in s, '#' in s, '+' in s, ' ' in s), i + |s|)
  {
    hide FlagsFrom;
    FlagsLaw(fmt, i);
    var j := FlagsFrom(fmt, i, NO_FLAGS).1;
    if j < i + |s| {
      CharAt(fmt, i, s, j);
    }
  }

  lemma NumberRun(fmt: string, i: nat, s: string)
    requires StandsAt(fmt, i, s) && Figures(s) && !Figure(fmt[i + |s|])
    ensures IntFrom(fmt, i, 0) == (Decimal(s), i + |s|)
  {
    hide IntFrom, Decimal, Figure;
    LiteralLaw(fmt, i);
    var j := IntFrom(fmt, i, 0).1;
    if j < i + |s| {
      CharAt(fmt, i, s, j);
    }
  }

  lemma LengthRun(fmt: string, i: nat, s: string)
    requires StandsAt(fmt, i, s) && AllIn(s, "lhz") && fmt[i + |s|] !in "lhz"
    ensures LengthFrom(fmt, i) == i + |s|
  {
    hide LengthFrom;
    LengthLaw(fmt, i);
    var j := LengthFrom(fmt, i);
    if j < i + |s| {
      CharAt(fmt, i, s, j);
    }
  }

  lemma WidthRead(fmt: string, i: nat, s: string, fl: Flags, args: seq<Arg>, a: nat)
    requires StandsAt(fmt, i, s) && Figures(s) && !Figure(fmt[i + |s|]) && fmt[i + |s|] != '*'
    requires Decimal(s) <= 0x7fff_ffff
    ensures WidthFrom(fmt, i, args, a, fl) == Some(Spec(fl, Decimal(s), -1, i + |s|, a))
  {
    hide IntFrom, Decimal;
    NumberRun(fmt, i, s);
    if s != "" {
      CharAt(fmt, i, s, i);
    }
  }

  lemma PrecisionRead(fmt: string, prec: string, s: Spec, args: seq<Arg>)
    requires StandsAt(fmt, s.next, prec) && !Figure(fmt[s.next + |prec|]) && fmt[s.next + |prec|] !in ".*"
    requires s.prec == -1
    requires prec != "" ==> prec[0] == '.' && Figures(prec[1..]) && Decimal(prec[1..]) <= 0x7fff_ffff
    ensures PrecFrom(fmt, s, args) ==
              Some(s.(prec := if prec == "" then -1 else Decimal(prec[1..]), next := s.next + |prec|))
  {
    hide IntFrom, Decimal;
    if prec != "" {
      var i, t := s.next + 1, prec[1..];
      assert fmt[s.next] == fmt[s.next..s.next + |prec|][0];
      assert fmt[i..i + |t|] == fmt[s.next..s.next + |prec|][1..];
      NumberRun(fmt, i, t);
      assert t != "" ==> fmt[i] == fmt[s.next..s.next + |prec|][1] == t[0];
    }
  }

  lemma Follows(fmt: string, pre: string, s: string, rest: string)
    requires fmt == pre + (s + rest) && rest != ""
    ensures StandsAt(fmt, |pre|, s) && |pre| + |s| < |fmt| && fmt[|pre| + |s|] == rest[0] && fmt == (pre + s) + rest
  {
  }

  function PrecisionOf(p: Parts): int
    requires WellFormed(p)
  {
    if p.prec == "" then -1 else Decimal(p.prec[1..])
  }

  ghost predicate SpecIs(p: Parts, s: Spec)
    requires WellFormed(p)
  {
    && s.fl == Flags('-' in p.flags, '0' in p.flags, '#' in p.flags, '+' in p.flags, ' ' in p.flags)
    && s.width == Decimal(p.width) && s.prec == PrecisionOf(p)
  }

  /** What follows a part does not look like more of it. */
  lemma NextChars(p: Parts, post: string)
    requires WellFormed(p)
    ensures var r3 := p.mods + ([p.conv] + post);
            var r2 := p.prec + r3;
            && (p.width + r2)[0] !in "-0#+ " && !Figure(r2[0]) && r2[0] != '*'
            && !Figure(r3[0]) && r3[0] !in ".*" && p.conv !in "lhz"
  {
    hide Decimal;
  }

  predicate NumberConv(c: char) {
    c in "diuxXop"
  }

  /** The conversion stands in fmt behind pre. */
  ghost predicate Stands(fmt: string, pre: string, p: Parts, post: string) {
    fmt == pre + (FormatOf(p) + post)
  }

  lemma Unfolded(fmt: string, pre: string, p: Parts, post: string)
    requires Stands(fmt, pre, p, post)
    ensures fmt == (pre + "%") + (p.flags + (p.width + (p.prec + (p.mods + ([p.conv] + post)))))
    ensures |FormatOf(p)| == 2 + |p.flags| + |p.width| + |p.prec| + |p.mods| && fmt[|pre|] == '%'
  {
    var rest := p.flags + (p.width + (p.prec + (p.mods + [p.conv])));
    assert rest + post == p.flags + (p.width + (p.prec + (p.mods + ([p.conv] + post))));
    assert fmt == pre + ("%" + (rest + post)) == (pre + "%") + (rest + post);
  }

  /** Where the parts stand: flags at i, width at w, precision at q, modifiers at m. */
  ghost predicate Placed(fmt: string, p: Parts, i: nat, w: nat, q: nat, m: nat) {
    && w == i + |p.flags| && q == w + |p.width| && m == q + |p.prec| && m + |p.mods| < |fmt|
    && StandsAt(fmt, i, p.flags) && StandsAt(fmt, w, p.width) && StandsAt(fmt, q, p.prec) && StandsAt(fmt, m, p.mods)
    && fmt[w] !in "-0#+ " && !Figure(fmt[q]) && fmt[q] != '*' && !Figure(fmt[m]) && fmt[m] !in ".*"
    && fmt[m + |p.mods|] !in "lhz" && fmt[m + |p.mods|] == p.conv
  }

  lemma PartsAt(fmt: string, pre: string, p: Parts, post: string) returns (w: nat, q: nat, m: nat)
    requires WellFormed(p) && Stands(fmt, pre, p, post)
    ensures Placed(fmt, p, |pre| + 1, w, q, m) && m + |p.mods| == |pre| + |FormatOf(p)| - 1 && fmt[|pre|] == '%'
  {
    NextChars(p, post);
    Shape(fmt, pre, p, post);
    hide WellFormed, StandsAt, Figure, FormatOf, Stands;
    w := |pre| + 1 + |p.flags|;
    q := w + |p.width|;
    m := q + |p.prec|;
  }

  lemma Shape(fmt: string, pre: string, p: Parts, post: string)
    requires Stands(fmt, pre, p, post)
    ensures var w := |pre| + 1 + |p.flags|;
            var q := w + |p.width|;
            var m := q + |p.prec|;
            var r3 := p.mods + ([p.conv] + post);
            var r2 := p.prec + r3;
            && StandsAt(fmt, |pre| + 1, p.flags) && StandsAt(fmt, w, p.width) && StandsAt(fmt, q, p.prec)
            && StandsAt(fmt, m, p.mods) && m + |p.mods| == |pre| + |FormatOf(p)| - 1 && m + |p.mods| < |fmt|
            && fmt[|pre|] == '%' && fmt[w] == (p.width + r2)[0] && fmt[q] == r2[0] && fmt[m] == r3[0]
            && fmt[m + |p.mods|] == p.conv
  {
    Unfolded(fmt, pre, p, post);
    hide StandsAt, FormatOf, Stands;
    FourParts(fmt, pre + "%", p.flags, p.width, p.prec, p.mods, [p.conv] + post);
  }

  lemma FourParts(fmt: string, pre: string, s: string, t: string, u: string, v: string, rest: string)
    requires fmt == pre + (s + (t + (u + (v + rest)))) && rest != ""
    ensures var w := |pre| + |s|;
            var q := w + |t|;
            var m := q + |u|;
            && StandsAt(fmt, |pre|, s) && StandsAt(fmt, w, t) && StandsAt(fmt, q, u) && StandsAt(fmt, m, v)
            && m + |v| < |fmt| && fmt[w] == (t + (u + (v + rest)))[0] && fmt[q] == (u + (v + rest))[0]
            && fmt[m] == (v + rest)[0] && fmt[m + |v|] == rest[0]
  {
    hide StandsAt;
    TwoParts(fmt, pre, s, t, u + (v + rest));
    TwoParts(fmt, pre + s + t, u, v, rest);
  }

  lemma TwoParts(fmt: string, pre: string, s: string, t: string, rest: string)
    requires fmt == pre + (s + (t + rest)) && rest != ""
    ensures var m := |pre| + |s|;
            && StandsAt(fmt, |pre|, s) && StandsAt(fmt, m, t) && m + |t| < |fmt|
            && fmt[m] == (t + rest)[0] && fmt[m + |t|] == rest[0] && fmt == (pre + s + t) + rest
  {
    hide StandsAt;
    Follows(fmt, pre, s, t + rest);
    Follows(fmt, pre + s, t, rest);
  }

  /** What is read between the % and the conversion character is what was written there. */
  lemma SpecLaw(fmt: string, pre: string, p: Parts, post: string, args: seq<Arg>, a: nat) returns (s: Spec)
    requires WellFormed(p) && Stands(fmt, pre, p, post)
    ensures |pre| < |fmt| && fmt[|pre|] == '%' && SpecFrom(fmt, |pre| + 1, args, a) == Some(s)
    ensures SpecIs(p, s) && s.next == |pre| + |FormatOf(p)| - 1 && fmt[s.next] == p.conv && s.arg == a
  {
    hide FlagsFrom, WidthFrom, PrecFrom, LengthFrom, Decimal, StandsAt, FormatOf, Stands;
    var i := |pre| + 1;
    var w, q, m := PartsAt(fmt, pre, p, post);
    FlagsRun(fmt, i, p.flags);
    var fl := FlagsFrom(fmt, i, NO_FLAGS).0;
    WidthRead(fmt, w, p.width, fl, args, a);
    PrecisionRead(fmt, p.prec, Spec(fl, Decimal(p.width), -1, q, a), args);
    LengthRun(fmt, m, p.mods);
    s := Spec(fl, Decimal(p.width), PrecisionOf(p), m + |p.mods|, a);
  }

  /** A star takes the next argument: a negative width means its size and `-`, a negative precision none. */
  lemma StarLaw(fmt: string, i: nat, args: seq<Arg>, a: nat, fl: Flags, s: Spec)
    requires i < |fmt| && fmt[i] == '*' && a < |args| && args[a].WordArg? && args[a].w != 0x8000_0000
    ensures var x: int := if args[a].w > 0x8000_0000 then args[a].w - 0x1_0000_0000 else args[a].w;
            && WidthFrom(fmt, i, args, a, fl) ==
                 Some(Spec(fl.(left := fl.left || x < 0), if x < 0 then -x else x, -1, i + 1, a + 1))
            && (i > 0 && fmt[i - 1] == '.' && s.next == i - 1 && s.arg == a ==>
                  PrecFrom(fmt, s, args) == Some(s.(prec := Max(x, -1), next := i + 1, arg := a + 1)))
  {
  }

  // ---------------------------------------------------------------- whole conversions

  /** The sign of %d and %i, the 0x of %p, and what # adds to a number other than 0. */
  function PrefixOf(p: Parts, w: Word): string {
    if p.conv == 'd' || p.conv == 'i' then
      if w >= 0x8000_0000 then "-" else if '+' in p.flags then "+" else if ' ' in p.flags then " " else ""
    else if p.conv == 'p' then "0x"
    else if '#' !in p.flags || w == 0 then ""
    else if p.conv == 'x' then "0x" else if p.conv == 'X' then "0X" else if p.conv == 'o' then "0" else ""
  }

  function DigitsOf(p: Parts, w: Word): string {
    if p.conv == 'd' || p.conv == 'i' then Digits(if w >= 0x8000_0000 then 0x1_0000_0000 - w else w, 10, false)
    else if p.conv == 'u' then Digits(w, 10, false)
    else if p.conv == 'o' then Digits(w, 8, false)
    else Digits(w, 16, p.conv == 'X')
  }

  /** How a number is laid out in its field. */
  function Field(p: Parts, w: Word): (t: string)
    requires WellFormed(p)
    ensures |t| == Max(Decimal(p.width), |PrefixOf(p, w)| + Max(PrecisionOf(p), |DigitsOf(p, w)|))
  {
    var prefix, digits, prec := PrefixOf(p, w), DigitsOf(p, w), PrecisionOf(p);
    var z := Max(prec, |digits|) - |digits|;
    var n := Max(Decimal(p.width) - |prefix| - z - |digits|, 0);
    if '-' in p.flags then prefix + Rep('0', z) + digits + Rep(' ', n)
    else if '0' in p.flags && prec < 0 then prefix + Rep('0', n) + digits
    else Rep(' ', n) + prefix + Rep('0', z) + digits
  }

  lemma FieldIs(p: Parts, s: Spec, w: Word)
    requires WellFormed(p) && SpecIs(p, s)
    ensures Numeric(s.fl, s.width, s.prec, PrefixOf(p, w), DigitsOf(p, w)) == Field(p, w)
    ensures s.prec >= 0 ==>
              Numeric(s.fl.(zero := false), s.width, s.prec, PrefixOf(p, w), DigitsOf(p, w)) == Field(p, w)
  {
    hide Numeric, PrefixOf, DigitsOf, Rep, Decimal, PrecisionOf;
    NumericLaw(s.fl.(zero := false), s.width, s.prec, PrefixOf(p, w), DigitsOf(p, w));
    NumericLaw(s.fl, s.width, s.prec, PrefixOf(p, w), DigitsOf(p, w));
  }

  lemma WordLaw(p: Parts, s: Spec, w: Word)
    requires WellFormed(p) && NumberConv(p.conv) && SpecIs(p, s)
    ensures WordText(s, p.conv, w) == Field(p, w)
  {
    hide Numeric, Digits, Decimal, Field;
    FieldIs(p, s, w);
  }

  /** A number conversion, wherever it stands in the format, prints its argument in its field; the rest of
      the format goes on with the next argument. */
  lemma NumberLaw(fmt: string, pre: string, p: Parts, post: string, args: seq<Arg>, a: nat, rest: string)
    requires WellFormed(p) && Stands(fmt, pre, p, post) && NumberConv(p.conv) && a < |args| && args[a].WordArg?
    requires |pre| + |FormatOf(p)| <= |fmt| && Expand(fmt, |pre| + |FormatOf(p)|, args, a + 1) == Some(rest)
    ensures Expand(fmt, |pre|, args, a) == Some(Field(p, args[a].w) + rest)
  {
    hide SpecFrom, Field, Expand, Stands, FormatOf, Convert, WellFormed, SpecIs, NumberConv, Decimal, PrefixOf,
         DigitsOf;
    var s := SpecLaw(fmt, pre, p, post, args, a);
    NumberConverts(p, s, args);
    OneConversion(fmt, |pre|, args, a, s, Field(p, args[a].w), a + 1, rest);
  }

  lemma NumberConverts(p: Parts, s: Spec, args: seq<Arg>)
    requires WellFormed(p) && SpecIs(p, s) && NumberConv(p.conv) && s.arg < |args| && args[s.arg].WordArg?
    ensures Convert(s, p.conv, args) == Some((Field(p, args[s.arg].w), s.arg + 1))
  {
    hide Field, Decimal, WordText;
    WordLaw(p, s, args[s.arg].w);
  }

  lemma OneConversion(fmt: string, i: nat, args: seq<Arg>, a: nat, s: Spec, text: string, next: nat, rest: string)
    requires i < |fmt| && fmt[i] == '%' && SpecFrom(fmt, i + 1, args, a) == Some(s)
    requires Convert(s, fmt[s.next], args) == Some((text, next)) && Expand(fmt, s.next + 1, args, next) == Some(rest)
    ensures Expand(fmt, i, args, a) == Some(text + rest)
  {
    hide SpecFrom, Convert;
  }

  /** A format that is one number conversion. */
  lemma NumberAlone(p: Parts, args: seq<Arg>)
    requires WellFormed(p) && NumberConv(p.conv) && |args| > 0 && args[0].WordArg?
    ensures Expand(FormatOf(p), 0, args, 0) == Some(Field(p, args[0].w))
  {
    hide Field, Decimal;
    var fmt := FormatOf(p);
    assert fmt == "" + (fmt + "");
    assert Expand(fmt, |fmt|, args, 1) == Some("");
    NumberLaw(fmt, "", p, "", args, 0, "");
    assert Field(p, args[0].w) + "" == Field(p, args[0].w);
  }

  /** What a string or character conversion shows: the string as far as the precision allows, (null) for no
      string, one character, or, for a character that is no conversion, that character behind a %. */
  function Shown(p: Parts, arg: Arg): string
    requires WellFormed(p)
  {
    if p.conv == 'c' && arg.WordArg? then [(arg.w % 256) as char]
    else if p.conv == 's' then
      var t := if arg.StrArg? then arg.s else "(null)";
      if PrecisionOf(p) < 0 then t else t[..Min(PrecisionOf(p), |t|)]
    else if p.conv == '%' then "%"
    else ['%', p.conv]
  }

  lemma TextLaw(fmt: string, pre: string, p: Parts, post: string, args: seq<Arg>, a: nat, rest: string)
    requires WellFormed(p) && Stands(fmt, pre, p, post) && !NumberConv(p.conv) && a < |args|
    requires (p.conv == 'c' ==> args[a].WordArg?) && (p.conv == 's' ==> !args[a].WordArg?)
    requires |pre| + |FormatOf(p)| <= |fmt|
    requires Expand(fmt, |pre| + |FormatOf(p)|, args, if p.conv in "cs" then a + 1 else a) == Some(rest)
    ensures var t := Shown(p, args[a]);
            var n := if p.conv in "cs" then Max(Decimal(p.width) - |t|, 0) else 0;
            Expand(fmt, |pre|, args, a) == Some((if '-' in p.flags then t + Rep(' ', n) else Rep(' ', n) + t) + rest)
  {
    hide SpecFrom, Expand, Stands, FormatOf, Convert, WellFormed, SpecIs, Shown, Rep, Decimal;
    var s := SpecLaw(fmt, pre, p, post, args, a);
    TextConverts(p, s, args);
    var c := Convert(s, p.conv, args).value;
    OneConversion(fmt, |pre|, args, a, s, c.0, c.1, rest);
  }

  lemma TextConverts(p: Parts, s: Spec, args: seq<Arg>)
    requires WellFormed(p) && SpecIs(p, s) && !NumberConv(p.conv) && s.arg < |args|
    requires (p.conv == 'c' ==> args[s.arg].WordArg?) && (p.conv == 's' ==> !args[s.arg].WordArg?)
    ensures var t := Shown(p, args[s.arg]);
            var n := if p.conv in "cs" then Max(Decimal(p.width) - |t|, 0) else 0;
            Convert(s, p.conv, args) ==
              Some((if '-' in p.flags then t + Rep(' ', n) else Rep(' ', n) + t,
                    if p.conv in "cs" then s.arg + 1 else s.arg))
  {
    hide Decimal, Justified, Clip, Rep, WellFormed, PrecisionOf;
    EmptyRep(Shown(p, args[s.arg]));
    if p.conv == 's' {
      StringConverts(p, s, args);
    } else {
      JustifiedLaw(s.fl, s.width, Shown(p, args[s.arg]));
    }
  }

  lemma StringConverts(p: Parts, s: Spec, args: seq<Arg>)
    requires WellFormed(p) && SpecIs(p, s) && p.conv == 's' && s.arg < |args| && !args[s.arg].WordArg?
    ensures var t := Shown(p, args[s.arg]);
            var n := Max(Decimal(p.width) - |t|, 0);
            Convert(s, 's', args) == Some((if '-' in p.flags then t + Rep(' ', n) else Rep(' ', n) + t, s.arg + 1))
  {
    hide Decimal, Justified, Clip, Rep, WellFormed, PrecisionOf;
    JustifiedLaw(s.fl, s.width, Shown(p, args[s.arg]));
    Clipped(if args[s.arg].StrArg? then args[s.arg].s else "(null)", s.prec);
  }

  lemma Clipped(t: string, prec: int)
    ensures Clip(t, prec) == if prec < 0 then t else t[..Min(prec, |t|)]
  {
    ClipLaw(t, prec);
    assert t[..|t|] == t;
  }

  lemma EmptyRep(t: string)
    ensures t + Rep(' ', 0) == t == Rep(' ', 0) + t
  {
  }

  /** A character other than % prints itself. */
  lemma PlainLaw(fmt: string, i: nat, args: seq<Arg>, a: nat, rest: string)
    requires i < |fmt| && fmt[i] != '%' && Expand(fmt, i + 1, args, a) == Some(rest)
    ensures Expand(fmt, i, args, a) == Some([fmt[i]] + rest)
  {
  }

  /** vsnprintf of one number: the value returned, what is stored, and where. */
  method PrintNumber(out: array<char>, cap: nat, p: Parts, args: seq<Arg>, ghost w: Word) returns (n: nat)
    requires WellFormed(p) && NumberConv(p.conv) && |args| > 0 && args[0] == WordArg(w) && cap <= out.Length
    requires |Field(p, w)| <= 0x7fff_ffff
    modifies out
    ensures n == Max(Decimal(p.width), |PrefixOf(p, w)| + Max(PrecisionOf(p), |DigitsOf(p, w)|))
    ensures cap > 0 ==> var m := Min(n, cap - 1); out[..m] == Field(p, w)[..m] && out[m] == 0 as char
    ensures forall k | 0 <= k < out.Length && (cap > 0 ==> k > Min(n, cap - 1)) :: out[k] == old(out[k])
  {
    hide Expand, Field, Decimal;
    NumberAlone(p, args);
    n := VsnPrintf(out, cap, FormatOf(p), args);
  }

  /** The minutes of a clock. */
  lemma PrintsMinutes(fmt: string, args: seq<Arg>)
    requires fmt == "%02u" && args == [WordArg(7)]
    ensures Expand(fmt, 0, args, 0) == Some("07")
  {
    hide Expand, Field;
    var p := Parts("0", "2", "", "", 'u');
    assert FormatOf(p) == fmt;
    NumberAlone(p, args);
    FieldFilled(p, 7);
  }

  lemma FieldFilled(p: Parts, w: Word)
    requires p == Parts("0", "2", "", "", 'u') && w == 7
    ensures WellFormed(p) && Field(p, w) == "07"
  {
    assert Field(p, w) == Rep('0', 1) + "7";
  }

  /** A number in a column of five. */
  lemma PrintsColumn(fmt: string, args: seq<Arg>)
    requires fmt == "%-5u" && args == [WordArg(42)]
    ensures Expand(fmt, 0, args, 0) == Some("42   ")
  {
    hide Expand, Field;
    var p := Parts("-", "5", "", "", 'u');
    assert FormatOf(p) == fmt;
    NumberAlone(p, args);
    ColumnFilled(p, 42);
  }

  lemma ColumnFilled(p: Parts, w: Word)
    requires p == Parts("-", "5", "", "", 'u') && w == 42
    ensures WellFormed(p) && Field(p, w) == "42   "
  {
    ColumnParts(p, w);
    hide Decimal, PrefixOf, DigitsOf, PrecisionOf;
    assert Field(p, w) == Rep('0', 0) + "42" + Rep(' ', 3);
  }

  lemma ColumnParts(p: Parts, w: Word)
    requires p == Parts("-", "5", "", "", 'u') && w == 42
    ensures WellFormed(p) && Decimal(p.width) == 5 && PrecisionOf(p) == -1
    ensures PrefixOf(p, w) == "" && DigitsOf(p, w) == "42"
  {
    assert Digits(42, 10, false) == "42";
  }
}
