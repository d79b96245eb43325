/** strtol and strtoul of lib/libstink.h, on NUL-terminated strings given without their NUL. */
module StrtolModel {

  const WORD := 0x1_0000_0000
  const INT_MAX := 0x7fff_ffff

  type Word = w: nat | w < WORD

  /** The int with the same 32 bits. */
  function Signed(w: Word): int {
    if w > INT_MAX then w - WORD else w
  }

  predicate IsSpace(c: char) {
    c == ' ' || '\t' <= c <= '\r'
  }

  /** The value of c as a digit in some base up to 36, or -1. */
  function DigitOf(c: char): int {
    if '0' <= c <= '9' then c as int - '0' as int
    else if 'a' <= c <= 'z' then c as int - 'a' as int + 10
    else if 'A' <= c <= 'Z' then c as int - 'A' as int + 10
    else -1
  }

  predicate IsDigit(c: char, base: nat) {
    0 <= DigitOf(c) < base
  }

  function SkipSpaces(s: string): string {
    if |s| > 0 && IsSpace(s[0]) then SkipSpaces(s[1..]) else s
  }

  /** How many characters at the start of s are digits. */
  function DigitRun(s: string, base: nat): (n: nat)
    ensures n <= |s| && forall i | 0 <= i < n :: IsDigit(s[i], base)
    ensures n < |s| ==> !IsDigit(s[n], base)
  {
    if |s| > 0 && IsDigit(s[0], base) then 1 + DigitRun(s[1..], base) else 0
  }

  /** One more digit behind a number. */
  function Shift(v: nat, base: nat, d: nat): nat {
    v * base + d
  }

  /** The number a string of digits denotes. */
  function Value(s: string, base: nat): nat
    requires forall i | 0 <= i < |s| :: IsDigit(s[i], base)
  {
    if |s| == 0 then 0
    else
      assert IsDigit(s[|s| - 1], base);
      var d: nat := DigitOf(s[|s| - 1]);
      Shift(Value(s[..|s| - 1], base), base, d)
  }

  predicate HasHexPrefix(s: string) {
    |s| >= 2 && s[0] == '0' && (s[1] == 'x' || s[1] == 'X')
  }

  /** The base that applies to s and the part of s behind the base prefix. */
  function ResolveBase(s: string, base: nat): (nat, string) {
    if base == 0 then
      if HasHexPrefix(s) then (16, s[2..])
      else if |s| > 0 && s[0] == '0' then (8, s[1..])
      else (10, s)
    else if base == 16 && HasHexPrefix(s) then (16, s[2..])
    else (base, s)
  }

  datatype Parse = Parse(value: Word, end: int)  // end: index of the first unconsumed character, -1 for NULL

  /** The digits at the start of s, in base b, as a 32-bit number. */
  function ParseDigits(s: string, b: nat, size: nat): Parse
    requires |s| <= size
  {
    var n := DigitRun(s, b);
    Parse(Value(s[..n], b) % WORD, if n == 0 then -1 else size - |s| + n)
  }

  function Strtoul(s: string, base: nat): Parse {
    SkipSpacesShortens(s);
    var t := SkipSpaces(s);
    if |t| > 0 && t[0] == '-' then Parse(0, |s| - |t|)
    else
      var u := if |t| > 0 && t[0] == '+' then t[1..] else t;
      var (b, d) := ResolveBase(u, base);
      ParseDigits(d, b, |s|)
  }

  /** The magnitude strtol reads, and whether a minus sign stood before it. */
  function Strtol(s: string, base: nat): (Parse, bool) {
    SkipSpacesShortens(s);
    var t := SkipSpaces(s);
    var u := if |t| > 0 && (t[0] == '-' || t[0] == '+') then t[1..] else t;
    var (b, d) := ResolveBase(u, base);
    (ParseDigits(d, b, |s|), |t| > 0 && t[0] == '-')
  }

  function StrtolValue(s: string, base: nat): int {
    var (p, minus) := Strtol(s, base);
    Signed(if minus then (WORD - p.value) % WORD else p.value)
  }

  lemma SkipSpacesShortens(s: string)
    ensures |SkipSpaces(s)| <= |s| && SkipSpaces(s) == s[|s| - |SkipSpaces(s)|..]
  {
    if |s| > 0 && IsSpace(s[0]) {
      SkipSpacesShortens(s[1..]);
    }
  }

  // ---------------------------------------------------------------- the loops

  method SkipSpacesFrom(s: string) returns (i: nat)
    ensures i <= |s| && s[i..] == SkipSpaces(s)
  {
    i := 0;
    while i < |s| && IsSpace(s[i])
      invariant i <= |s| && SkipSpaces(s[i..]) == SkipSpaces(s)
    {
      assert s[i..][1..] == s[i + 1..];
      i := i + 1;
    }
  }

  method SkipBasePrefix(s: string, i: nat, base: nat) returns (b: nat, j: nat)
    requires i <= |s|
    ensures j <= |s| && ResolveBase(s[i..], base) == (b, s[j..])
  {
    b, j := base, i;
    if base == 0 {
      if i + 1 < |s| && s[i] == '0' && (s[i + 1] == 'x' || s[i + 1] == 'X') {
        b, j := 16, i + 2;
      } else if i < |s| && s[i] == '0' {
        b, j := 8, i + 1;
      } else {
        b := 10;
      }
    } else if base == 16 && i + 1 < |s| && s[i] == '0' && (s[i + 1] == 'x' || s[i + 1] == 'X') {
      j := i + 2;
    }
  }

  lemma ValueNext(s: string, i: nat, n: nat, base: nat)
    requires i + n < |s| && forall k | i <= k <= i + n :: IsDigit(s[k], base)
    ensures Value(s[i..i + n + 1], base) == Value(s[i..i + n], base) * base + DigitOf(s[i + n])
  {
    assert s[i..i + n + 1][..n] == s[i..i + n];
  }

  lemma RunIs(s: string, n: nat, base: nat)
    requires n <= |s| && (forall i | 0 <= i < n :: IsDigit(s[i], base)) && (n < |s| ==> !IsDigit(s[n], base))
    ensures DigitRun(s, base) == n
  {
  }

  lemma ModStep(v: nat, b: nat, d: nat)
    ensures (v % WORD * b + d) % WORD == (v * b + d) % WORD
  {
    var q := v / WORD;
    assert v * b + d == (q * b) * WORD + (v % WORD * b + d) by {
      assert v == q * WORD + v % WORD;
      Distribute(q * WORD, v % WORD, b);
      assert q * WORD * b == q * b * WORD;
    }
    ModShift(v % WORD * b + d, q * b);
  }

  lemma Distribute(x: int, y: int, b: int)
    ensures (x + y) * b == x * b + y * b
  {
  }

  lemma ModShift(x: nat, k: nat)
    ensures (k * WORD + x) % WORD == x % WORD
  {
  }

  /** The accumulation loop shared by both parsers; val is a 32-bit unsigned value. */
  method ReadDigits(s: string, i: nat, b: nat) returns (val: Word, end: int)
    requires i <= |s|
    ensures Parse(val, end) == ParseDigits(s[i..], b, |s|)
  {
    hide Value, DigitOf;
    val := 0;
    var any, j := false, i;
    assert Value(s[i..i], b) == 0 by { ValueEmpty(s[i..i], b); }
    while j < |s|
      invariant i <= j <= |s| && any == (j > i)
      invariant forall k | i <= k < j :: IsDigit(s[k], b)
      invariant val == Value(s[i..j], b) % WORD
    {
      var d := DigitOf(s[j]);
      if d < 0 || d >= b { break; }
      ValueNext(s, i, j - i, b);
      ModStep(Value(s[i..j], b), b, d);
      val := (val * b + d) % WORD;
      any := true;
      j := j + 1;
    }
    RunIs(s[i..], j - i, b);
    assert s[i..][..j - i] == s[i..j];
    end := if any then j else -1;
  }

  lemma ValueEmpty(s: string, b: nat)
    requires |s| == 0
    ensures Value(s, b) == 0
  {
  }

  method StrtoulRun(s: string, base: nat) returns (val: Word, end: int)
    ensures Parse(val, end) == Strtoul(s, base)
  {
    hide ParseDigits, ResolveBase;
    var i := SkipSpacesFrom(s);
    if i < |s| && s[i] == '+' {
      i := i + 1;
    } else if i < |s| && s[i] == '-' {
      return 0, i;
    }
    var b, j := SkipBasePrefix(s, i, base);
    val, end := ReadDigits(s, j, b);
  }

  lemma Negated(v: Word)
    ensures (-1 * v) % WORD == (WORD - v) % WORD && (1 * v) % WORD == v
  {
  }

  method StrtolRun(s: string, base: nat) returns (v: int, end: int)
    ensures v == StrtolValue(s, base) && end == Strtol(s, base).0.end
  {
    hide ParseDigits, Signed, ResolveBase;
    var i := SkipSpacesFrom(s);
    var sign := 1;
    if i < |s| && s[i] == '-' {
      sign := -1;
      i := i + 1;
    } else if i < |s| && s[i] == '+' {
      i := i + 1;
    }
    var b, j := SkipBasePrefix(s, i, base);
    var val;
    val, end := ReadDigits(s, j, b);
    Negated(val);
    v := Signed((sign * val) % WORD);
  }
}
