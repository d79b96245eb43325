/** The text an edit session of apps/edit.c works on, seen flat: the lines joined by
    newlines, with the cursor as an offset into the result. */
module EditText {

  const MAX_LINES := 512
  const MAX_COL := 127

  const NUL := 0 as char

  /** What a line of the buffer may hold: at most MAX_COL characters, none of them a terminator or line break. */
  ghost predicate Line(s: string) {
    |s| <= MAX_COL && forall i | 0 <= i < |s| :: s[i] != NUL && s[i] != '\n' && s[i] != '\r'
  }

  ghost predicate Text(t: seq<string>) {
    1 <= |t| <= MAX_LINES && forall i | 0 <= i < |t| :: Line(t[i])
  }

  /** Every line followed by a newline. */
  function Ended(ls: seq<string>): string {
    if |ls| == 0 then "" else Ended(ls[..|ls| - 1]) + ls[|ls| - 1] + "\n"
  }

  /** The lines with newlines between them. */
  function Flat(t: seq<string>): string
    requires |t| > 0
  {
    Ended(t[..|t| - 1]) + t[|t| - 1]
  }

  /** The offset of column c of line r in the flat text. */
  function Offset(t: seq<string>, r: nat, c: nat): nat
    requires r < |t|
  {
    |Ended(t[..r])| + c
  }

  function Rest(ls: seq<string>): string {
    if |ls| == 0 then "" else "\n" + Flat(ls)
  }

  lemma EndedConcat(x: seq<string>, y: seq<string>)
    ensures Ended(x + y) == Ended(x) + Ended(y)
  {
    if |y| == 0 {
      assert x + y == x;
    } else {
      var i := |y| - 1;
      assert (x + y)[..|x| + i] == x + y[..i];
      EndedConcat(x, y[..i]);
      assert Ended(x) + Ended(y[..i]) + y[i] + "\n" == Ended(x) + (Ended(y[..i]) + y[i] + "\n");
    }
  }

  /** The flat text around line r. */
  lemma Around(t: seq<string>, r: nat)
    requires r < |t|
    ensures Flat(t) == Ended(t[..r]) + t[r] + Rest(t[r + 1..])
  {
    hide Ended;
    var n := |t| - 1;
    if r < n {
      var after := t[r + 1..];
      var mid := after[..n - r - 1];
      var head := t[..r] + [t[r]];
      assert t[..n] == head + mid;
      EndedConcat(head, mid);
      EndedSnoc(t[..r], t[r]);
      assert Rest(after) == "\n" + (Ended(mid) + t[n]) by {
        assert after[|after| - 1] == t[n];
        assert after[..|after| - 1] == mid;
      }
      Associate(Ended(t[..r]) + t[r], "\n", Ended(mid), t[n]);
    } else {
      assert Flat(t) + "" == Flat(t);
    }
  }

  lemma EndedSnoc(ls: seq<string>, s: string)
    ensures Ended(ls + [s]) == Ended(ls) + s + "\n"
  {
    assert (ls + [s])[..|ls|] == ls;
  }

  lemma Associate(a: string, b: string, c: string, d: string)
    ensures a + b + c + d == a + (b + (c + d))
  {
  }

  lemma EndedNext(t: seq<string>, r: nat)
    requires r < |t|
    ensures |Ended(t[..r + 1])| == |Ended(t[..r])| + |t[r]| + 1
  {
    assert t[..r + 1] == t[..r] + [t[r]];
    EndedSnoc(t[..r], t[r]);
  }

  /** The cursor is at the end of the text exactly when it is at the end of the last line. */
  lemma EndOfText(t: seq<string>, r: nat, c: nat)
    requires r < |t| && c <= |t[r]|
    ensures Offset(t, r, c) <= |Flat(t)|
    ensures Offset(t, r, c) == |Flat(t)| <==> r + 1 == |t| && c == |t[r]|
  {
    Around(t, r);
  }

  /** The flat text is the lines with a newline between any two. */
  lemma FlatLaw(s: string, t: seq<string>)
    ensures Flat([s] + t) == if t == [] then s else s + "\n" + Flat(t)
  {
    Around([s] + t, 0);
    assert ([s] + t)[..0] == [] && ([s] + t)[1..] == t;
    Associate("", s, "\n", if t == [] then "" else Flat(t));
  }

  /** The offset of a position is the length of the text in front of it. */
  lemma OffsetLaw(t: seq<string>, r: nat, c: nat)
    requires r < |t| && c <= |t[r]|
    ensures Offset(t, r, c) <= |Flat(t)| && Flat(t)[..Offset(t, r, c)] == Flat(t[..r] + [t[r][..c]])
  {
    Around(t, r);
    assert (t[..r] + [t[r][..c]])[..r] == t[..r];
  }

  lemma LineFits(t: seq<string>, r: nat)
    requires Text(t) && r < |t|
    ensures |t[r]| <= MAX_COL
  {
    assert Line(t[r]);
  }

  function Insert(s: string, i: nat, ch: char): string
    requires i <= |s|
  {
    s[..i] + [ch] + s[i..]
  }

  function Delete(s: string, i: nat): string
    requires i < |s|
  {
    s[..i] + s[i + 1..]
  }

  lemma InsertInside(a: string, l: string, b: string, c: nat, ch: char)
    requires c <= |l|
    ensures Insert(a + l + b, |a| + c, ch) == a + Insert(l, c, ch) + b
  {
  }

  lemma DeleteInside(a: string, l: string, b: string, c: nat)
    requires c < |l|
    ensures Delete(a + l + b, |a| + c) == a + Delete(l, c) + b
  {
  }

  lemma OffsetInFlat(t: seq<string>, r: nat, c: nat)
    requires r < |t| && c <= |t[r]|
    ensures Offset(t, r, c) <= |Flat(t)|
    ensures c < |t[r]| ==> Offset(t, r, c) < |Flat(t)| && Flat(t)[Offset(t, r, c)] == t[r][c]
  {
    hide Ended, Rest, Flat;
    Around(t, r);
  }

  /** buf_insert: one character appears at the cursor's offset, and the cursor moves past it. */
  lemma InsertIsSplice(t: seq<string>, r: nat, c: nat, ch: char)
    requires r < |t| && c <= |t[r]|
    ensures var t' := t[r := Insert(t[r], c, ch)];
            && Offset(t, r, c) <= |Flat(t)| && Flat(t') == Insert(Flat(t), Offset(t, r, c), ch)
            && Offset(t', r, c + 1) == Offset(t, r, c) + 1
  {
    hide Ended, Rest, Flat, Insert;
    var t' := t[r := Insert(t[r], c, ch)];
    OffsetInFlat(t, r, c);
    Around(t, r);
    Around(t', r);
    assert t'[..r] == t[..r] && t'[r + 1..] == t[r + 1..];
    InsertInside(Ended(t[..r]), t[r], Rest(t[r + 1..]), c, ch);
  }

  function Split(t: seq<string>, r: nat, c: nat): seq<string>
    requires r < |t| && c <= |t[r]|
  {
    t[..r] + [t[r][..c], t[r][c..]] + t[r + 1..]
  }

  lemma SplitIsText(t: seq<string>, r: nat, c: nat)
    requires Text(t) && |t| < MAX_LINES && r < |t| && c <= |t[r]|
    ensures Text(Split(t, r, c))
  {
    var t' := Split(t, r, c);
    forall i | 0 <= i < |t'| ensures Line(t'[i]) {
      assert Line(t[if i <= r then i else i - 1]);
    }
  }

  /** buf_enter: a newline appears at the cursor's offset, and the cursor moves past it. */
  lemma SplitIsSplice(t: seq<string>, r: nat, c: nat)
    requires r < |t| && c <= |t[r]|
    ensures Offset(t, r, c) <= |Flat(t)| && Flat(Split(t, r, c)) == Insert(Flat(t), Offset(t, r, c), '\n')
    ensures Offset(Split(t, r, c), r + 1, 0) == Offset(t, r, c) + 1
  {
    hide Ended, Rest, Flat;
    var t' := Split(t, r, c);
    var head, tail := t[r][..c], t[r][c..];
    OffsetInFlat(t, r, c);
    Around(t, r);
    Around(t', r + 1);
    assert t'[..r + 1] == t[..r] + [head] && t'[r + 2..] == t[r + 1..] && t'[r + 1] == tail;
    EndedSnoc(t[..r], head);
    InsertInside(Ended(t[..r]), t[r], Rest(t[r + 1..]), c, '\n');
    Regroup(Ended(t[..r]), head, "\n", tail, Rest(t[r + 1..]));
  }

  lemma Regroup(a: string, b: string, c: string, d: string, e: string)
    ensures a + b + c + d + e == a + (b + c + d) + e
  {
  }

  function Join(t: seq<string>, r: nat): seq<string>
    requires 0 < r < |t|
  {
    t[..r - 1] + [t[r - 1] + t[r]] + t[r + 1..]
  }

  /** Joining undoes splitting, and splitting where two lines were joined undoes joining. */
  lemma JoinSplit(t: seq<string>, r: nat, c: nat)
    requires r < |t| && c <= |t[r]|
    ensures Join(Split(t, r, c), r + 1) == t
  {
    assert t[r] == t[r][..c] + t[r][c..];
  }

  lemma SplitJoin(t: seq<string>, r: nat)
    requires 0 < r < |t|
    ensures Split(Join(t, r), r - 1, |t[r - 1]|) == t
  {
    var j := Join(t, r);
    assert j[r - 1][..|t[r - 1]|] == t[r - 1] && j[r - 1][|t[r - 1]|..] == t[r];
  }

  /** buf_backspace inside a line: exactly the character before the cursor goes. */
  lemma DeleteIsSplice(t: seq<string>, r: nat, c: nat)
    requires r < |t| && 0 < c <= |t[r]|
    ensures var t' := t[r := Delete(t[r], c - 1)];
            && Offset(t, r, c) <= |Flat(t)|
            && Flat(t') == Delete(Flat(t), Offset(t, r, c) - 1)
            && Offset(t', r, c - 1) == Offset(t, r, c) - 1
  {
    hide Ended, Rest, Flat, Delete;
    var t' := t[r := Delete(t[r], c - 1)];
    OffsetInFlat(t, r, c);
    Around(t, r);
    Around(t', r);
    assert t'[..r] == t[..r] && t'[r + 1..] == t[r + 1..];
    DeleteInside(Ended(t[..r]), t[r], Rest(t[r + 1..]), c - 1);
  }

  lemma DeleteInserted(s: string, i: nat, ch: char)
    requires i <= |s|
    ensures Delete(Insert(s, i, ch), i) == s && Insert(s, i, ch)[i] == ch
  {
  }

  /** buf_backspace at column 0: exactly the newline before the cursor goes. */
  lemma JoinIsSplice(t: seq<string>, r: nat)
    requires 0 < r < |t|
    ensures 0 < Offset(t, r, 0) <= |Flat(t)| && Flat(t)[Offset(t, r, 0) - 1] == '\n'
    ensures Flat(Join(t, r)) == Delete(Flat(t), Offset(t, r, 0) - 1)
    ensures Offset(Join(t, r), r - 1, |t[r - 1]|) == Offset(t, r, 0) - 1
  {
    hide Ended, Flat, Insert, Delete;
    var j, c := Join(t, r), |t[r - 1]|;
    SplitJoin(t, r);
    SplitIsSplice(j, r - 1, c);
    OffsetInFlat(t, r, 0);
    DeleteInserted(Flat(j), Offset(j, r - 1, c), '\n');
  }

  /** What buf_kill leaves when the cursor is at the end of line r. */
  function DropNext(t: seq<string>, r: nat): seq<string>
    requires r + 1 < |t|
  {
    t[..r + 1] + t[r + 2..]
  }

  /** At the end of a line, killing joins with the next line exactly when that line is empty:
      otherwise the next line's characters are lost. */
  lemma KillJoinsOnlyEmptyLines(t: seq<string>, r: nat)
    requires r + 1 < |t|
    ensures DropNext(t, r) == Join(t, r + 1) <==> t[r + 1] == ""
  {
    var d, j := DropNext(t, r), Join(t, r + 1);
    assert d[r] == t[r] && j[r] == t[r] + t[r + 1];
    if t[r + 1] == "" {
      assert t[r] + t[r + 1] == t[r];
    }
  }

  lemma KillLosesText()
    ensures DropNext(["a", "b"], 0) == ["a"] && Join(["a", "b"], 1) == ["ab"]
  {
    assert "a" + "b" == "ab";
  }

  // ------------------------------------------------------------ loading and saving

  /** load_file's view of a byte string: the finished lines and the line being filled. */
  function Scan(data: string): (seq<string>, string) {
    if |data| == 0 then ([], "")
    else
      var (ls, cur) := Scan(data[..|data| - 1]);
      var c := data[|data| - 1];
      if c == '\n' then (ls + [cur], "")
      else if c != '\r' && |cur| < MAX_COL then (ls, cur + [c])
      else (ls, cur)
  }

  lemma ScanChar(data: string, c: char)
    ensures var (ls, cur) := Scan(data);
            Scan(data + [c]) == if c == '\n' then (ls + [cur], "")
                                else if c != '\r' && |cur| < MAX_COL then (ls, cur + [c]) else (ls, cur)
  {
    assert (data + [c])[..|data|] == data;
  }

  lemma {:induction false} ScanLine(ls: seq<string>, s: string)
    requires Line(s) && Scan(Ended(ls)) == (ls, "")
    ensures Scan(Ended(ls) + s) == (ls, s)
  {
    hide Scan, Ended;
    var e := Ended(ls);
    if |s| == 0 {
      assert e + s == e;
    } else {
      var k := |s| - 1;
      ScanLine(ls, s[..k]);
      ScanChar(e + s[..k], s[k]);
      assert e + s == (e + s[..k]) + [s[k]];
      assert s == s[..k] + [s[k]];
    }
  }

  lemma ScanNewline(e: string)
    ensures Scan(e + "\n") == (Scan(e).0 + [Scan(e).1], "")
  {
    ScanChar(e, '\n');
  }

  lemma ScanOneMore(ls: seq<string>, s: string)
    requires Line(s) && Scan(Ended(ls)) == (ls, "")
    ensures Scan(Ended(ls + [s])) == (ls + [s], "")
  {
    hide Scan, Ended;
    EndedSnoc(ls, s);
    ScanLine(ls, s);
    ScanNewline(Ended(ls) + s);
  }

  lemma {:induction false} ScanEnded(ls: seq<string>)
    requires forall i | 0 <= i < |ls| :: Line(ls[i])
    ensures Scan(Ended(ls)) == (ls, "")
  {
    if |ls| > 0 {
      hide Scan, Ended;
      var k := |ls| - 1;
      ScanEnded(ls[..k]);
      ScanOneMore(ls[..k], ls[k]);
      assert ls == ls[..k] + [ls[k]];
    }
  }

  /** Reading back a flat text gives the lines it was made of. */
  lemma ScanFlat(t: seq<string>)
    requires Text(t)
    ensures Scan(Flat(t)) == (t[..|t| - 1], t[|t| - 1])
  {
    ScanEnded(t[..|t| - 1]);
    ScanLine(t[..|t| - 1], t[|t| - 1]);
  }

  /** The C string at the start of s. */
  function CStr(s: string): string {
    if |s| == 0 || s[0] == NUL then "" else [s[0]] + CStr(s[1..])
  }

  lemma CStrPrefix(s: string)
    ensures |CStr(s)| <= |s| && (|CStr(s)| < |s| ==> s[|CStr(s)|] == NUL)
    ensures forall i | 0 <= i < |CStr(s)| :: CStr(s)[i] == s[i] && s[i] != NUL
  {
    if |s| > 0 && s[0] != NUL {
      CStrPrefix(s[1..]);
    }
  }

  function CStrs(ls: seq<string>): seq<string> {
    if |ls| == 0 then [] else CStrs(ls[..|ls| - 1]) + [CStr(ls[|ls| - 1])]
  }

  lemma CStrsAt(ls: seq<string>, i: nat)
    requires i < |ls|
    ensures |CStrs(ls)| == |ls| && CStrs(ls)[i] == CStr(ls[i])
  {
    var k := |ls| - 1;
    if k > 0 {
      CStrsAt(ls[..k], if i < k then i else 0);
    }
  }

  lemma CStrOfLine(s: string)
    requires Line(s)
    ensures CStr(s) == s
  {
    CStrPrefix(s);
  }

  lemma CStrsNext(ls: seq<string>, s: string)
    ensures CStrs(ls + [s]) == CStrs(ls) + [CStr(s)]
  {
    assert (ls + [s])[..|ls|] == ls;
  }

  lemma {:induction false} CStrsOfText(ls: seq<string>)
    requires forall i | 0 <= i < |ls| :: Line(ls[i])
    ensures CStrs(ls) == ls
  {
    if |ls| > 0 {
      hide CStr, CStrs, Line;
      var k := |ls| - 1;
      CStrsOfText(ls[..k]);
      CStrOfLine(ls[k]);
      CStrsNext(ls[..k], ls[k]);
      assert ls == ls[..k] + [ls[k]];
    }
  }

  /** The text load_file makes of a file. */
  function Loaded(data: string): seq<string> {
    var (ls, cur) := Scan(data);
    CStrs(ls + [cur])
  }

  /** Every cell of the buffer is in use: the one case save_file's bound check cuts short. */
  ghost predicate Full(t: seq<string>) {
    |t| == MAX_LINES && forall i | 0 <= i < |t| :: |t[i]| == MAX_COL
  }

  /** What save_file writes. */
  ghost function Saved(t: seq<string>): string
    requires |t| > 0
  {
    if Full(t) then Ended(t[..|t| - 1]) else Flat(t)
  }

  lemma SavedIsFlat(t: seq<string>)
    requires |t| > 0
    ensures Saved(t) == if |t| == 512 && forall i | 0 <= i < 512 :: |t[i]| == 127
                        then Flat(t)[..|Flat(t)| - 127] else Flat(t)
  {
    if Full(t) {
      assert |t[|t| - 1]| == 127;
    }
  }

  lemma EndedBound(t: seq<string>, r: nat)
    requires Text(t) && r <= |t|
    ensures |Ended(t[..r])| <= (MAX_COL + 1) * r
    ensures |Ended(t[..r])| == (MAX_COL + 1) * r <==> forall i | 0 <= i < r :: |t[i]| == MAX_COL
  {
    if r > 0 {
      EndedBound(t, r - 1);
      LineFits(t, r - 1);
      EndedNext(t, r - 1);
    }
  }

  lemma LoadedEnded(t: seq<string>)
    requires Text(t)
    ensures Loaded(Ended(t[..|t| - 1])) == t[..|t| - 1] + [""]
  {
    var ls := t[..|t| - 1];
    ScanEnded(ls);
    CStrsOfText(ls + [""]);
  }

  /** Saving and loading gives the text back exactly when the buffer was not completely full. */
  lemma SaveLoad(t: seq<string>)
    requires Text(t)
    ensures Loaded(Saved(t)) == t <==> !Full(t)
  {
    var k := |t| - 1;
    if Full(t) {
      LoadedEnded(t);
      assert (t[..k] + [""])[k] == "" != t[k];
    } else {
      ScanFlat(t);
      assert t[..k] + [t[k]] == t;
      CStrsOfText(t);
    }
  }

  function Newlines(data: string): nat {
    if |data| == 0 then 0 else Newlines(data[..|data| - 1]) + if data[|data| - 1] == '\n' then 1 else 0
  }

  /** A line as load_file fills it: it may hold a NUL, but no line break. */
  ghost predicate RawLine(s: string) {
    |s| <= MAX_COL && forall i | 0 <= i < |s| :: s[i] != '\n' && s[i] != '\r'
  }

  lemma ScanLines(data: string)
    ensures |Scan(data).0| == Newlines(data) && RawLine(Scan(data).1)
    ensures forall i | 0 <= i < |Scan(data).0| :: RawLine(Scan(data).0[i])
  {
    if |data| > 0 {
      ScanLines(data[..|data| - 1]);
    }
  }

  lemma RawCStr(s: string)
    requires RawLine(s)
    ensures Line(CStr(s))
  {
    CStrPrefix(s);
  }

  lemma LoadedIsText(data: string)
    requires Newlines(data) < MAX_LINES
    ensures Text(Loaded(data))
  {
    hide Scan, CStr, Line, RawLine, Newlines, CStrs;
    ScanLines(data);
    var (ls, cur) := Scan(data);
    var raw := ls + [cur];
    CStrsAt(raw, 0);
    forall i | 0 <= i < |raw| ensures Line(Loaded(data)[i]) {
      CStrsAt(raw, i);
      RawCStr(raw[i]);
    }
  }

  lemma NewlinesGrow(data: string, i: nat)
    requires i <= |data|
    ensures Newlines(data[..i]) <= Newlines(data)
  {
    if i < |data| {
      NewlinesGrow(data[..|data| - 1], i);
      assert data[..|data| - 1][..i] == data[..i];
    } else {
      assert data[..i] == data;
    }
  }

  lemma ScanNext(data: string, i: nat)
    requires i < |data|
    ensures var (ls, cur) := Scan(data[..i]);
            Scan(data[..i + 1]) == if data[i] == '\n' then (ls + [cur], "")
                                   else if data[i] != '\r' && |cur| < MAX_COL then (ls, cur + [data[i]])
                                   else (ls, cur)
    ensures |Scan(data[..i]).0| <= Newlines(data) && |Scan(data[..i + 1]).0| <= Newlines(data)
    ensures |Scan(data[..i]).1| <= MAX_COL && |Scan(data[..i + 1]).1| <= MAX_COL
  {
    assert data[..i + 1][..i] == data[..i];
    ScanLines(data[..i]);
    ScanLines(data[..i + 1]);
    NewlinesGrow(data, i);
    NewlinesGrow(data, i + 1);
  }

  lemma ScanStart(data: string)
    ensures Scan(data[..0]) == ([], "") && CStrs([]) == []
  {
  }

  lemma LoadedLines(data: string)
    ensures Loaded(data) == CStrs(Scan(data).0) + [CStr(Scan(data).1)] && Scan(data[..|data|]) == Scan(data)
  {
    assert data[..|data|] == data;
    CStrsNext(Scan(data).0, Scan(data).1);
  }

  lemma LoadedEmpty()
    ensures Loaded("") == [""]
  {
    assert CStrs([""]) == CStrs([]) + [""];
  }

  /** What the I/O buffer holds before line r is written. */
  ghost function SavedTo(t: seq<string>, r: nat): string
    requires 0 < |t| && r <= |t|
  {
    if r < |t| then Ended(t[..r]) else Flat(t)
  }

  lemma SavedStart(t: seq<string>)
    requires |t| > 0
    ensures SavedTo(t, 0) == ""
  {
    assert t[..0] == [];
  }

  /** The bound check of save_file stops the loop only before the last line of a full buffer. */
  lemma SavedNext(t: seq<string>, r: nat)
    requires Text(t) && r < |t|
    ensures SavedTo(t, r + 1) == SavedTo(t, r) + t[r] + (if r + 1 < |t| then "\n" else "")
    ensures |SavedTo(t, r)| + |t[r]| + 2 > 65536 <==> r + 1 == |t| && Full(t)
    ensures Saved(t) == if Full(t) then SavedTo(t, |t| - 1) else SavedTo(t, |t|)
  {
    EndedBound(t, r);
    LineFits(t, r);
    EndedSnoc(t[..r], t[r]);
    assert t[..r + 1] == t[..r] + [t[r]];
  }
}
