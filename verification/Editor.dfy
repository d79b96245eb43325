/** The editor buffer of apps/edit.c: fixed 512 x 128 rows of NUL-terminated lines, changed in
    place by shifting loops, as a refinement of the text in EditText. */
module EditorModel {
  import opened Common
  import opened EditText

  const EDIT_ROWS := 94
  const WIDTH := MAX_COL + 1
  const IO_BYTES := 65536

  const KEY_UP := 28
  const KEY_DOWN := 29
  const KEY_LEFT := 30
  const KEY_RIGHT := 31
  const KEY_HOME := -6
  const KEY_END := -5
  const KEY_PGUP := -4
  const KEY_PGDN := -3
  const KEY_CTRL_A := 1
  const KEY_CTRL_E := 5
  const KEY_CTRL_K := 11
  const KEY_CTRL_Q := 17
  const KEY_CTRL_S := 19
  const KEY_CTRL_X := 24

  class Editor {
    const lines: array2<char>
    var nlines: int
    var cur_r: int
    var cur_c: int
    var top_r: int
    var modified: bool
    ghost var text: seq<string>

    /** Row r holds the C string s. */
    ghost predicate RowIs(r: int, s: string)
      reads lines
      requires lines.Length0 == MAX_LINES && lines.Length1 == WIDTH && 0 <= r < MAX_LINES
    {
      && |s| <= MAX_COL && lines[r, |s|] == NUL
      && forall c | 0 <= c < |s| :: lines[r, c] == s[c] && s[c] != NUL
    }

    ghost predicate Buffer()
      reads this`nlines, this`text, lines
    {
      && lines.Length0 == MAX_LINES && lines.Length1 == WIDTH
      && Text(text) && nlines == |text|
      && forall r | 0 <= r < nlines :: RowIs(r, text[r])
    }

    ghost predicate Cursor()
      reads this
    {
      0 <= cur_r < |text| && 0 <= cur_c <= |text[cur_r]| && 0 <= top_r
    }

    /** The cursor as an offset into the flat text. */
    ghost function Here(): nat
      reads this
      requires Cursor()
    {
      Offset(text, cur_r, cur_c)
    }

    ghost predicate Visible()
      reads this
    {
      top_r <= cur_r < top_r + EDIT_ROWS
    }

    ghost predicate Valid()
      reads this, lines
    {
      Buffer() && Cursor()
    }

    // ------------------------------------------------------------- string.h

    method LineLen(r: int) returns (n: int)
      requires Buffer() && 0 <= r < nlines
      ensures n == |text[r]|
    {
      n := 0;
      while lines[r, n] != NUL
        invariant 0 <= n <= |text[r]|
        decreases |text[r]| - n
      {
        n := n + 1;
      }
    }

    /** memmove within one row, copying in the direction that reads every cell before overwriting it. */
    method RowMemMove(r: int, dst: int, src: int, n: int)
      requires 0 <= r < lines.Length0 && 0 <= n && 0 <= dst && 0 <= src
      requires dst + n <= lines.Length1 && src + n <= lines.Length1
      modifies lines
      ensures forall c | dst <= c < dst + n :: lines[r, c] == old(lines[r, c - dst + src])
      ensures forall i, c | 0 <= i < lines.Length0 && 0 <= c < lines.Length1 && !(i == r && dst <= c < dst + n) ::
                lines[i, c] == old(lines[i, c])
    {
      if dst == src || n == 0 { return; }
      if dst < src {
        for k := 0 to n
          invariant forall c | dst <= c < dst + k :: lines[r, c] == old(lines[r, c - dst + src])
          invariant forall i, c | 0 <= i < lines.Length0 && 0 <= c < lines.Length1 && !(i == r && dst <= c < dst + k) ::
                      lines[i, c] == old(lines[i, c])
        {
          lines[r, dst + k] := lines[r, src + k];
        }
      } else {
        for k := n downto 0
          invariant forall c | dst + k <= c < dst + n :: lines[r, c] == old(lines[r, c - dst + src])
          invariant forall i, c | 0 <= i < lines.Length0 && 0 <= c < lines.Length1
                    && !(i == r && dst + k <= c < dst + n) ::
                      lines[i, c] == old(lines[i, c])
        {
          lines[r, dst + k] := lines[r, src + k];
        }
      }
    }

    /** memcpy from one row into another. */
    method RowMemCpy(to: int, dst: int, from: int, src: int, n: int)
      requires 0 <= to < lines.Length0 && 0 <= from < lines.Length0 && to != from && 0 <= n && 0 <= dst && 0 <= src
      requires dst + n <= lines.Length1 && src + n <= lines.Length1
      modifies lines
      ensures forall c | dst <= c < dst + n :: lines[to, c] == old(lines[from, c - dst + src])
      ensures forall i, c | 0 <= i < lines.Length0 && 0 <= c < lines.Length1 && !(i == to && dst <= c < dst + n) ::
                lines[i, c] == old(lines[i, c])
    {
      for k := 0 to n
        invariant forall c | dst <= c < dst + k :: lines[to, c] == old(lines[from, c - dst + src])
        invariant forall i, c | 0 <= i < lines.Length0 && 0 <= c < lines.Length1 && !(i == to && dst <= c < dst + k) ::
                    lines[i, c] == old(lines[i, c])
      {
        lines[to, dst + k] := lines[from, src + k];
      }
    }

    method RowClear(r: int)
      requires 0 <= r < lines.Length0
      modifies lines
      ensures forall i, c | 0 <= i < lines.Length0 && 0 <= c < lines.Length1 ::
                lines[i, c] == if i == r then NUL else old(lines[i, c])
    {
      for k := 0 to lines.Length1
        invariant forall i, c | 0 <= i < lines.Length0 && 0 <= c < lines.Length1 ::
                    lines[i, c] == if i == r && c < k then NUL else old(lines[i, c])
      {
        lines[r, k] := NUL;
      }
    }

    // ------------------------------------------------------------ view and cursor

    method ClampCol()
      requires Buffer() && 0 <= cur_r < nlines && 0 <= cur_c && 0 <= top_r
      modifies this`cur_c
      ensures Valid() && cur_c == if old(cur_c) > |text[cur_r]| then |text[cur_r]| else old(cur_c)
    {
      var len := LineLen(cur_r);
      if cur_c > len {
        cur_c := len;
      }
    }

    method ScrollIntoView()
      requires 0 <= cur_r && 0 <= top_r
      modifies this`top_r
      ensures 0 <= top_r && Visible() && (old(Visible()) ==> top_r == old(top_r))
    {
      if cur_r < top_r {
        top_r := cur_r;
      }
      if cur_r >= top_r + EDIT_ROWS {
        top_r := cur_r - EDIT_ROWS + 1;
      }
    }

    // ---------------------------------------------------------------- editing

    method BufInsert(c: int, ch: char)
      requires Valid() && 0 <= c <= |text[cur_r]| && ch != NUL && ch != '\n' && ch != '\r'
      modifies this`cur_c, this`modified, this`text, lines
      ensures Buffer()
      ensures if |old(text)[cur_r]| >= MAX_COL
              then text == old(text) && cur_c == old(cur_c) && modified == old(modified)
              else text == old(text)[cur_r := Insert(old(text)[cur_r], c, ch)] && cur_c == old(cur_c) + 1 && modified
    {
      var len := LineLen(cur_r);
      if len >= MAX_COL { return; }
      RowMemMove(cur_r, c + 1, c, len - c + 1);
      lines[cur_r, c] := ch;
      cur_c := cur_c + 1;
      modified := true;
      text := text[cur_r := Insert(text[cur_r], c, ch)];
    }

    method BufBackspace()
      requires Valid()
      modifies this`nlines, this`cur_r, this`cur_c, this`top_r, this`modified, this`text, lines
      ensures Valid() && (old(Visible()) ==> Visible())
      ensures if old(cur_c) > 0 then
                && text == old(text)[old(cur_r) := Delete(old(text)[old(cur_r)], old(cur_c) - 1)]
                && cur_r == old(cur_r) && cur_c == old(cur_c) - 1 && modified
              else if old(cur_r) > 0 && |old(text)[old(cur_r) - 1]| + |old(text)[old(cur_r)]| <= MAX_COL then
                && text == Join(old(text), old(cur_r))
                && cur_r == old(cur_r) - 1 && cur_c == |old(text)[cur_r]| && modified
              else
                text == old(text) && cur_r == old(cur_r) && cur_c == old(cur_c) && modified == old(modified)
    {
      if cur_c > 0 {
        EraseBefore();
        cur_c := cur_c - 1;
        modified := true;
      } else if cur_r > 0 {
        var prev_len := LineLen(cur_r - 1);
        var this_len := LineLen(cur_r);
        if prev_len + this_len <= MAX_COL {
          JoinRows(prev_len, this_len);
          cur_r := cur_r - 1;
          cur_c := prev_len;
          modified := true;
          ScrollIntoView();
        }
      }
    }

    method EraseBefore()
      requires Valid() && 0 < cur_c
      modifies this`text, lines
      ensures Buffer() && text == old(text)[cur_r := Delete(old(text)[cur_r], cur_c - 1)]
    {
      var len := LineLen(cur_r);
      RowMemMove(cur_r, cur_c - 1, cur_c, len - cur_c + 1);
      text := text[cur_r := Delete(text[cur_r], cur_c - 1)];
    }

    /** The rows after r move up one row; the last one is cleared. */
    method RemoveRow(r: int)
      requires lines.Length0 == MAX_LINES && lines.Length1 == WIDTH && 0 <= r < nlines <= MAX_LINES
      modifies this`nlines, lines
      ensures nlines == old(nlines) - 1
      ensures forall i, c | 0 <= i < r && 0 <= c < WIDTH :: lines[i, c] == old(lines[i, c])
      ensures forall i, c | r <= i < nlines && 0 <= c < WIDTH :: lines[i, c] == old(lines[i + 1, c])
    {
      for i := r to nlines - 1
        invariant nlines == old(nlines)
        invariant forall k, c | 0 <= k < r && 0 <= c < WIDTH :: lines[k, c] == old(lines[k, c])
        invariant forall k, c | r <= k < i && 0 <= c < WIDTH :: lines[k, c] == old(lines[k + 1, c])
        invariant forall k, c | i <= k < nlines && 0 <= c < WIDTH :: lines[k, c] == old(lines[k, c])
      {
        RowMemCpy(i, 0, i + 1, 0, WIDTH);
      }
      RowClear(nlines - 1);
      nlines := nlines - 1;
    }

    method JoinRows(prev_len: int, this_len: int)
      requires Valid() && 0 < cur_r && prev_len == |text[cur_r - 1]| && this_len == |text[cur_r]|
      requires prev_len + this_len <= MAX_COL
      modifies this`nlines, this`text, lines
      ensures Buffer() && text == Join(old(text), cur_r)
    {
      RowMemCpy(cur_r - 1, prev_len, cur_r, 0, this_len + 1);
      ghost var joined := text[cur_r - 1] + text[cur_r];
      assert RowIs(cur_r - 1, joined);
      RemoveRow(cur_r);
      text := Join(text, cur_r);
    }

    method BufEnter()
      requires Valid()
      modifies this`nlines, this`cur_r, this`cur_c, this`top_r, this`modified, this`text, lines
      ensures Valid() && (old(Visible()) ==> Visible())
      ensures if |old(text)| >= MAX_LINES
              then text == old(text) && cur_r == old(cur_r) && cur_c == old(cur_c) && modified == old(modified)
              else text == Split(old(text), old(cur_r), old(cur_c)) && cur_r == old(cur_r) + 1 && cur_c == 0 && modified
    {
      if nlines >= MAX_LINES { return; }
      var len := LineLen(cur_r);
      SplitRows(len);
      cur_r := cur_r + 1;
      cur_c := 0;
      modified := true;
      ScrollIntoView();
    }

    method SplitRows(len: int)
      requires Valid() && nlines < MAX_LINES && len == |text[cur_r]|
      modifies this`nlines, this`text, lines
      ensures Buffer() && text == Split(old(text), cur_r, cur_c)
    {
      hide Text, Line;
      SplitIsText(text, cur_r, cur_c);
      OpenRow(cur_r + 1);
      RowMemCpy(cur_r + 1, 0, cur_r, cur_c, len - cur_c + 1);
      lines[cur_r, cur_c] := NUL;
      text := Split(text, cur_r, cur_c);
      assert RowIs(cur_r, text[cur_r]) && RowIs(cur_r + 1, text[cur_r + 1]);
      forall r | 0 <= r < nlines && r != cur_r && r != cur_r + 1 ensures RowIs(r, text[r]) {
        var o := if r < cur_r then r else r - 1;
        assert text[r] == old(text)[o] && old(RowIs(o, text[o]));
      }
    }

    /** Rows from r on move down one row. */
    method OpenRow(r: int)
      requires lines.Length0 == MAX_LINES && lines.Length1 == WIDTH && 0 < r <= nlines < MAX_LINES
      modifies this`nlines, lines
      ensures nlines == old(nlines) + 1
      ensures forall i, c | 0 <= i < r && 0 <= c < WIDTH :: lines[i, c] == old(lines[i, c])
      ensures forall i, c | r < i < nlines && 0 <= c < WIDTH :: lines[i, c] == old(lines[i - 1, c])
    {
      for i := nlines downto r
        invariant nlines == old(nlines)
        invariant forall k, c | 0 <= k <= i && 0 <= c < WIDTH :: lines[k, c] == old(lines[k, c])
        invariant forall k, c | i < k <= nlines && 0 <= c < WIDTH :: lines[k, c] == old(lines[k - 1, c])
      {
        RowMemCpy(i + 1, 0, i, 0, WIDTH);
      }
      nlines := nlines + 1;
    }

    method BufKill()
      requires Valid()
      modifies this`nlines, this`modified, this`text, lines
      ensures Valid()
      ensures if cur_c < |old(text)[cur_r]| then text == old(text)[cur_r := old(text)[cur_r][..cur_c]] && modified
              else if cur_r + 1 < |old(text)| then text == DropNext(old(text), cur_r) && modified
              else text == old(text) && modified == old(modified)
    {
      var len := LineLen(cur_r);
      if cur_c < len {
        lines[cur_r, cur_c] := NUL;
        text := text[cur_r := text[cur_r][..cur_c]];
        modified := true;
      } else if cur_r < nlines - 1 {
        RemoveRow(cur_r + 1);
        text := DropNext(text, cur_r);
        modified := true;
      }
    }

    // ------------------------------------------- the same operations, on the flat text

    /** Typing a character inserts it at the cursor, or does nothing when the line is full. */
    method Type(ch: char)
      requires Valid() && Visible() && ch != NUL && ch != '\n' && ch != '\r'
      modifies this`cur_c, this`modified, this`text, lines
      ensures Valid() && Visible()
      ensures |old(text)[cur_r]| < 127 ==> modified && Spliced(old(Flat(text)), old(Here()), [ch])
      ensures |old(text)[cur_r]| >= 127 ==> text == old(text) && Here() == old(Here()) && modified == old(modified)
    {
      hide RowIs, Text, Flat;
      InsertIsSplice(text, cur_r, cur_c, ch);
      BufInsert(cur_c, ch);
    }

    /** The text is s with `more` inserted at the old offset, and the cursor stands behind it. */
    ghost predicate Spliced(s: string, here: nat, more: string)
      reads this
    {
      Cursor() && here <= |s| && Flat(text) == s[..here] + more + s[here..] && Here() == here + |more|
    }

    /** Enter inserts a newline at the cursor, or does nothing when all lines are in use. */
    method Enter()
      requires Valid() && Visible()
      modifies this`nlines, this`cur_r, this`cur_c, this`top_r, this`modified, this`text, lines
      ensures Valid() && Visible()
      ensures |old(text)| < 512 ==> modified && Spliced(old(Flat(text)), old(Here()), "\n")
      ensures |old(text)| >= 512 ==> text == old(text) && Here() == old(Here()) && modified == old(modified)
    {
      hide RowIs, Text, Flat;
      SplitIsSplice(text, cur_r, cur_c);
      BufEnter();
    }

    /** Nothing is before the cursor, or a line break between two lines that do not fit in one. */
    ghost predicate CannotErase()
      reads this
      requires Cursor()
    {
      Here() == 0 || (cur_c == 0 && cur_r > 0 && |text[cur_r - 1]| + |text[cur_r]| > 127)
    }

    /** The text is s without the character before the old offset, where the cursor is now. */
    ghost predicate Erased(s: string, here: nat)
      reads this
    {
      Cursor() && 0 < here <= |s| && Flat(text) == s[..here - 1] + s[here..] && Here() == here - 1
    }

    /** Backspace deletes exactly the character before the cursor, or does nothing where it cannot. */
    method Backspace()
      requires Valid() && Visible()
      modifies this`nlines, this`cur_r, this`cur_c, this`top_r, this`modified, this`text, lines
      ensures Valid() && Visible()
      ensures old(CannotErase()) ==> text == old(text) && Here() == old(Here()) && modified == old(modified)
      ensures !old(CannotErase()) ==> modified && Erased(old(Flat(text)), old(Here()))
    {
      hide RowIs, Text, Flat;
      if cur_c > 0 {
        DeleteIsSplice(text, cur_r, cur_c);
      } else if cur_r > 0 {
        JoinIsSplice(text, cur_r);
      } else {
        assert text[..0] == [];
      }
      BufBackspace();
      ScrollIntoView();
    }

    /** A successful enter followed by backspace is the identity on text and cursor. */
    method EnterThenBackspace()
      requires Valid() && Visible() && |text| < MAX_LINES
      modifies this`nlines, this`cur_r, this`cur_c, this`top_r, this`modified, this`text, lines
      ensures Valid() && text == old(text) && cur_r == old(cur_r) && cur_c == old(cur_c)
    {
      hide RowIs, Text;
      ghost var t, r, c := text, cur_r, cur_c;
      LineFits(t, r);
      BufEnter();
      JoinSplit(t, r, c);
      BufBackspace();
    }

    // ------------------------------------------------------------ moving the cursor

    method Up()
      requires Valid() && Visible()
      modifies this`cur_r, this`cur_c, this`top_r
      ensures Valid() && Visible()
      ensures cur_r == Max(old(cur_r) - 1, 0) && cur_c == Min(old(cur_c), |text[cur_r]|)
    {
      if cur_r > 0 {
        cur_r := cur_r - 1;
        ClampCol();
      }
      ScrollIntoView();
    }

    method Down()
      requires Valid() && Visible()
      modifies this`cur_r, this`cur_c, this`top_r
      ensures Valid() && Visible()
      ensures cur_r == Min(old(cur_r) + 1, |text| - 1) && cur_c == Min(old(cur_c), |text[cur_r]|)
    {
      if cur_r < nlines - 1 {
        cur_r := cur_r + 1;
        ClampCol();
      }
      ScrollIntoView();
    }

    /** Left moves the offset back by one, wherever the cursor is. */
    method Left()
      requires Valid() && Visible()
      modifies this`cur_r, this`cur_c, this`top_r
      ensures Valid() && Visible() && Here() == Max(old(Here()) - 1, 0)
    {
      hide RowIs, Text;
      if cur_c > 0 {
        cur_c := cur_c - 1;
      } else if cur_r > 0 {
        EndedNext(text, cur_r - 1);
        cur_r := cur_r - 1;
        cur_c := LineLen(cur_r);
        ScrollIntoView();
      } else {
        assert text[..0] == [];
      }
    }

    /** Right moves the offset on by one, up to the end of the text. */
    method Right()
      requires Valid() && Visible()
      modifies this`cur_r, this`cur_c, this`top_r
      ensures Valid() && Visible() && Here() == Min(old(Here()) + 1, |Flat(text)|)
    {
      hide RowIs, Text, Flat;
      var len := LineLen(cur_r);
      EndOfText(text, cur_r, cur_c);
      if cur_c < len {
        cur_c := cur_c + 1;
      } else if cur_r < nlines - 1 {
        EndedNext(text, cur_r);
        cur_r := cur_r + 1;
        cur_c := 0;
        ScrollIntoView();
      }
    }

    method Home()
      requires Valid() && Visible()
      modifies this`cur_c
      ensures Valid() && Visible()
      ensures cur_r == old(cur_r) && cur_c == 0
    {
      cur_c := 0;
    }

    method EndKey()
      requires Valid() && Visible()
      modifies this`cur_c
      ensures Valid() && Visible()
      ensures cur_r == old(cur_r) && cur_c == |text[cur_r]|
    {
      cur_c := LineLen(cur_r);
    }

    method PageUp()
      requires Valid() && Visible()
      modifies this`cur_r, this`cur_c, this`top_r
      ensures Valid() && Visible()
      ensures cur_r == Max(old(cur_r) - 94, 0) && cur_c == Min(old(cur_c), |text[cur_r]|)
    {
      cur_r := cur_r - EDIT_ROWS;
      if cur_r < 0 {
        cur_r := 0;
      }
      ClampCol();
      ScrollIntoView();
    }

    method PageDown()
      requires Valid() && Visible()
      modifies this`cur_r, this`cur_c, this`top_r
      ensures Valid() && Visible()
      ensures cur_r == Min(old(cur_r) + 94, |text| - 1) && cur_c == Min(old(cur_c), |text[cur_r]|)
    {
      cur_r := cur_r + EDIT_ROWS;
      if cur_r >= nlines {
        cur_r := nlines - 1;
      }
      ClampCol();
      ScrollIntoView();
    }

    // ------------------------------------------------------------------ file I/O

    /** sys_fread delivered `data`; an empty or failed read gives one empty line. */
    method LoadFile(data: string)
      requires lines.Length0 == MAX_LINES && lines.Length1 == WIDTH
      requires |data| < IO_BYTES && Newlines(data) < MAX_LINES
      modifies this`nlines, this`text, lines
      ensures Buffer() && text == Loaded(data)
    {
      hide Newlines, CStr, Line, RawLine, Scan, CStrs, Loaded;
      LoadedIsText(data);
      if |data| == 0 {
        nlines := 1;
        RowClear(0);
        text := [""];
        LoadedEmpty();
        return;
      }
      nlines := 0;
      var col := 0;
      text := [];
      ScanStart(data);
      for i := 0 to |data|
        invariant nlines == |Scan(data[..i]).0| < MAX_LINES && col == |Scan(data[..i]).1| <= MAX_COL
        invariant text == CStrs(Scan(data[..i]).0) && |text| == nlines
        invariant forall r | 0 <= r < nlines :: RowIs(r, text[r])
        invariant forall c | 0 <= c < col :: lines[nlines, c] == Scan(data[..i]).1[c]
      {
        ghost var ls, cur := Scan(data[..i]).0, Scan(data[..i]).1;
        ScanNext(data, i);
        var c := data[i];
        if c == '\n' {
          lines[nlines, col] := NUL;
          FilledRow(nlines, cur);
          text := text + [CStr(cur)];
          CStrsNext(ls, cur);
          nlines := nlines + 1;
          col := 0;
        } else if c != '\r' && col < MAX_COL {
          lines[nlines, col] := c;
          col := col + 1;
        }
      }
      LoadedLines(data);
      lines[nlines, col] := NUL;
      FilledRow(nlines, Scan(data).1);
      text := text + [CStr(Scan(data).1)];
      nlines := nlines + 1;
    }

    lemma FilledRow(r: int, s: string)
      requires lines.Length0 == MAX_LINES && lines.Length1 == WIDTH && 0 <= r < MAX_LINES && |s| <= MAX_COL
      requires lines[r, |s|] == NUL && forall c | 0 <= c < |s| :: lines[r, c] == s[c]
      ensures RowIs(r, CStr(s))
    {
      hide CStr;
      CStrPrefix(s);
      var p := CStr(s);
      assert |p| < |s| ==> lines[r, |p|] == s[|p|];
      forall c | 0 <= c < |p| ensures lines[r, c] == p[c] && p[c] != NUL {
        assert lines[r, c] == s[c];
      }
    }

    /** Writes the lines through the I/O buffer and returns what sys_fwrite receives. */
    method SaveFile(iobuf: array<char>) returns (data: string)
      requires Valid() && iobuf.Length == IO_BYTES
      modifies iobuf, this`modified
      ensures Valid() && !modified && data == Saved(text)
    {
      hide Flat, Ended;
      var pos, r := 0, 0;
      SavedStart(text);
      while r < nlines
        invariant 0 <= r <= nlines && 0 <= pos <= IO_BYTES && iobuf[..pos] == SavedTo(text, r)
        invariant r == nlines ==> !Full(text)
      {
        var len := LineLen(r);
        SavedNext(text, r);
        if pos + len + 2 > IO_BYTES { break; }
        CopyLine(iobuf, pos, r, len);
        pos := pos + len;
        if r < nlines - 1 {
          iobuf[pos] := '\n';
          pos := pos + 1;
        }
        r := r + 1;
      }
      modified := false;
      data := iobuf[..pos];
    }

    method CopyLine(iobuf: array<char>, pos: int, r: int, len: int)
      requires Valid() && 0 <= r < nlines && len == |text[r]| && 0 <= pos && pos + len <= iobuf.Length
      modifies iobuf
      ensures Valid() && iobuf[..pos + len] == old(iobuf[..pos]) + text[r]
    {
      for k := 0 to len
        invariant Valid() && iobuf[..pos + k] == old(iobuf[..pos]) + text[r][..k]
      {
        assert RowIs(r, text[r]);
        iobuf[pos + k] := lines[r, k];
        assert iobuf[..pos + k + 1] == iobuf[..pos + k] + [text[r][k]];
      }
      assert text[r][..len] == text[r];
    }

    // ------------------------------------------------------------------- the run

    constructor (buffer: array2<char>)
      requires buffer.Length0 == MAX_LINES && buffer.Length1 == WIDTH
      ensures lines == buffer
    {
      lines, nlines, cur_r, cur_c, top_r, modified := buffer, 0, 0, 0, 0, false;
      text := [];
    }

    /** The start of main, once the file has been read. */
    method Open(data: string)
      requires lines.Length0 == MAX_LINES && lines.Length1 == WIDTH
      requires |data| < IO_BYTES && Newlines(data) < MAX_LINES
      modifies this, lines
      ensures Valid() && Visible() && text == Loaded(data) && Here() == 0 && !modified
    {
      LoadFile(data);
      cur_r, cur_c, top_r, modified := 0, 0, 0, false;
      assert text[..0] == [];
    }

    /** One pass of main's loop, said of the flat text, the offset of the cursor, and row and column.
        `saved` is what the key made save_file write, if anything. */
    method Key(c: int, iobuf: array<char>) returns (quit: bool, saved: seq<string>)
      requires Valid() && Visible() && iobuf.Length == IO_BYTES
      modifies this`nlines, this`cur_r, this`cur_c, this`top_r, this`modified, this`text, lines, iobuf
      ensures Valid() && Visible()
      // editing
      ensures 32 <= c < 127 ==>
                if old(|text[cur_r]|) < 127 then Spliced(old(Flat(text)), old(Here()), [c as char])
                else text == old(text) && Here() == old(Here())
      ensures c == 10 || c == 13 ==>
                if |old(text)| < 512 then Spliced(old(Flat(text)), old(Here()), "\n")
                else text == old(text) && Here() == old(Here())
      ensures c == 8 ==>
                if old(CannotErase()) then text == old(text) && Here() == old(Here())
                else Erased(old(Flat(text)), old(Here()))
      ensures c == 11 ==>
                && cur_r == old(cur_r) && cur_c == old(cur_c)
                && text == if cur_c < |old(text)[cur_r]| then old(text)[cur_r := old(text)[cur_r][..cur_c]]
                           else if cur_r + 1 < |old(text)| then old(text)[..cur_r + 1] + old(text)[cur_r + 2..]
                           else old(text)
      // moving
      ensures Moves(c) ==> text == old(text)
      ensures c == 28 ==> cur_r == Max(old(cur_r) - 1, 0)
      ensures c == 29 ==> cur_r == Min(old(cur_r) + 1, |text| - 1)
      ensures c == -4 ==> cur_r == Max(old(cur_r) - 94, 0)
      ensures c == -3 ==> cur_r == Min(old(cur_r) + 94, |text| - 1)
      ensures c in {28, 29, -4, -3} ==> cur_c == Min(old(cur_c), |text[cur_r]|)
      ensures c == 30 ==> Here() == Max(old(Here()) - 1, 0)
      ensures c == 31 ==> Here() == Min(old(Here()) + 1, |Flat(text)|)
      ensures c == -6 || c == 1 ==> cur_r == old(cur_r) && cur_c == 0
      ensures c == -5 || c == 5 ==> cur_r == old(cur_r) && cur_c == |text[cur_r]|
      // saving and leaving
      ensures !Moves(c) && !Edits(c) ==> text == old(text) && cur_r == old(cur_r) && cur_c == old(cur_c)
      ensures c == 19 || c == 24 ==>
                && !modified
                && saved == [if |text| == 512 && forall i | 0 <= i < 512 :: |text[i]| == 127
                             then Flat(text)[..|Flat(text)| - 127] else Flat(text)]
      ensures c != 19 && c != 24 ==> saved == [] && modified == (old(modified) || text != old(text))
      ensures quit == (c == 24 || c == 17)
    {
      hide Buffer, Text, Flat;
      quit, saved := false, [];
      if c == KEY_UP {
        Up();
      } else if c == KEY_DOWN {
        Down();
      } else if c == KEY_LEFT {
        Left();
      } else if c == KEY_RIGHT {
        Right();
      } else if c == KEY_HOME || c == KEY_CTRL_A {
        Home();
      } else if c == KEY_END || c == KEY_CTRL_E {
        EndKey();
      } else if c == KEY_PGUP {
        PageUp();
      } else if c == KEY_PGDN {
        PageDown();
      } else if c == KEY_CTRL_S || c == KEY_CTRL_X {
        SavedIsFlat(text);
        var data := SaveFile(iobuf);
        saved, quit := [data], c == KEY_CTRL_X;
      } else if c == KEY_CTRL_Q {
        quit := true;
      } else if c == KEY_CTRL_K {
        BufKill();
      } else if c == 8 {
        Backspace();
      } else if c == 10 || c == 13 {
        Enter();
      } else if 32 <= c < 127 {
        Type(c as char);
      }
    }
  }

  /** The keys that move the cursor, and those that change the text. */
  predicate Moves(c: int) {
    c in {28, 29, 30, 31, -6, -5, -4, -3, 1, 5}
  }

  predicate Edits(c: int) {
    c == 8 || c == 10 || c == 13 || c == 11 || 32 <= c < 127
  }
}
