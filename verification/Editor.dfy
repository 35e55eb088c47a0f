// The line editor: a vector of UTF-8 lines and a cursor of row and byte column.
// It refines `FlatBuffer`: every operation acts on the joined text and the one
// offset as the flat operation does.
module Editor {
  import opened Wrappers
  import opened Utf8
  import opened FlatBuffer
  import H = History

  // ---- Lines and the text they make ----

  predicate LineOk(line: Bytes) {
    WellFormed(line) && NEWLINE !in line
  }

  predicate LinesOk(lines: seq<Bytes>) {
    lines != [] && forall l <- lines :: LineOk(l)
  }

  // Each line with the break that ends it.
  function Before(lines: seq<Bytes>): Bytes {
    if lines == [] then []
    else Before(lines[..|lines| - 1]) + lines[|lines| - 1] + [NEWLINE]
  }

  // Each line with the break that starts it.
  function After(lines: seq<Bytes>): Bytes {
    if lines == [] then [] else [NEWLINE] + lines[0] + After(lines[1..])
  }

  function Join(lines: seq<Bytes>): Bytes
    requires lines != []
  {
    lines[0] + After(lines[1..])
  }

  lemma {:induction false} JoinAt(lines: seq<Bytes>, row: nat)
    requires row < |lines|
    ensures Join(lines) == Before(lines[..row]) + lines[row] + After(lines[row + 1..])
  {
    if row == 0 {
      assert lines[..0] == [];
    } else {
      JoinAt(lines, row - 1);
      assert lines[..row][..row - 1] == lines[..row - 1];
      assert lines[row..][1..] == lines[row + 1..];
      var b, p, l, a := Before(lines[..row - 1]), lines[row - 1], lines[row], After(lines[row + 1..]);
      assert b + p + ([NEWLINE] + l + a) == (b + p + [NEWLINE]) + l + a;
    }
  }

  // What surrounds a line in the text: a break before it or the start, a break
  // after it or the end.
  predicate Surround(b: Bytes, line: Bytes, a: Bytes) {
    LineOk(line) && (b == [] || b[|b| - 1] == NEWLINE) && (a == [] || a[0] == NEWLINE)
  }

  lemma SurroundAt(lines: seq<Bytes>, row: nat)
    requires LinesOk(lines) && row < |lines|
    ensures Surround(Before(lines[..row]), lines[row], After(lines[row + 1..]))
  {
  }

  // ---- Flat notions, seen from inside a line ----

  lemma BoundaryInside(b: Bytes, line: Bytes, a: Bytes, j: nat)
    requires Surround(b, line, a) && j <= |line|
    ensures IsBoundary(b + line + a, |b| + j) <==> IsBoundary(line, j)
  {
    var text := b + line + a;
    if j < |line| {
      assert text[|b| + j] == line[j];
      FirstCharBytes(line);
    } else if a != [] {
      assert text[|b| + j] == a[0];
    }
  }

  lemma {:induction false} FloorInside(b: Bytes, line: Bytes, a: Bytes, j: nat)
    requires Surround(b, line, a) && j <= |line|
    ensures FloorBoundary(b + line + a, |b| + j) == |b| + FloorBoundary(line, j)
  {
    BoundaryInside(b, line, a, j);
    if !IsBoundary(line, j) {
      FloorInside(b, line, a, j - 1);
    }
  }

  lemma {:induction false} CeilInside(b: Bytes, line: Bytes, a: Bytes, j: nat)
    requires Surround(b, line, a) && j <= |line|
    ensures CeilBoundary(b + line + a, |b| + j) == |b| + CeilBoundary(line, j)
    decreases |line| - j
  {
    BoundaryInside(b, line, a, j);
    if !IsBoundary(line, j) {
      CeilInside(b, line, a, j + 1);
    }
  }

  lemma {:induction false} LineStartInside(b: Bytes, line: Bytes, a: Bytes, j: nat)
    requires Surround(b, line, a) && j <= |line|
    ensures LineStart(b + line + a, |b| + j) == |b|
  {
    if j == 0 {
      assert b != [] ==> (b + line + a)[|b| - 1] == b[|b| - 1];
    } else {
      assert (b + line + a)[|b| + j - 1] == line[j - 1];
      LineStartInside(b, line, a, j - 1);
    }
  }

  lemma {:induction false} LineEndInside(b: Bytes, line: Bytes, a: Bytes, j: nat)
    requires Surround(b, line, a) && j <= |line|
    ensures LineEnd(b + line + a, |b| + j) == |b| + |line|
    decreases |line| - j
  {
    if j < |line| {
      assert (b + line + a)[|b| + j] == line[j];
      LineEndInside(b, line, a, j + 1);
    } else if a != [] {
      assert (b + line + a)[|b| + j] == a[0];
    }
  }

  lemma {:induction false} SkipBackInside(b: Bytes, line: Bytes, a: Bytes, j: nat, space: bool)
    requires j <= |line|
    ensures SkipBack(b + line + a, |b|, |b| + j, space) == |b| + SkipBack(line, 0, j, space)
  {
    if j > 0 {
      assert (b + line + a)[|b| + j - 1] == line[j - 1];
      SkipBackInside(b, line, a, j - 1, space);
    }
  }

  lemma {:induction false} SkipForwardInside(b: Bytes, line: Bytes, a: Bytes, j: nat, space: bool)
    requires j <= |line|
    ensures SkipForward(b + line + a, |b| + |line|, |b| + j, space) == |b| + SkipForward(line, |line|, j, space)
    decreases |line| - j
  {
    if j < |line| {
      assert (b + line + a)[|b| + j] == line[j];
      SkipForwardInside(b, line, a, j + 1, space);
    }
  }

  lemma SpliceInside(b: Bytes, line: Bytes, a: Bytes, i: nat, j: nat, put: Bytes)
    requires i <= j <= |line|
    ensures Splice(b + line + a, |b| + i, |b| + j, put) == b + Splice(line, i, j, put) + a
  {
    var text := b + line + a;
    assert text[..|b| + i] == b + line[..i];
    assert text[|b| + j..] == line[j..] + a;
  }

  // ---- Byte scans stay on characters ----

  // The whitespace scans look at bytes, but they stop next to an ASCII byte or at
  // an end of the line, so between two characters.
  lemma WordStartIsBoundary(line: Bytes, i: nat)
    requires WellFormed(line) && i <= |line|
    ensures IsBoundary(line, WordStart(line, 0, i))
  {
    var p := WordStart(line, 0, i);
    if p > 0 {
      BoundaryAfterAscii(line, p);
    }
  }

  lemma NextWordIsBoundary(line: Bytes, i: nat)
    requires WellFormed(line) && i < |line|
    ensures IsBoundary(line, NextWord(line, |line|, i))
  {
    var p := NextWord(line, |line|, i);
    if 0 < p < |line| {
      assert IsSpace(line[p - 1]);
      BoundaryAfterAscii(line, p);
    }
  }

  // Cutting a line between characters leaves a line, and so does pasting one in.
  lemma SpliceIsLine(line: Bytes, i: nat, j: nat, put: Bytes)
    requires LineOk(line) && LineOk(put) && i <= j <= |line| && IsBoundary(line, i) && IsBoundary(line, j)
    ensures LineOk(Splice(line, i, j, put))
  {
    SplitWellFormed(line, i);
    SplitWellFormed(line, j);
    ConcatWellFormed(line[..i], put);
    ConcatWellFormed(line[..i] + put, line[j..]);
  }

  // ---- Editing the lines ----

  // A line other than `row` is where it was, and `row` holds `line`.
  lemma WithLine(lines: seq<Bytes>, row: nat, line: Bytes)
    requires LinesOk(lines) && row < |lines| && LineOk(line)
    ensures LinesOk(lines[row := line])
    ensures lines[row := line][..row] == lines[..row] && lines[row := line][row + 1..] == lines[row + 1..]
    ensures Join(lines[row := line]) == Before(lines[..row]) + line + After(lines[row + 1..])
  {
    JoinAt(lines[row := line], row);
    assert lines[row := line][..row] == lines[..row];
    assert lines[row := line][row + 1..] == lines[row + 1..];
    forall l | l in lines[row := line]
      ensures LineOk(l)
    {
      assert l == line || l in lines;
    }
  }

  // Two neighbouring lines, and the text when they become one.
  lemma JoinedLines(lines: seq<Bytes>, row: nat)
    requires LinesOk(lines) && row + 1 < |lines|
    ensures var joined := lines[..row] + [lines[row] + lines[row + 1]] + lines[row + 2..];
            LinesOk(joined) && joined[..row] == lines[..row] &&
            Join(joined) == Before(lines[..row]) + (lines[row] + lines[row + 1]) + After(lines[row + 2..])
    ensures Before(lines[..row + 1]) == Before(lines[..row]) + lines[row] + [NEWLINE]
    ensures After(lines[row + 1..]) == [NEWLINE] + lines[row + 1] + After(lines[row + 2..])
  {
    var joined := lines[..row] + [lines[row] + lines[row + 1]] + lines[row + 2..];
    assert lines[row] in lines && lines[row + 1] in lines;
    ConcatWellFormed(lines[row], lines[row + 1]);
    assert joined[..row] == lines[..row] && joined[row + 1..] == lines[row + 2..];
    JoinAt(joined, row);
    assert lines[..row + 1][..row] == lines[..row];
    assert lines[row + 1..][1..] == lines[row + 2..];
    forall l | l in joined
      ensures LineOk(l)
    {
      assert l == lines[row] + lines[row + 1] || l in lines;
    }
  }

  // One line, and the text when it is cut in two.
  lemma CutLine(lines: seq<Bytes>, row: nat, head: Bytes, tail: Bytes)
    requires LinesOk(lines) && row < |lines| && LineOk(head) && LineOk(tail)
    ensures var cut := lines[..row] + [head, tail] + lines[row + 1..];
            LinesOk(cut) && Before(cut[..row + 1]) == Before(lines[..row]) + head + [NEWLINE] &&
            Join(cut) == Before(lines[..row]) + (head + [NEWLINE] + tail) + After(lines[row + 1..])
  {
    var cut := lines[..row] + [head, tail] + lines[row + 1..];
    assert cut[..row + 1][..row] == lines[..row] && cut[..row + 1][row] == head;
    assert cut[row + 2..] == lines[row + 1..];
    JoinAt(cut, row + 1);
    forall l | l in cut
      ensures LineOk(l)
    {
      assert l == head || l == tail || l in lines;
    }
  }

  // An edit inside the line of the cursor, and the same edit of the text.
  lemma EditInLine(lines: seq<Bytes>, row: nat, i: nat, j: nat, put: Bytes, col: nat)
    requires LinesOk(lines) && row < |lines| && LineOk(put)
    requires i <= j <= |lines[row]| && IsBoundary(lines[row], i) && IsBoundary(lines[row], j)
    requires col == i + |put|
    ensures var base, now := |Before(lines[..row])|, lines[row := Splice(lines[row], i, j, put)];
            && LinesOk(now) && now[..row] == lines[..row]
            && col <= |now[row]| && IsBoundary(now[row], col)
            && base + j <= |Join(lines)|
            && Join(now) == Splice(Join(lines), base + i, base + j, put)
  {
    var line := lines[row];
    var b, a := Before(lines[..row]), After(lines[row + 1..]);
    assert line in lines;
    JoinAt(lines, row);
    SpliceIsLine(line, i, j, put);
    SpliceInside(b, line, a, i, j, put);
    WithLine(lines, row, Splice(line, i, j, put));
    AfterPaste(line, i, j, put);
  }

  lemma AfterPaste(line: Bytes, i: nat, j: nat, put: Bytes)
    requires WellFormed(line) && i <= j <= |line| && IsBoundary(line, j)
    ensures IsBoundary(Splice(line, i, j, put), i + |put|)
  {
    if j < |line| {
      assert Splice(line, i, j, put)[i + |put|] == line[j];
      FirstCharBytes(line);
    }
  }

  method PrevCharBoundary(line: Bytes, pos: nat) returns (p: nat)
    requires pos <= |line|
    ensures p == PrevChar(line, pos)
  {
    p := pos;
    while p > 0
      invariant p <= pos
      invariant PrevChar(line, pos) == PrevChar(line, p)
    {
      p := p - 1;
      if IsBoundary(line, p) {
        return;
      }
    }
    return 0;
  }

  method NextCharBoundary(line: Bytes, pos: nat) returns (p: nat)
    requires pos < |line|
    ensures p == NextChar(line, pos)
  {
    p := pos + 1;
    while p < |line|
      invariant pos < p <= |line|
      invariant NextChar(line, pos) == CeilBoundary(line, p)
    {
      if IsBoundary(line, p) {
        return;
      }
      p := p + 1;
    }
    return |line|;
  }

  // The two loops of the word motions.
  method ScanWordStart(line: Bytes, col: nat) returns (pos: nat)
    requires col <= |line|
    ensures pos == WordStart(line, 0, col)
  {
    pos := col;
    while pos > 0 && IsSpace(line[pos - 1])
      invariant pos <= col
      invariant SkipBack(line, 0, col, true) == SkipBack(line, 0, pos, true)
    {
      pos := pos - 1;
    }
    while pos > 0 && !IsSpace(line[pos - 1])
      invariant pos <= col
      invariant WordStart(line, 0, col) == SkipBack(line, 0, pos, false)
    {
      pos := pos - 1;
    }
  }

  method ScanNextWord(line: Bytes, col: nat) returns (pos: nat)
    requires col <= |line|
    ensures pos == NextWord(line, |line|, col)
  {
    pos := col;
    while pos < |line| && !IsSpace(line[pos])
      invariant pos <= |line|
      invariant SkipForward(line, |line|, col, false) == SkipForward(line, |line|, pos, false)
    {
      pos := pos + 1;
    }
    while pos < |line| && IsSpace(line[pos])
      invariant pos <= |line|
      invariant NextWord(line, |line|, col) == SkipForward(line, |line|, pos, true)
    {
      pos := pos + 1;
    }
  }

  lemma {:induction false} AfterIsWellFormed(lines: seq<Bytes>)
    requires forall l <- lines :: LineOk(l)
    ensures WellFormed(After(lines))
  {
    if lines != [] {
      assert lines[0] in lines && forall l <- lines[1..] :: l in lines;
      AfterIsWellFormed(lines[1..]);
      AsciiIsWellFormed([NEWLINE]);
      ConcatWellFormed([NEWLINE], lines[0]);
      ConcatWellFormed([NEWLINE] + lines[0], After(lines[1..]));
    }
  }

  lemma JoinIsWellFormed(lines: seq<Bytes>)
    requires LinesOk(lines)
    ensures WellFormed(Join(lines))
  {
    assert lines[0] in lines && forall l <- lines[1..] :: l in lines;
    AfterIsWellFormed(lines[1..]);
    ConcatWellFormed(lines[0], After(lines[1..]));
  }

  lemma {:induction false} AsciiIsWellFormed(s: Bytes)
    requires forall b <- s :: b < 0x80
    ensures WellFormed(s)
  {
    if s != [] {
      assert s[0] in s && forall b <- s[1..] :: b in s;
      assert FirstLen(s) == 1;
      AsciiIsWellFormed(s[1..]);
    }
  }

  lemma CharIsLine(ch: char)
    requires ch != '\n'
    ensures LineOk(EncodeChar(ch))
  {
    EncodeIsWellFormed([ch]);
    assert Encode([ch]) == EncodeChar(ch);
  }

  // Back across the break before a line.
  lemma BackOverBreak(b: Bytes, line: Bytes, a: Bytes)
    requires Surround(b, line, a) && b != []
    ensures PrevChar(b + line + a, |b|) == |b| - 1
  {
    assert (b + line + a)[|b| - 1] == NEWLINE;
  }

  lemma JoinedBoundary(line: Bytes, next: Bytes)
    requires LineOk(line) && LineOk(next)
    ensures IsBoundary(line + next, |line|)
  {
    if next != [] {
      assert (line + next)[|line|] == next[0];
      FirstCharBytes(next);
    }
  }

  lemma PasteBreak(b: Bytes, line: Bytes, a: Bytes, col: nat, indent: Bytes)
    requires col <= |line|
    ensures Splice(b + line + a, |b| + col, |b| + col, [NEWLINE] + indent) ==
            b + (line[..col] + [NEWLINE] + (indent + line[col..])) + a
  {
    SpliceInside(b, line, a, col, col, [NEWLINE] + indent);
    assert Splice(line, col, col, [NEWLINE] + indent) == line[..col] + [NEWLINE] + (indent + line[col..]);
  }

  lemma CutAtCursor(lines: seq<Bytes>, row: nat, col: nat, spaces: nat)
    requires LinesOk(lines) && row < |lines| && col <= |lines[row]| && IsBoundary(lines[row], col)
    ensures var head, tail := lines[row][..col], Indent(spaces) + lines[row][col..];
            var cut := lines[..row] + [head, tail] + lines[row + 1..];
            var at := |Before(lines[..row])| + col;
            && LinesOk(cut) && IsBoundary(tail, spaces) && at <= |Join(lines)|
            && Join(cut) == Splice(Join(lines), at, at, [NEWLINE] + Indent(spaces))
            && |Before(cut[..row + 1])| == at + 1
  {
    var line := lines[row];
    var b, a := Before(lines[..row]), After(lines[row + 1..]);
    var head, tail := line[..col], Indent(spaces) + line[col..];
    assert line in lines;
    SplitWellFormed(line, col);
    AsciiIsWellFormed(Indent(spaces));
    ConcatWellFormed(Indent(spaces), line[col..]);
    JoinAt(lines, row);
    CutLine(lines, row, head, tail);
    PasteBreak(b, line, a, col, Indent(spaces));
    JoinedBoundary(Indent(spaces), line[col..]);
  }

  // ---- Every operation, on values ----

  // The cursor's row exists and its column is between two characters.
  predicate StateOk(lines: seq<Bytes>, row: nat, col: nat) {
    LinesOk(lines) && row < |lines| && col <= |lines[row]| && IsBoundary(lines[row], col)
  }

  // The text and the offset of the cursor in it.
  function AbsOf(lines: seq<Bytes>, row: nat, col: nat): (f: Flat)
    requires StateOk(lines, row, col)
    ensures InText(f)
  {
    JoinAt(lines, row);
    Flat(Join(lines), |Before(lines[..row])| + col)
  }

  // The line of the cursor and what surrounds it in the text.
  lemma AtCursor(lines: seq<Bytes>, row: nat, col: nat) returns (b: Bytes, l: Bytes, a: Bytes)
    requires StateOk(lines, row, col)
    ensures b == Before(lines[..row]) && l == lines[row] && a == After(lines[row + 1..])
    ensures Surround(b, l, a) && AbsOf(lines, row, col) == Flat(b + l + a, |b| + col)
  {
    b, l, a := Before(lines[..row]), lines[row], After(lines[row + 1..]);
    JoinAt(lines, row);
    SurroundAt(lines, row);
  }

  lemma PasteRefines(lines: seq<Bytes>, row: nat, col: nat, put: Bytes)
    requires StateOk(lines, row, col) && LineOk(put)
    ensures var now := lines[row := lines[row][..col] + put + lines[row][col..]];
            StateOk(now, row, col + |put|) &&
            AbsOf(now, row, col + |put|) == Paste(AbsOf(lines, row, col), put)
  {
    EditInLine(lines, row, col, col, put, col + |put|);
  }

  lemma PastedText(lines: seq<Bytes>, row: nat, col: nat, put: Bytes)
    requires StateOk(lines, row, col)
    ensures Join(lines[row := Splice(lines[row], col, col, put)]) == Paste(AbsOf(lines, row, col), put).text
  {
    var now := lines[row := Splice(lines[row], col, col, put)];
    assert now[..row] == lines[..row] && now[row + 1..] == lines[row + 1..];
    JoinAt(now, row);
    JoinAt(lines, row);
    SpliceInside(Before(lines[..row]), lines[row], After(lines[row + 1..]), col, col, put);
  }

  // Deleting back to `p` in the line.
  lemma DeleteBackRefines(lines: seq<Bytes>, row: nat, col: nat, p: nat)
    requires StateOk(lines, row, col) && p <= col && IsBoundary(lines[row], p)
    ensures var now := lines[row := lines[row][..p] + lines[row][col..]];
            StateOk(now, row, p) &&
            AbsOf(now, row, p) == DeleteBackTo(AbsOf(lines, row, col), |Before(lines[..row])| + p)
  {
    EditInLine(lines, row, p, col, [], p);
    assert Splice(lines[row], p, col, []) == lines[row][..p] + lines[row][col..];
  }

  lemma PrevInside(lines: seq<Bytes>, row: nat, col: nat)
    requires StateOk(lines, row, col) && col > 0
    ensures var f, p := AbsOf(lines, row, col), PrevChar(lines[row], col);
            StateOk(lines, row, p) && PrevChar(f.text, f.at) == |Before(lines[..row])| + p
  {
    var b, l, a := AtCursor(lines, row, col);
    FloorInside(b, l, a, col - 1);
  }

  lemma NextInside(lines: seq<Bytes>, row: nat, col: nat)
    requires StateOk(lines, row, col) && col < |lines[row]|
    ensures var f, n := AbsOf(lines, row, col), NextChar(lines[row], col);
            StateOk(lines, row, n) && f.at < |f.text| && NextChar(f.text, f.at) == |Before(lines[..row])| + n
  {
    var b, l, a := AtCursor(lines, row, col);
    CeilInside(b, l, a, col + 1);
  }

  lemma BackspaceRefines(lines: seq<Bytes>, row: nat, col: nat)
    requires StateOk(lines, row, col) && col > 0
    ensures var p := PrevChar(lines[row], col);
            var now := lines[row := lines[row][..p] + lines[row][col..]];
            StateOk(now, row, p) && AbsOf(now, row, p) == Backspace(AbsOf(lines, row, col))
  {
    PrevInside(lines, row, col);
    DeleteBackRefines(lines, row, col, PrevChar(lines[row], col));
  }

  // Joining two lines deletes the break between them.
  lemma JoinText(lines: seq<Bytes>, row: nat)
    requires LinesOk(lines) && row + 1 < |lines|
    ensures var now := lines[..row] + [lines[row] + lines[row + 1]] + lines[row + 2..];
            var e := |Before(lines[..row])| + |lines[row]|;
            && StateOk(now, row, |lines[row]|) && now[..row] == lines[..row]
            && |Before(lines[..row + 1])| == e + 1 <= |Join(lines)|
            && Join(now) == Splice(Join(lines), e, e + 1, [])
  {
    var b, l, n, a := Before(lines[..row]), lines[row], lines[row + 1], After(lines[row + 2..]);
    assert l in lines && n in lines;
    JoinedLines(lines, row);
    JoinAt(lines, row);
    JoinedBoundary(l, n);
    CutBreak(b, l, n, a);
  }

  lemma CutBreak(b: Bytes, l: Bytes, n: Bytes, a: Bytes)
    ensures var text := b + l + ([NEWLINE] + n + a);
            Splice(text, |b| + |l|, |b| + |l| + 1, []) == b + (l + n) + a
  {
    var text := b + l + ([NEWLINE] + n + a);
    assert text[..|b| + |l|] == b + l;
    assert text[|b| + |l| + 1..] == n + a;
  }

  lemma JoinBackRefines(lines: seq<Bytes>, row: nat)
    requires StateOk(lines, row, 0) && row > 0
    ensures var now := lines[..row - 1] + [lines[row - 1] + lines[row]] + lines[row + 1..];
            StateOk(now, row - 1, |lines[row - 1]|) &&
            AbsOf(now, row - 1, |lines[row - 1]|) == Backspace(AbsOf(lines, row, 0))
  {
    JoinText(lines, row - 1);
    NextRow(lines, row - 1);
  }

  lemma DeleteForwardRefines(lines: seq<Bytes>, row: nat, col: nat)
    requires StateOk(lines, row, col) && col < |lines[row]|
    ensures var now := lines[row := lines[row][..col] + lines[row][NextChar(lines[row], col)..]];
            StateOk(now, row, col) && AbsOf(now, row, col) == DeleteForward(AbsOf(lines, row, col))
  {
    var n := NextChar(lines[row], col);
    NextInside(lines, row, col);
    EditInLine(lines, row, col, n, [], col);
    assert Splice(lines[row], col, n, []) == lines[row][..col] + lines[row][n..];
  }

  lemma JoinForwardRefines(lines: seq<Bytes>, row: nat)
    requires LinesOk(lines) && row + 1 < |lines|
    ensures var now := lines[..row] + [lines[row] + lines[row + 1]] + lines[row + 2..];
            var col := |lines[row]|;
            StateOk(lines, row, col) && StateOk(now, row, col) &&
            AbsOf(now, row, col) == DeleteForward(AbsOf(lines, row, col))
  {
    JoinText(lines, row);
    NextRow(lines, row);
  }

  // One character on from the end of a line is the start of the next.
  lemma NextRow(lines: seq<Bytes>, row: nat)
    requires LinesOk(lines) && row + 1 < |lines|
    ensures StateOk(lines, row, |lines[row]|) && StateOk(lines, row + 1, 0)
    ensures AbsOf(lines, row + 1, 0) == GoRight(AbsOf(lines, row, |lines[row]|))
    ensures AbsOf(lines, row, |lines[row]|) == GoLeft(AbsOf(lines, row + 1, 0))
  {
    var b, l, a := AtCursor(lines, row, |lines[row]|);
    JoinedLines(lines, row);
    var b', l', a' := AtCursor(lines, row + 1, 0);
    BackOverBreak(b', l', a');
    BoundaryInside(b', l', a', 0);
    assert a != [];
  }

  lemma GoLeftRefines(lines: seq<Bytes>, row: nat, col: nat)
    requires StateOk(lines, row, col) && col > 0
    ensures var p := PrevChar(lines[row], col);
            StateOk(lines, row, p) && AbsOf(lines, row, p) == GoLeft(AbsOf(lines, row, col))
  {
    PrevInside(lines, row, col);
  }

  lemma GoRightRefines(lines: seq<Bytes>, row: nat, col: nat)
    requires StateOk(lines, row, col) && col < |lines[row]|
    ensures var n := NextChar(lines[row], col);
            StateOk(lines, row, n) && AbsOf(lines, row, n) == GoRight(AbsOf(lines, row, col))
  {
    NextInside(lines, row, col);
  }

  // At the two ends of the text nothing moves.
  lemma TextEnds(lines: seq<Bytes>)
    requires LinesOk(lines)
    ensures StateOk(lines, 0, 0)
    ensures Backspace(AbsOf(lines, 0, 0)) == GoLeft(AbsOf(lines, 0, 0)) == AbsOf(lines, 0, 0)
    ensures var last := |lines| - 1;
            StateOk(lines, last, |lines[last]|) &&
            AbsOf(lines, last, |lines[last]|).at == |AbsOf(lines, last, |lines[last]|).text|
  {
    var b, l, a := AtCursor(lines, 0, 0);
    assert Splice(b + l + a, 0, 0, []) == b + l + a;
    var last := |lines| - 1;
    var b', l', a' := AtCursor(lines, last, |lines[last]|);
  }

  lemma LineEndsInside(lines: seq<Bytes>, row: nat, col: nat)
    requires StateOk(lines, row, col)
    ensures var f, base := AbsOf(lines, row, col), |Before(lines[..row])|;
            LineStart(f.text, f.at) == base && LineEnd(f.text, f.at) == base + |lines[row]|
  {
    var b, l, a := AtCursor(lines, row, col);
    LineStartInside(b, l, a, col);
    LineEndInside(b, l, a, col);
  }

  lemma WordStartRefines(lines: seq<Bytes>, row: nat, col: nat)
    requires StateOk(lines, row, col)
    ensures var f, base, p := AbsOf(lines, row, col), |Before(lines[..row])|, WordStart(lines[row], 0, col);
            StateOk(lines, row, p) && WordStart(f.text, base, f.at) == base + p
  {
    var b, l, a := AtCursor(lines, row, col);
    SkipBackInside(b, l, a, col, true);
    SkipBackInside(b, l, a, SkipBack(l, 0, col, true), false);
    WordStartIsBoundary(l, col);
  }

  lemma NextWordRefines(lines: seq<Bytes>, row: nat, col: nat)
    requires StateOk(lines, row, col) && col < |lines[row]|
    ensures var f, base, p := AbsOf(lines, row, col), |Before(lines[..row])|, NextWord(lines[row], |lines[row]|, col);
            StateOk(lines, row, p) && base + |lines[row]| <= |f.text| &&
            NextWord(f.text, base + |lines[row]|, f.at) == base + p
  {
    var b, l, a := AtCursor(lines, row, col);
    NextWordInside(b, l, a, col);
    NextWordIsBoundary(l, col);
  }

  lemma NextWordInside(b: Bytes, line: Bytes, a: Bytes, j: nat)
    requires Surround(b, line, a) && j <= |line|
    ensures NextWord(b + line + a, |b| + |line|, |b| + j) == |b| + NextWord(line, |line|, j)
  {
    SkipForwardInside(b, line, a, j, false);
    SkipForwardInside(b, line, a, SkipForward(line, |line|, j, false), true);
  }

  lemma EmptyLineRefines(lines: seq<Bytes>, row: nat, col: nat)
    requires StateOk(lines, row, col)
    ensures var now := lines[row := []];
            StateOk(now, row, 0) && AbsOf(now, row, 0) == EmptyLine(AbsOf(lines, row, col))
  {
    LineEndsInside(lines, row, col);
    EditInLine(lines, row, 0, |lines[row]|, [], 0);
    assert Splice(lines[row], 0, |lines[row]|, []) == [];
  }

  lemma DeleteWordRefines(lines: seq<Bytes>, row: nat, col: nat)
    requires StateOk(lines, row, col)
    ensures var p := WordStart(lines[row], 0, col);
            var now := lines[row := lines[row][..p] + lines[row][col..]];
            StateOk(now, row, p) && AbsOf(now, row, p) == DeleteWordBack(AbsOf(lines, row, col))
  {
    var p := WordStart(lines[row], 0, col);
    LineEndsInside(lines, row, col);
    WordStartRefines(lines, row, col);
    DeletedWord(AbsOf(lines, row, col), |Before(lines[..row])|, p);
    DeleteBackRefines(lines, row, col, p);
  }

  lemma DeletedWord(f: Flat, base: nat, p: nat)
    requires InText(f) && base == LineStart(f.text, f.at) && WordStart(f.text, base, f.at) == base + p
    ensures base + p <= f.at && DeleteWordBack(f) == DeleteBackTo(f, base + p)
  {
  }

  lemma BreakRefines(lines: seq<Bytes>, row: nat, col: nat, spaces: nat)
    requires StateOk(lines, row, col)
    ensures var now := lines[..row] + [lines[row][..col], Indent(spaces) + lines[row][col..]] + lines[row + 1..];
            StateOk(now, row + 1, spaces) &&
            AbsOf(now, row + 1, spaces) == Break(AbsOf(lines, row, col), spaces)
  {
    CutAtCursor(lines, row, col, spaces);
  }

  // In every such state the text is well-formed UTF-8 and the offset is between
  // two of its characters.
  lemma TextIsOk(lines: seq<Bytes>, row: nat, col: nat)
    requires StateOk(lines, row, col)
    ensures Ok(AbsOf(lines, row, col))
  {
    var b, l, a := AtCursor(lines, row, col);
    BoundaryInside(b, l, a, col);
    JoinIsWellFormed(lines);
  }

  // ---- Browsing the history, on values ----

  function Split(s: Bytes): (lines: seq<Bytes>)
    ensures lines != []
  {
    if s == [] then [[]]
    else
      var rest := Split(s[1..]);
      if s[0] == NEWLINE then [[]] + rest else [[s[0]] + rest[0]] + rest[1..]
  }

  datatype View = View(lines: seq<Bytes>, row: nat, col: nat, index: Option<nat>, saved: seq<Bytes>)

  type Lines = lines: seq<Bytes> | lines != [] witness [[]]

  // The cursor at the end of the last of `lines`.
  function Showing(v: View, lines: Lines): View {
    v.(lines := lines, row := |lines| - 1, col := |lines[|lines| - 1]|)
  }

  function EntryLines(entry: string): Lines {
    Split(Encode(entry))
  }

  // What the entries show, latest first.
  function Shown(entries: seq<string>): (shown: seq<Lines>)
    ensures |shown| == |entries|
  {
    seq(|entries|, i requires 0 <= i < |entries| => EntryLines(entries[|entries| - 1 - i]))
  }

  function Up(v: View, shown: seq<Lines>): View {
    if shown == [] then v
    else
      match v.index
      case None => Showing(v, shown[0]).(index := Some(0), saved := v.lines)
      case Some(i) => if i + 1 < |shown| then Showing(v, shown[i + 1]).(index := Some(i + 1)) else v
  }

  function Down(v: View, shown: seq<Lines>): View {
    match v.index
    case None => v
    case Some(i) =>
      if i == 0 then Showing(v, if v.saved == [] then [[]] else v.saved).(index := None)
      else if i - 1 < |shown| then Showing(v, shown[i - 1]).(index := Some(i - 1))
      else v.(index := Some(i - 1))
  }

  // Two in-place updates of the line vector, as one.
  lemma RemoveThenAppend(lines: seq<Bytes>, row: nat)
    requires row + 1 < |lines|
    ensures (lines[..row + 1] + lines[row + 2..])[row := lines[row] + lines[row + 1]] ==
            lines[..row] + [lines[row] + lines[row + 1]] + lines[row + 2..]
  {
  }

  lemma JoinForwardInPlace(lines: seq<Bytes>, row: nat)
    requires LinesOk(lines) && row + 1 < |lines|
    ensures var cut := lines[..row + 1] + lines[row + 2..];
            var now, col := cut[row := cut[row] + lines[row + 1]], |lines[row]|;
            StateOk(lines, row, col) && StateOk(now, row, col) &&
            AbsOf(now, row, col) == DeleteForward(AbsOf(lines, row, col))
  {
    JoinForwardRefines(lines, row);
    RemoveThenAppend(lines, row);
  }

  lemma JoinBackInPlace(lines: seq<Bytes>, row: nat)
    requires LinesOk(lines) && 0 < row < |lines|
    ensures var cut := lines[..row] + lines[row + 1..];
            var now, col := cut[row - 1 := cut[row - 1] + lines[row]], |lines[row - 1]|;
            StateOk(lines, row, 0) && StateOk(now, row - 1, col) &&
            AbsOf(now, row - 1, col) == Backspace(AbsOf(lines, row, 0))
  {
    JoinBackRefines(lines, row);
    RemoveThenAppend(lines, row - 1);
  }

  lemma TruncateThenInsert(lines: seq<Bytes>, row: nat, head: Bytes, next: Bytes)
    requires row < |lines|
    ensures lines[row := head][..row + 1] + [next] + lines[row := head][row + 1..] ==
            lines[..row] + [head, next] + lines[row + 1..]
  {
  }

  // ---- The editor object ----

  class InputState {
    var lines: seq<Bytes>
    var row: nat
    var col: nat
    var historyIndex: Option<nat>
    var savedInput: seq<Bytes>

    ghost predicate Valid()
      reads this
    {
      StateOk(lines, row, col) && forall l <- savedInput :: LineOk(l)
    }

    ghost function Abs(): Flat
      requires Valid()
      reads this
    {
      AbsOf(lines, row, col)
    }

    constructor ()
      ensures Valid() && Abs() == Flat([], 0)
      ensures lines == [[]] && historyIndex == None && savedInput == []
    {
      lines, row, col, historyIndex, savedInput := [[]], 0, 0, None, [];
    }

    // A line break would end up inside a line: the text is right, but lines and
    // text no longer correspond. Callers type it with `NewLineWithIndent`.
    method InsertChar(ch: char)
      requires Valid()
      modifies `lines, `col
      ensures lines == old(lines)[row := Splice(old(lines)[row], old(col), old(col), EncodeChar(ch))]
      ensures col == old(col) + |EncodeChar(ch)|
      ensures Join(lines) == Paste(old(Abs()), EncodeChar(ch)).text
      ensures Valid() <==> ch != '\n'
      ensures Valid() ==> Abs() == Paste(old(Abs()), EncodeChar(ch))
    {
      if ch != '\n' {
        CharIsLine(ch);
        PasteRefines(lines, row, col, EncodeChar(ch));
      }
      PastedText(lines, row, col, EncodeChar(ch));
      lines := lines[row := lines[row][..col] + EncodeChar(ch) + lines[row][col..]];
      assert ch == '\n' ==> lines[row][col] == NEWLINE && lines[row] in lines;
      col := col + |EncodeChar(ch)|;
    }

    method DeleteCharBefore()
      requires Valid()
      modifies `lines, `row, `col
      ensures Valid() && Abs() == Backspace(old(Abs()))
    {
      if col > 0 {
        BackspaceRefines(lines, row, col);
        var prev := PrevCharBoundary(lines[row], col);
        lines := lines[row := lines[row][..prev] + lines[row][col..]];
        col := prev;
      } else if row > 0 {
        JoinBackInPlace(lines, row);
        var line := lines[row];
        lines := lines[..row] + lines[row + 1..];
        row := row - 1;
        col := |lines[row]|;
        lines := lines[row := lines[row] + line];
      } else {
        TextEnds(lines);
      }
    }

    method DeleteCharAt()
      requires Valid()
      modifies `lines
      ensures Valid() && Abs() == DeleteForward(old(Abs()))
    {
      if col < |lines[row]| {
        DeleteForwardRefines(lines, row, col);
        var next := NextCharBoundary(lines[row], col);
        lines := lines[row := lines[row][..col] + lines[row][next..]];
      } else if row + 1 < |lines| {
        JoinForwardInPlace(lines, row);
        var line := lines[row + 1];
        lines := lines[..row + 1] + lines[row + 2..];
        lines := lines[row := lines[row] + line];
      } else {
        TextEnds(lines);
      }
    }

    method MoveCursorLeft()
      requires Valid()
      modifies `row, `col
      ensures Valid() && Abs() == GoLeft(old(Abs()))
    {
      if col > 0 {
        GoLeftRefines(lines, row, col);
        col := PrevCharBoundary(lines[row], col);
      } else if row > 0 {
        NextRow(lines, row - 1);
        row := row - 1;
        col := |lines[row]|;
      } else {
        TextEnds(lines);
      }
    }

    method MoveCursorRight()
      requires Valid()
      modifies `row, `col
      ensures Valid() && Abs() == GoRight(old(Abs()))
    {
      if col < |lines[row]| {
        GoRightRefines(lines, row, col);
        col := NextCharBoundary(lines[row], col);
      } else if row + 1 < |lines| {
        NextRow(lines, row);
        row := row + 1;
        col := 0;
      } else {
        TextEnds(lines);
      }
    }

    method MoveCursorHome()
      requires Valid()
      modifies `col
      ensures Valid() && Abs() == GoHome(old(Abs()))
    {
      LineEndsInside(lines, row, col);
      col := 0;
    }

    method MoveCursorEnd()
      requires Valid()
      modifies `col
      ensures Valid() && Abs() == GoEnd(old(Abs()))
    {
      LineEndsInside(lines, row, col);
      col := |lines[row]|;
    }

    method MoveCursorWordLeft()
      requires Valid()
      modifies `row, `col
      ensures Valid() && Abs() == GoWordLeft(old(Abs()))
    {
      LineEndsInside(lines, row, col);
      if col == 0 {
        MoveCursorLeft();
        return;
      }
      WordStartRefines(lines, row, col);
      col := ScanWordStart(lines[row], col);
    }

    method MoveCursorWordRight()
      requires Valid()
      modifies `row, `col
      ensures Valid() && Abs() == GoWordRight(old(Abs()))
    {
      LineEndsInside(lines, row, col);
      if col >= |lines[row]| {
        MoveCursorRight();
        return;
      }
      NextWordRefines(lines, row, col);
      col := ScanNextWord(lines[row], col);
    }

    method ClearCurrentLine()
      requires Valid()
      modifies `lines, `col
      ensures Valid() && Abs() == EmptyLine(old(Abs()))
    {
      EmptyLineRefines(lines, row, col);
      lines := lines[row := []];
      col := 0;
    }

    method DeleteWord()
      requires Valid()
      modifies `lines, `col
      ensures Valid() && Abs() == DeleteWordBack(old(Abs()))
    {
      DeleteWordRefines(lines, row, col);
      if col == 0 {
        assert lines[row][..0] + lines[row][0..] == lines[row];
        assert lines == lines[row := lines[row]];
        return;
      }
      var pos := ScanWordStart(lines[row], col);
      lines := lines[row := lines[row][..pos] + lines[row][col..]];
      col := pos;
    }

    method NewLineWithIndent(spaces: nat)
      requires Valid()
      modifies `lines, `row, `col
      ensures Valid() && Abs() == Break(old(Abs()), spaces)
    {
      BreakRefines(lines, row, col, spaces);
      TruncateThenInsert(lines, row, lines[row][..col], Indent(spaces) + lines[row][col..]);
      var rest := lines[row][col..];
      lines := lines[row := lines[row][..col]];
      lines := lines[..row + 1] + [Indent(spaces) + rest] + lines[row + 1..];
      row := row + 1;
      col := spaces;
    }

    method Clear()
      modifies this
      ensures Valid() && Abs() == Flat([], 0)
      ensures lines == [[]] && historyIndex == None && savedInput == []
    {
      lines, row, col := [[]], 0, 0;
      historyIndex := None;
      savedInput := [];
    }

    ghost function AsView(): View
      reads this
    {
      View(lines, row, col, historyIndex, savedInput)
    }

    // Shows other lines, with the cursor at their end.
    method Show(shown: seq<Bytes>)
      requires LinesOk(shown)
      modifies `lines, `row, `col
      ensures StateOk(lines, row, col) && AsView() == Showing(old(AsView()), shown)
    {
      lines := shown;
      row := |lines| - 1;
      col := |lines[row]|;
    }

    method ShowEntry(history: H.History, index: nat)
      requires Valid()
      modifies `lines, `row, `col
      ensures Valid()
      ensures AsView() == if index < |history.entries|
                          then Showing(old(AsView()), Shown(history.entries)[index]) else old(AsView())
    {
      var entry := history.Get(index);
      if entry.Some? {
        EntryIsLines(entry.value);
        Show(EntryLines(entry.value));
      }
    }

    method HistoryUp(history: H.History)
      requires Valid()
      modifies this
      ensures Valid() && AsView() == Up(old(AsView()), Shown(history.entries))
    {
      var max := |history.entries|;
      if max == 0 {
        return;
      }
      match historyIndex {
        case None =>
          savedInput := lines;
          historyIndex := Some(0);
        case Some(i) =>
          if i + 1 >= max {
            return;
          }
          historyIndex := Some(i + 1);
      }
      ShowEntry(history, historyIndex.value);
    }

    method HistoryDown(history: H.History)
      requires Valid()
      modifies this
      ensures Valid() && AsView() == Down(old(AsView()), Shown(history.entries))
    {
      match historyIndex {
        case None =>
        case Some(i) =>
          if i == 0 {
            historyIndex := None;
            Show(if savedInput == [] then [[]] else savedInput);
          } else {
            historyIndex := Some(i - 1);
            ShowEntry(history, i - 1);
          }
      }
    }

    // Any edit.
    method Perform(op: EditOp)
      requires Valid() && op != Insert('\n')
      modifies `lines, `row, `col
      ensures Valid() && Abs() == Step(old(Abs()), op)
    {
      match op
      case Insert(ch) => InsertChar(ch);
      case DeleteBefore => DeleteCharBefore();
      case DeleteAt => DeleteCharAt();
      case Left => MoveCursorLeft();
      case Right => MoveCursorRight();
      case Home => MoveCursorHome();
      case End => MoveCursorEnd();
      case WordLeft => MoveCursorWordLeft();
      case WordRight => MoveCursorWordRight();
      case ClearLine => ClearCurrentLine();
      case DeleteWordBefore => DeleteWord();
      case NewLine(spaces) => NewLineWithIndent(spaces);
    }

    // Any sequence of edits runs as on the flat buffer, and every state on the
    // way has its cursor between two characters of an existing row.
    method PerformAll(ops: seq<EditOp>)
      requires Valid() && Insert('\n') !in ops
      modifies `lines, `row, `col
      ensures Valid() && Abs() == Run(old(Abs()), ops)
    {
      for k := 0 to |ops|
        invariant Valid() && Abs() == Run(old(Abs()), ops[..k])
      {
        assert ops[..k + 1][..k] == ops[..k];
        Perform(ops[k]);
      }
      assert ops[..|ops|] == ops;
    }
  }

  // ---- Splitting and joining are inverse ----

  lemma {:induction false} SplitThenJoin(s: Bytes)
    ensures Join(Split(s)) == s
  {
    if s != [] {
      SplitThenJoin(s[1..]);
      var rest := Split(s[1..]);
      if s[0] == NEWLINE {
        assert ([[]] + rest)[1..] == rest;
        assert After(rest) == [NEWLINE] + Join(rest);
      } else {
        assert ([[s[0]] + rest[0]] + rest[1..])[1..] == rest[1..];
        assert ([s[0]] + rest[0]) + After(rest[1..]) == [s[0]] + Join(rest);
      }
    }
  }

  lemma {:induction false} SplitAfter(c: Bytes, rest: Bytes)
    requires NEWLINE !in c
    ensures Split(c + rest) == [c + Split(rest)[0]] + Split(rest)[1..]
  {
    if c == [] {
      assert c + rest == rest && [] + Split(rest)[0] == Split(rest)[0];
    } else {
      SplitAfter(c[1..], rest);
      assert (c + rest)[1..] == c[1..] + rest;
      assert c[0] in c;
      assert [c[0]] + (c[1..] + Split(rest)[0]) == c + Split(rest)[0];
    }
  }

  lemma {:induction false} JoinThenSplit(lines: seq<Bytes>)
    requires lines != [] && forall l <- lines :: NEWLINE !in l
    ensures Split(Join(lines)) == lines
  {
    var l, rest := lines[0], After(lines[1..]);
    assert l in lines && forall k <- lines[1..] :: k in lines;
    SplitAfter(l, rest);
    if |lines| > 1 {
      JoinThenSplit(lines[1..]);
      AfterIsJoin(lines[1..]);
      SplitBreak(Join(lines[1..]));
    }
    FirstLineBack(l, lines[1..]);
    assert lines == [l] + lines[1..];
  }

  lemma FirstLineBack(l: Bytes, rest: seq<Bytes>)
    ensures [l + ([[]] + rest)[0]] + ([[]] + rest)[1..] == [l] + rest
  {
    assert l + [] == l && ([[]] + rest)[1..] == rest;
  }

  lemma SplitBreak(s: Bytes)
    ensures Split([NEWLINE] + s) == [[]] + Split(s)
  {
    assert ([NEWLINE] + s)[1..] == s;
  }

  lemma AfterIsJoin(lines: seq<Bytes>)
    requires lines != []
    ensures After(lines) == [NEWLINE] + Join(lines)
  {
  }

  // The text and the offset determine the lines and the cursor, so the flat
  // buffer forgets nothing.
  lemma AbstractionIsFaithful(lines: seq<Bytes>, row: nat, col: nat, lines': seq<Bytes>, row': nat, col': nat)
    requires StateOk(lines, row, col) && StateOk(lines', row', col')
    requires AbsOf(lines, row, col) == AbsOf(lines', row', col')
    ensures lines == lines' && row == row' && col == col'
  {
    JoinThenSplit(lines);
    JoinThenSplit(lines');
    if row < row' {
      OffsetsGrow(lines, row, col, row', col');
    } else if row' < row {
      OffsetsGrow(lines, row', col', row, col);
    }
  }

  lemma {:induction false} OffsetsGrow(lines: seq<Bytes>, row: nat, col: nat, row': nat, col': nat)
    requires row < row' < |lines| && col <= |lines[row]|
    ensures |Before(lines[..row])| + col < |Before(lines[..row'])| + col'
  {
    assert lines[..row'][..row' - 1] == lines[..row' - 1];
    if row + 1 < row' {
      OffsetsGrow(lines, row, col, row' - 1, 0);
    }
  }

  lemma {:induction false} SplitIsLines(s: Bytes)
    requires WellFormed(s)
    ensures LinesOk(Split(s))
  {
    if s != [] {
      var c, rest := s[..FirstLen(s)], s[FirstLen(s)..];
      SplitIsLines(rest);
      FirstCharIsWellFormed(s);
      FirstCharBytes(s);
      var lines := Split(rest);
      assert lines[0] in lines && forall l <- lines[1..] :: l in lines;
      if s[0] != NEWLINE {
        assert s == c + rest;
        SplitAfter(c, rest);
        ConcatWellFormed(c, lines[0]);
      }
    }
  }

  lemma EntryIsLines(entry: string)
    ensures LinesOk(Split(Encode(entry)))
    ensures var lines := Split(Encode(entry)); StateOk(lines, |lines| - 1, |lines[|lines| - 1]|)
  {
    EncodeIsWellFormed(entry);
    SplitIsLines(Encode(entry));
  }

  // ---- Browsing restores the draft ----

  function Ups(v: View, shown: seq<Lines>, k: nat): View {
    if k == 0 then v else Up(Ups(v, shown, k - 1), shown)
  }

  function Downs(v: View, shown: seq<Lines>, k: nat): View {
    if k == 0 then v else Down(Downs(v, shown, k - 1), shown)
  }

  // The view that browsing from a draft shows at an index.
  predicate Browsing(v: View, draft: Lines, shown: seq<Lines>, index: nat) {
    index < |shown| && v.index == Some(index) && v.saved == draft && v == Showing(v, shown[index])
  }

  // Going up shows the entries from the latest on, and stops at the oldest.
  lemma {:induction false} UpsShowEntries(v: View, shown: seq<Lines>, k: nat)
    requires v.index == None && v.lines != [] && shown != [] && k >= 1
    ensures Browsing(Ups(v, shown, k), v.lines, shown, Min(k, |shown|) - 1)
  {
    if k > 1 {
      UpsShowEntries(v, shown, k - 1);
    } else {
      assert Ups(v, shown, 0) == v;
    }
  }

  // Going down from an entry shows the later ones, then the draft for good.
  lemma {:induction false} DownsShowEntries(u: View, draft: Lines, shown: seq<Lines>, index: nat, k: nat)
    requires Browsing(u, draft, shown, index)
    ensures k <= index ==> Browsing(Downs(u, shown, k), draft, shown, index - k)
    ensures k > index ==> Downs(u, shown, k) == Showing(u, draft).(index := None)
  {
    if k > 0 {
      DownsShowEntries(u, draft, shown, index, k - 1);
    }
  }

  // From an index that the history does not have, too, every Down goes one place and
  // leaves the lines alone until there is an entry, and the draft comes back in time.
  lemma {:induction false} DownsReachDraft(v: View, shown: seq<Lines>, i: nat, k: nat)
    requires v.index == Some(i) && v.saved != []
    ensures k <= i ==> Downs(v, shown, k).index == Some(i - k) && Downs(v, shown, k).saved == v.saved
    ensures k <= i && |shown| <= i - k ==> Downs(v, shown, k) == v.(index := Some(i - k))
    ensures k > i ==> Downs(v, shown, k) == Showing(v, v.saved).(index := None)
  {
    if k > 0 {
      DownsReachDraft(v, shown, i, k - 1);
      assert Downs(v, shown, k) == Down(Downs(v, shown, k - 1), shown);
    }
  }

  // As many Downs as Ups, from any draft and past the oldest entry as well, give
  // the draft back with the cursor at its end, and an entry at every step between.
  lemma BrowsingRestoresDraft(v: View, shown: seq<Lines>, k: nat, j: nat)
    requires v.index == None && v.lines != [] && shown != [] && 1 <= k && j <= k
    ensures var top := Min(k, |shown|) - 1;
            var w := Downs(Ups(v, shown, k), shown, j);
            if j <= top then Browsing(w, v.lines, shown, top - j)
            else w == Showing(v, v.lines).(saved := v.lines)
  {
    var u, top := Ups(v, shown, k), Min(k, |shown|) - 1;
    UpsShowEntries(v, shown, k);
    DownsShowEntries(u, v.lines, shown, top, j);
  }

  // So the cursor comes back to where it was exactly when it was at the end.
  lemma CursorComesBack(v: View, shown: seq<Lines>, k: nat)
    requires v.index == None && v.lines != [] && shown != [] && k >= 1
    ensures var w := Downs(Ups(v, shown, k), shown, k);
            w.lines == v.lines && w.index == None &&
            (w.row == v.row && w.col == v.col <==>
             v.row == |v.lines| - 1 && v.col == |v.lines[|v.lines| - 1]|)
  {
    BrowsingRestoresDraft(v, shown, k, k);
  }
}
