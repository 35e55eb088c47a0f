// The flat buffer in characters: what is to the left and to the right of the
// cursor. Every edit is what a user sees it do.
module CharBuffer {
  import opened Utf8
  import opened FlatBuffer

  datatype Page = Page(left: string, right: string)

  // The page of a buffer whose cursor is between two characters.
  function Shows(f: Flat): Page
    requires Ok(f)
  {
    SplitWellFormed(f.text, f.at);
    Page(Decode(f.text[..f.at]), Decode(f.text[f.at..]))
  }

  // ---- The text in pieces ----

  // A text made of two well-formed parts, with the cursor between them.
  lemma Made(left: Bytes, right: Bytes)
    requires WellFormed(left) && WellFormed(right)
    ensures Ok(Flat(left + right, |left|)) && Shows(Flat(left + right, |left|)) == Page(Decode(left), Decode(right))
  {
    var s := left + right;
    ConcatWellFormed(left, right);
    assert s[..|left|] == left && s[|left|..] == right;
    BoundaryExactly(s, |left|);
  }

  // A text cut at two boundaries.
  lemma Pieces(s: Bytes, p: nat, i: nat)
    requires WellFormed(s) && p <= i <= |s| && IsBoundary(s, p) && IsBoundary(s, i)
    ensures WellFormed(s[..p]) && WellFormed(s[p..i]) && WellFormed(s[i..]) && WellFormed(s[..i]) && WellFormed(s[p..])
  {
    SplitWellFormed(s, p);
    SplitWellFormed(s, i);
    BetweenBoundaries(s, p, i);
  }

  lemma Joined(a: Bytes, b: Bytes, whole: Bytes)
    requires WellFormed(a) && WellFormed(b) && whole == a + b
    ensures WellFormed(whole) && Decode(whole) == Decode(a) + Decode(b)
  {
    DecodeConcat(a, b);
  }

  lemma SlicesMeet(s: Bytes, p: nat, i: nat)
    requires p <= i <= |s|
    ensures s[..i] == s[..p] + s[p..i] && s[p..] == s[p..i] + s[i..]
  {
  }

  lemma LeftIs(s: Bytes, i: nat, left: Bytes)
    requires WellFormed(s) && i <= |s| && IsBoundary(s, i) && left == s[..i]
    ensures WellFormed(left) && Shows(Flat(s, i)).left == Decode(left)
  {
    SplitWellFormed(s, i);
  }

  lemma RightIs(s: Bytes, i: nat, right: Bytes)
    requires WellFormed(s) && i <= |s| && IsBoundary(s, i) && right == s[i..]
    ensures WellFormed(right) && Shows(Flat(s, i)).right == Decode(right)
  {
    SplitWellFormed(s, i);
  }

  // The characters to the left of the second cut, and to the right of the first.
  lemma CutLeft(s: Bytes, p: nat, i: nat)
    requires WellFormed(s) && p <= i <= |s| && IsBoundary(s, p) && IsBoundary(s, i)
    ensures WellFormed(s[..p]) && WellFormed(s[p..i])
    ensures Shows(Flat(s, i)).left == Shows(Flat(s, p)).left + Decode(s[p..i])
  {
    var a, b := s[..p], s[p..i];
    Pieces(s, p, i);
    SlicesMeet(s, p, i);
    LeftIs(s, p, a);
    LeftIs(s, i, a + b);
    Joined(a, b, a + b);
  }

  lemma CutRight(s: Bytes, p: nat, i: nat)
    requires WellFormed(s) && p <= i <= |s| && IsBoundary(s, p) && IsBoundary(s, i)
    ensures WellFormed(s[p..i]) && WellFormed(s[i..])
    ensures Shows(Flat(s, p)).right == Decode(s[p..i]) + Shows(Flat(s, i)).right
  {
    var b, c := s[p..i], s[i..];
    Pieces(s, p, i);
    SlicesMeet(s, p, i);
    RightIs(s, i, c);
    RightIs(s, p, b + c);
    Joined(b, c, b + c);
  }

  lemma WithoutMiddle(s: Bytes, p: nat, i: nat)
    requires p <= i <= |s|
    ensures Splice(s, p, i, []) == s[..p] + s[i..]
  {
  }

  // Cutting out what is between `p` and `i` leaves the rest.
  lemma CutOut(s: Bytes, p: nat, i: nat)
    requires WellFormed(s) && p <= i <= |s| && IsBoundary(s, p) && IsBoundary(s, i)
    ensures var g := Flat(Splice(s, p, i, []), p);
            Ok(g) && Shows(g) == Page(Shows(Flat(s, p)).left, Shows(Flat(s, i)).right)
  {
    LeftIs(s, p, s[..p]);
    RightIs(s, i, s[i..]);
    Made(s[..p], s[i..]);
    WithoutMiddle(s, p, i);
  }

  // ---- Typing ----

  // Pasting a text puts its characters to the left of the cursor.
  lemma PasteShows(f: Flat, put: Bytes)
    requires Ok(f) && WellFormed(put)
    ensures Ok(Paste(f, put)) && Shows(Paste(f, put)) == Page(Shows(f).left + Decode(put), Shows(f).right)
  {
    SplitWellFormed(f.text, f.at);
    DecodeConcat(f.text[..f.at], put);
    Made(f.text[..f.at] + put, f.text[f.at..]);
    assert Splice(f.text, f.at, f.at, put) == f.text[..f.at] + put + f.text[f.at..];
  }

  // A typed character is to the left of the cursor.
  lemma InsertShows(f: Flat, ch: char)
    requires Ok(f)
    ensures var g := Step(f, Insert(ch)); Ok(g) && Shows(g) == Page(Shows(f).left + [ch], Shows(f).right)
  {
    DecodeEncoded([ch]);
    assert Encode([ch]) == EncodeChar(ch);
    PasteShows(f, EncodeChar(ch));
  }

  function Spaces(n: nat): string {
    seq(n, _ => ' ')
  }

  // A new line is a line break and the spaces of its indent.
  lemma NewLineShows(f: Flat, spaces: nat)
    requires Ok(f)
    ensures var g := Step(f, NewLine(spaces));
            Ok(g) && Shows(g) == Page(Shows(f).left + ("\n" + Spaces(spaces)), Shows(f).right)
  {
    var put := [NEWLINE] + Indent(spaces);
    BreakEncodes(spaces);
    PasteShows(f, put);
    assert Step(f, NewLine(spaces)) == Paste(f, put);
  }

  lemma BreakEncodes(n: nat)
    ensures WellFormed([NEWLINE] + Indent(n)) && Decode([NEWLINE] + Indent(n)) == "\n" + Spaces(n)
  {
    SpacesEncode(n);
    EncodeCons('\n', Spaces(n));
    DecodeEncoded(['\n'] + Spaces(n));
  }

  lemma {:induction false} SpacesEncode(n: nat)
    ensures Encode(Spaces(n)) == Indent(n)
  {
    if n > 0 {
      SpacesEncode(n - 1);
      assert Spaces(n)[1..] == Spaces(n - 1);
      assert Encode(Spaces(n)) == [SPACE] + Indent(n - 1);
    }
  }

  // ---- Moving and deleting by one ----

  lemma BackOne(f: Flat)
    requires Ok(f) && f.at > 0
    ensures var p := PrevChar(f.text, f.at);
            p < f.at && IsBoundary(f.text, p) && WellFormed(f.text[p..f.at]) && |Decode(f.text[p..f.at])| == 1
  {
    OneCharacter(f.text, PrevChar(f.text, f.at), f.at);
  }

  lemma AheadOne(f: Flat)
    requires Ok(f) && f.at < |f.text|
    ensures var n := NextChar(f.text, f.at);
            IsBoundary(f.text, n) && WellFormed(f.text[f.at..n]) && |Decode(f.text[f.at..n])| == 1
  {
    OneCharacter(f.text, f.at, NextChar(f.text, f.at));
  }

  lemma EmptySides(f: Flat)
    requires Ok(f)
    ensures Shows(f).left == [] <==> f.at == 0
    ensures Shows(f).right == [] <==> f.at == |f.text|
  {
    SplitWellFormed(f.text, f.at);
  }

  // Left takes one character to the right side, backspace takes it away.
  lemma LeftAndBackspaceShow(f: Flat)
    requires Ok(f)
    ensures var l, r := Shows(f).left, Shows(f).right;
            var left, back := Step(f, Left), Step(f, DeleteBefore);
            && Ok(left) && Ok(back)
            && (if l == [] then left == back == f
                else Shows(left) == Page(l[..|l| - 1], [l[|l| - 1]] + r) && Shows(back) == Page(l[..|l| - 1], r))
  {
    EmptySides(f);
    LeftGoes(f);
    if f.at == 0 {
      assert Splice(f.text, 0, 0, []) == f.text;
    } else {
      StepBack(f, PrevChar(f.text, f.at));
    }
  }

  lemma LeftGoes(f: Flat)
    requires InText(f)
    ensures var p := PrevChar(f.text, f.at);
            Step(f, Left) == Flat(f.text, p) && Step(f, DeleteBefore) == DeleteBackTo(f, p)
  {
  }

  lemma StepBack(f: Flat, p: nat)
    requires Ok(f) && f.at > 0 && p == PrevChar(f.text, f.at)
    ensures Ok(Flat(f.text, p)) && Ok(DeleteBackTo(f, p)) && Shows(f).left != []
    ensures var l, r := Shows(f).left, Shows(f).right;
            && Shows(Flat(f.text, p)) == Page(l[..|l| - 1], [l[|l| - 1]] + r)
            && Shows(DeleteBackTo(f, p)) == Page(l[..|l| - 1], r)
  {
    BackOne(f);
    CutLeft(f.text, p, f.at);
    CutRight(f.text, p, f.at);
    CutOut(f.text, p, f.at);
    LastOne(Shows(Flat(f.text, p)).left, Decode(f.text[p..f.at]));
  }

  lemma LastOne(a: string, c: string)
    requires |c| == 1
    ensures (a + c)[..|a + c| - 1] == a && [(a + c)[|a + c| - 1]] == c
  {
  }

  // Right takes one character to the left side, delete takes it away.
  lemma RightAndDeleteShow(f: Flat)
    requires Ok(f)
    ensures var l, r := Shows(f).left, Shows(f).right;
            var right, del := Step(f, Right), Step(f, DeleteAt);
            && Ok(right) && Ok(del)
            && (if r == [] then right == del == f
                else Shows(right) == Page(l + [r[0]], r[1..]) && Shows(del) == Page(l, r[1..]))
  {
    EmptySides(f);
    RightGoes(f);
    if f.at < |f.text| {
      StepAhead(f, NextChar(f.text, f.at));
    }
  }

  lemma RightGoes(f: Flat)
    requires InText(f)
    ensures f.at == |f.text| ==> Step(f, Right) == Step(f, DeleteAt) == f
    ensures f.at < |f.text| ==>
              var n := NextChar(f.text, f.at);
              Step(f, Right) == Flat(f.text, n) && Step(f, DeleteAt) == Flat(Splice(f.text, f.at, n, []), f.at)
  {
  }

  lemma StepAhead(f: Flat, n: nat)
    requires Ok(f) && f.at < |f.text| && n == NextChar(f.text, f.at)
    ensures var del := Flat(Splice(f.text, f.at, n, []), f.at);
            && Ok(Flat(f.text, n)) && Ok(del) && Shows(f).right != []
            && var l, r := Shows(f).left, Shows(f).right;
            Shows(Flat(f.text, n)) == Page(l + [r[0]], r[1..]) && Shows(del) == Page(l, r[1..])
  {
    AheadOne(f);
    CutLeft(f.text, f.at, n);
    CutRight(f.text, f.at, n);
    CutOut(f.text, f.at, n);
    FirstOne(Decode(f.text[f.at..n]), Shows(Flat(f.text, n)).right);
  }

  lemma FirstOne(c: string, b: string)
    requires |c| == 1
    ensures (c + b)[1..] == b && [(c + b)[0]] == c
  {
  }

  // ---- Lines ----

  // The start of a line is the place after the last line break, or the start.
  lemma {:induction false} LineStartExactly(s: Bytes, i: nat, l: nat)
    requires l <= i <= |s|
    ensures l == LineStart(s, i) <==> NEWLINE !in s[l..i] && (l == 0 || s[l - 1] == NEWLINE)
  {
    if i == 0 || s[i - 1] == NEWLINE {
      if l < i {
        assert s[l..i][i - 1 - l] == s[i - 1];
      }
    } else if l < i {
      LineStartExactly(s, i - 1, l);
      assert s[l..i] == s[l..i - 1] + [s[i - 1]];
    } else {
      assert LineStart(s, i) <= i - 1;
    }
  }

  // The end of a line is the place before the next line break, or the end.
  lemma {:induction false} LineEndExactly(s: Bytes, i: nat, e: nat)
    requires i <= e <= |s|
    ensures e == LineEnd(s, i) <==> NEWLINE !in s[i..e] && (e == |s| || s[e] == NEWLINE)
    decreases |s| - i
  {
    if i == |s| || s[i] == NEWLINE {
      if i < e {
        assert s[i..e][0] == s[i];
      }
    } else if i < e {
      LineEndExactly(s, i + 1, e);
      assert s[i..e] == [s[i]] + s[i + 1..e];
    } else {
      assert LineEnd(s, i) >= i + 1;
    }
  }

  predicate StartsLine(left: string) {
    left == [] || left[|left| - 1] == '\n'
  }

  predicate EndsLine(right: string) {
    right == [] || right[0] == '\n'
  }

  // A place after a byte of ASCII is after its character.
  lemma AfterAscii(s: Bytes, p: nat, c: char)
    requires WellFormed(s) && 0 < p <= |s| && s[p - 1] == c as int && c as int < 0x80
    ensures IsBoundary(s, p) && Shows(Flat(s, p)).left != []
    ensures Shows(Flat(s, p)).left[|Shows(Flat(s, p)).left| - 1] == c
  {
    BoundaryAfterAscii(s, p);
    FirstCharBytesAt(s, p - 1);
    CutLeft(s, p - 1, p);
    AsciiAlone(s[p - 1..p], c);
  }

  lemma AsciiAlone(t: Bytes, c: char)
    requires c as int < 0x80 && t == [c as int]
    ensures WellFormed(t) && Decode(t) == [c]
  {
    DecodeEncoded([c]);
    assert Encode([c]) == t;
  }

  lemma FirstCharBytesAt(s: Bytes, i: nat)
    requires WellFormed(s) && i < |s| && s[i] < 0x80
    ensures IsBoundary(s, i)
  {
  }

  lemma BeforeAscii(s: Bytes, p: nat, c: char)
    requires WellFormed(s) && p < |s| && s[p] == c as int && c as int < 0x80
    ensures IsBoundary(s, p) && Shows(Flat(s, p)).right != [] && Shows(Flat(s, p)).right[0] == c
  {
    FirstCharBytesAt(s, p);
    BoundaryAfterAscii(s, p + 1);
    CutRight(s, p, p + 1);
    AsciiAlone(s[p..p + 1], c);
  }

  lemma LineEndsAreBoundaries(f: Flat)
    requires Ok(f)
    ensures IsBoundary(f.text, LineStart(f.text, f.at)) && IsBoundary(f.text, LineEnd(f.text, f.at))
  {
    var l, e := LineStart(f.text, f.at), LineEnd(f.text, f.at);
    LineStartExactly(f.text, f.at, l);
    LineEndExactly(f.text, f.at, e);
    if l > 0 {
      BoundaryAfterAscii(f.text, l);
    }
  }

  // Home goes to the start of the line, over a part without a line break.
  lemma HomeShows(f: Flat) returns (passed: string)
    requires Ok(f)
    ensures var g := Step(f, Home);
            && Ok(g) && StartsLine(Shows(g).left) && '\n' !in passed
            && Shows(f).left == Shows(g).left + passed && Shows(g).right == passed + Shows(f).right
  {
    var l := LineStart(f.text, f.at);
    LineGoes(f);
    LineStartExactly(f.text, f.at, l);
    if l > 0 {
      AfterAscii(f.text, l, '\n');
    }
    CutLeft(f.text, l, f.at);
    CutRight(f.text, l, f.at);
    AsciiInText(f.text[l..f.at], '\n');
    passed := Decode(f.text[l..f.at]);
  }

  // End goes to the end of the line likewise.
  lemma EndShows(f: Flat) returns (passed: string)
    requires Ok(f)
    ensures var g := Step(f, End);
            && Ok(g) && EndsLine(Shows(g).right) && '\n' !in passed
            && Shows(g).left == Shows(f).left + passed && Shows(f).right == passed + Shows(g).right
  {
    var e := LineEnd(f.text, f.at);
    LineGoes(f);
    LineEndExactly(f.text, f.at, e);
    if e < |f.text| {
      BeforeAscii(f.text, e, '\n');
    }
    CutLeft(f.text, f.at, e);
    CutRight(f.text, f.at, e);
    AsciiInText(f.text[f.at..e], '\n');
    passed := Decode(f.text[f.at..e]);
  }

  // Clearing the line takes away what is between its start and its end.
  lemma ClearLineShows(f: Flat)
    requires Ok(f)
    ensures var g := Step(f, ClearLine);
            Ok(Step(f, Home)) && Ok(Step(f, End)) && Ok(g) &&
            Shows(g) == Page(Shows(Step(f, Home)).left, Shows(Step(f, End)).right)
  {
    LineEndsAreBoundaries(f);
    LineGoes(f);
    CutOut(f.text, LineStart(f.text, f.at), LineEnd(f.text, f.at));
  }

  lemma LineGoes(f: Flat)
    requires InText(f)
    ensures var l, e := LineStart(f.text, f.at), LineEnd(f.text, f.at);
            && Step(f, Home) == Flat(f.text, l) && Step(f, End) == Flat(f.text, e)
            && Step(f, ClearLine) == Flat(Splice(f.text, l, e, []), l)
  {
  }

  // ---- Words ----

  // ASCII white space.
  predicate IsSpaceChar(c: char) {
    c == ' ' || c == '\t' || c == '\n' || c == '\r' || c == '\U{000C}'
  }

  predicate AllSpace(s: string) {
    forall c <- s :: IsSpaceChar(c)
  }

  predicate NoSpace(s: string) {
    forall c <- s :: !IsSpaceChar(c)
  }

  lemma {:induction false} SpacesDecode(t: Bytes)
    requires WellFormed(t) && forall b <- t :: IsSpace(b)
    ensures AllSpace(Decode(t))
  {
    if t != [] {
      assert IsSpace(t[0]) && FirstLen(t) == 1 && forall b <- t[1..] :: b in t;
      SpacesDecode(t[1..]);
    }
  }

  lemma OthersDecode(t: Bytes)
    requires WellFormed(t) && forall b <- t :: !IsSpace(b)
    ensures NoSpace(Decode(t))
  {
    AsciiInText(t, ' ');
    AsciiInText(t, '\t');
    AsciiInText(t, '\n');
    AsciiInText(t, '\r');
    AsciiInText(t, '\U{000C}');
  }

  lemma SpaceIsBoundary(s: Bytes, i: nat)
    requires WellFormed(s) && i < |s| && IsSpace(s[i])
    ensures IsBoundary(s, i) && IsBoundary(s, i + 1)
  {
    FirstCharBytesAt(s, i);
    BoundaryAfterAscii(s, i + 1);
  }

  // The line of the cursor starts between two characters.
  lemma LineStartIsBoundary(f: Flat)
    requires Ok(f)
    ensures var l := LineStart(f.text, f.at); IsBoundary(f.text, l) && StartsLine(Shows(Flat(f.text, l)).left)
  {
    var passed := HomeShows(f);
  }

  lemma LineEndIsBoundary(f: Flat)
    requires Ok(f)
    ensures var e := LineEnd(f.text, f.at); IsBoundary(f.text, e) && EndsLine(Shows(Flat(f.text, e)).right)
  {
    var passed := EndShows(f);
  }

  lemma WordPlaces(f: Flat, lo: nat, m: nat, p: nat)
    requires Ok(f) && lo == LineStart(f.text, f.at)
    requires m == SkipBack(f.text, lo, f.at, true) && p == SkipBack(f.text, lo, m, false)
    ensures IsBoundary(f.text, m) && IsBoundary(f.text, p)
    ensures p == lo || (IsSpace(f.text[p - 1]) && p < m)
  {
    LineEndsAreBoundaries(f);
    if m < f.at {
      SpaceIsBoundary(f.text, m);
    }
    if p > lo {
      SpaceIsBoundary(f.text, p - 1);
    }
  }

  lemma EndsInSpace(s: Bytes, p: nat)
    requires WellFormed(s) && 0 < p <= |s| && IsSpace(s[p - 1])
    ensures IsBoundary(s, p) && EndsWithSpace(Shows(Flat(s, p)).left)
  {
    AfterAscii(s, p, s[p - 1] as char);
  }

  lemma ThreeLeft(s: Bytes, p: nat, m: nat, i: nat)
    requires WellFormed(s) && p <= m <= i <= |s| && IsBoundary(s, p) && IsBoundary(s, m) && IsBoundary(s, i)
    ensures WellFormed(s[p..m]) && WellFormed(s[m..i])
    ensures Shows(Flat(s, i)).left == Shows(Flat(s, p)).left + (Decode(s[p..m]) + Decode(s[m..i]))
  {
    CutLeft(s, p, m);
    CutLeft(s, m, i);
    Grouped(Shows(Flat(s, p)).left, Decode(s[p..m]), Decode(s[m..i]));
  }

  lemma ThreeRight(s: Bytes, p: nat, m: nat, i: nat)
    requires WellFormed(s) && p <= m <= i <= |s| && IsBoundary(s, p) && IsBoundary(s, m) && IsBoundary(s, i)
    ensures WellFormed(s[p..m]) && WellFormed(s[m..i])
    ensures Shows(Flat(s, p)).right == (Decode(s[p..m]) + Decode(s[m..i])) + Shows(Flat(s, i)).right
  {
    CutRight(s, p, m);
    CutRight(s, m, i);
    Grouped(Decode(s[p..m]), Decode(s[m..i]), Shows(Flat(s, i)).right);
  }

  lemma Grouped(a: string, b: string, c: string)
    ensures (a + b) + c == a + (b + c)
  {
  }

  // Two pages of one text, `p` before `i`: a word and white space between them.
  ghost predicate Passes(p: Page, i: Page, word: string, gap: string) {
    && NoSpace(word) && AllSpace(gap) && '\n' !in gap
    && i.left == p.left + (word + gap) && p.right == (word + gap) + i.right
  }

  // A word motion to the left, inside a line: over the white space before the
  // cursor and the word before that, to the start of a word or of the line.
  lemma WordLeftShows(f: Flat) returns (word: string, gap: string)
    requires Ok(f) && !StartsLine(Shows(f).left)
    ensures var g := Step(f, WordLeft);
            && Ok(g) && Passes(Shows(g), Shows(f), word, gap)
            && (StartsLine(Shows(g).left) || (word != [] && EndsWithSpace(Shows(g).left)))
  {
    var lo := LineStart(f.text, f.at);
    AtLineStart(f);
    WordLeftGoes(f, lo);
    word, gap := WordLeftPasses(f, lo, SkipBack(f.text, lo, f.at, true), WordStart(f.text, lo, f.at));
  }

  predicate EndsWithSpace(s: string) {
    s != [] && IsSpaceChar(s[|s| - 1])
  }

  lemma WordLeftGoes(f: Flat, lo: nat)
    requires InText(f) && lo == LineStart(f.text, f.at)
    ensures f.at != lo ==> Step(f, WordLeft) == Flat(f.text, WordStart(f.text, lo, f.at))
    ensures f.at == lo ==> Step(f, WordLeft) == Step(f, Left)
    ensures Step(f, DeleteWordBefore) == DeleteBackTo(f, WordStart(f.text, lo, f.at))
  {
  }

  lemma WordLeftPasses(f: Flat, lo: nat, m: nat, p: nat) returns (word: string, gap: string)
    requires Ok(f) && lo == LineStart(f.text, f.at)
    requires m == SkipBack(f.text, lo, f.at, true) && p == SkipBack(f.text, lo, m, false)
    ensures var g := Flat(f.text, p);
            && Ok(g) && Passes(Shows(g), Shows(f), word, gap)
            && (StartsLine(Shows(g).left) || (word != [] && EndsWithSpace(Shows(g).left)))
  {
    WordPlaces(f, lo, m, p);
    ThreeLeft(f.text, p, m, f.at);
    ThreeRight(f.text, p, m, f.at);
    PartsAreWordAndGap(f, lo, m, p);
    word, gap := Decode(f.text[p..m]), Decode(f.text[m..f.at]);
    if p > lo {
      EndsInSpace(f.text, p);
    } else {
      LineStartIsBoundary(f);
    }
  }

  lemma PartsAreWordAndGap(f: Flat, lo: nat, m: nat, p: nat)
    requires Ok(f) && lo == LineStart(f.text, f.at)
    requires m == SkipBack(f.text, lo, f.at, true) && p == SkipBack(f.text, lo, m, false)
    requires WellFormed(f.text[p..m]) && WellFormed(f.text[m..f.at])
    ensures NoSpace(Decode(f.text[p..m])) && AllSpace(Decode(f.text[m..f.at]))
    ensures '\n' !in Decode(f.text[m..f.at]) && (p < m ==> Decode(f.text[p..m]) != [])
  {
    OthersDecode(f.text[p..m]);
    LineStartExactly(f.text, f.at, lo);
    SpacesInLine(f.text, lo, f.at, m, f.at);
  }

  // Deleting a word deletes back to where the word motion goes.
  lemma DeleteWordShows(f: Flat)
    requires Ok(f) && !StartsLine(Shows(f).left)
    ensures Ok(Step(f, DeleteWordBefore)) && Ok(Step(f, WordLeft))
    ensures Shows(Step(f, DeleteWordBefore)) == Page(Shows(Step(f, WordLeft)).left, Shows(f).right)
  {
    var lo := LineStart(f.text, f.at);
    AtLineStart(f);
    WordLeftGoes(f, lo);
    DeletedWord(f, lo, SkipBack(f.text, lo, f.at, true), WordStart(f.text, lo, f.at));
  }

  // At the start of a line it deletes nothing, and the word motion goes to the line
  // before.
  lemma DeleteWordAtLineStart(f: Flat)
    requires Ok(f) && StartsLine(Shows(f).left)
    ensures Step(f, DeleteWordBefore) == f && Step(f, WordLeft) == Step(f, Left)
  {
    var lo := LineStart(f.text, f.at);
    AtLineStart(f);
    WordLeftGoes(f, lo);
    assert Splice(f.text, lo, lo, []) == f.text;
  }

  lemma DeletedWord(f: Flat, lo: nat, m: nat, p: nat)
    requires Ok(f) && lo == LineStart(f.text, f.at)
    requires m == SkipBack(f.text, lo, f.at, true) && p == SkipBack(f.text, lo, m, false)
    ensures Ok(DeleteBackTo(f, p)) && Ok(Flat(f.text, p))
    ensures Shows(DeleteBackTo(f, p)) == Page(Shows(Flat(f.text, p)).left, Shows(f).right)
  {
    WordPlaces(f, lo, m, p);
    CutOut(f.text, p, f.at);
  }

  lemma AtLineStart(f: Flat)
    requires Ok(f)
    ensures StartsLine(Shows(f).left) <==> f.at == LineStart(f.text, f.at)
  {
    var l := LineStart(f.text, f.at);
    LineStartIsBoundary(f);
    LineStartExactly(f.text, f.at, l);
    if l < f.at {
      LastByte(f, l);
    }
  }

  // The last character before a place is no line break when the last byte is none.
  lemma LastByte(f: Flat, l: nat)
    requires Ok(f) && l < f.at && IsBoundary(f.text, l) && NEWLINE !in f.text[l..f.at]
    ensures Shows(f).left != [] && Shows(f).left[|Shows(f).left| - 1] != '\n'
  {
    CutLeft(f.text, l, f.at);
    var part := Decode(f.text[l..f.at]);
    AsciiInText(f.text[l..f.at], '\n');
    assert part != [] && part[|part| - 1] in part;
  }

  // A word motion to the right, inside a line: over the rest of the word and the
  // white space after it, to the start of a word or the end of the line.
  lemma WordRightShows(f: Flat) returns (word: string, gap: string)
    requires Ok(f) && !EndsLine(Shows(f).right)
    ensures var g := Step(f, WordRight);
            && Ok(g) && Passes(Shows(f), Shows(g), word, gap)
            && (EndsLine(Shows(g).right) || !IsSpaceChar(Shows(g).right[0]))
  {
    var hi := LineEnd(f.text, f.at);
    LineEndIsBoundary(f);
    WordRightGoes(f, hi);
    word, gap := WordRightPasses(f, hi, SkipForward(f.text, hi, f.at, false), NextWord(f.text, hi, f.at));
  }

  lemma WordRightGoes(f: Flat, hi: nat)
    requires InText(f) && hi == LineEnd(f.text, f.at)
    ensures f.at != hi ==> Step(f, WordRight) == Flat(f.text, NextWord(f.text, hi, f.at))
    ensures f.at == hi ==> Step(f, WordRight) == Step(f, Right)
  {
  }

  lemma WordRightPasses(f: Flat, hi: nat, m: nat, p: nat) returns (word: string, gap: string)
    requires Ok(f) && hi == LineEnd(f.text, f.at)
    requires m == SkipForward(f.text, hi, f.at, false) && p == SkipForward(f.text, hi, m, true)
    ensures var g := Flat(f.text, p);
            && Ok(g) && Passes(Shows(f), Shows(g), word, gap)
            && (EndsLine(Shows(g).right) || !IsSpaceChar(Shows(g).right[0]))
  {
    LineEndsAreBoundaries(f);
    NextWordPlaces(f, hi, m, p);
    ThreeLeft(f.text, f.at, m, p);
    ThreeRight(f.text, f.at, m, p);
    NextParts(f, hi, m, p);
    word, gap := Decode(f.text[f.at..m]), Decode(f.text[m..p]);
    StopsRight(f, hi, p);
  }

  lemma StopsRight(f: Flat, hi: nat, p: nat)
    requires Ok(f) && hi == LineEnd(f.text, f.at) && f.at <= p <= hi && IsBoundary(f.text, p)
    requires p < hi ==> !IsSpace(f.text[p])
    ensures EndsLine(Shows(Flat(f.text, p)).right) || !IsSpaceChar(Shows(Flat(f.text, p)).right[0])
  {
    if p < hi {
      FirstIsNoSpace(f.text, p);
    } else {
      LineEndIsBoundary(f);
    }
  }

  lemma NextWordPlaces(f: Flat, hi: nat, m: nat, p: nat)
    requires Ok(f) && hi == LineEnd(f.text, f.at) && IsBoundary(f.text, hi)
    requires m == SkipForward(f.text, hi, f.at, false) && p == SkipForward(f.text, hi, m, true)
    ensures IsBoundary(f.text, m) && IsBoundary(f.text, p)
  {
    if m < hi {
      SpaceIsBoundary(f.text, m);
    }
    if m < p {
      SpaceIsBoundary(f.text, p - 1);
    }
  }

  lemma SpacesInLine(s: Bytes, a: nat, b: nat, m: nat, p: nat)
    requires a <= m <= p <= b <= |s| && NEWLINE !in s[a..b]
    requires WellFormed(s[m..p]) && forall k | m <= k < p :: IsSpace(s[k])
    ensures AllSpace(Decode(s[m..p])) && '\n' !in Decode(s[m..p])
  {
    SpacesDecode(s[m..p]);
    AsciiInText(s[m..p], '\n');
    assert forall c <- s[m..p] :: c in s[a..b];
  }

  lemma NextParts(f: Flat, hi: nat, m: nat, p: nat)
    requires Ok(f) && hi == LineEnd(f.text, f.at)
    requires m == SkipForward(f.text, hi, f.at, false) && p == SkipForward(f.text, hi, m, true)
    requires WellFormed(f.text[f.at..m]) && WellFormed(f.text[m..p])
    ensures NoSpace(Decode(f.text[f.at..m])) && AllSpace(Decode(f.text[m..p])) && '\n' !in Decode(f.text[m..p])
  {
    OthersDecode(f.text[f.at..m]);
    LineEndExactly(f.text, f.at, hi);
    SpacesInLine(f.text, f.at, hi, m, p);
  }

  lemma FirstIsNoSpace(s: Bytes, p: nat)
    requires WellFormed(s) && p < |s| && IsBoundary(s, p) && !IsSpace(s[p])
    ensures Shows(Flat(s, p)).right != [] && !IsSpaceChar(Shows(Flat(s, p)).right[0])
  {
    SplitWellFormed(s, p);
    assert s[p..][0] == s[p];
    LeadOfFirst(s[p..]);
  }

  lemma LeadOfFirst(s: Bytes)
    requires FirstLen(s) > 0
    ensures FirstChar(s) as int < 0x80 ==> s[0] == FirstChar(s) as int
  {
  }
}
