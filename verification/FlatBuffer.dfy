// The editor as a reader thinks of it: one text with one cursor. A line break is
// a character like any other, except that word motions stop at it.
module FlatBuffer {
  import opened Utf8

  const NEWLINE: byte := 10
  const SPACE: byte := 32

  datatype Flat = Flat(text: Bytes, at: nat)

  datatype EditOp =
    | Insert(ch: char) | DeleteBefore | DeleteAt
    | Left | Right | Home | End | WordLeft | WordRight
    | ClearLine | DeleteWordBefore | NewLine(spaces: nat)

  // The cursor is between two characters of a well-formed text.
  predicate Ok(f: Flat) {
    WellFormed(f.text) && f.at <= |f.text| && IsBoundary(f.text, f.at)
  }

  predicate IsSpace(b: byte) {
    b == 9 || b == 10 || b == 12 || b == 13 || b == 32
  }

  function PrevChar(s: Bytes, i: nat): (p: nat)
    requires i <= |s|
    ensures p <= i
  {
    if i == 0 then 0 else FloorBoundary(s, i - 1)
  }

  function NextChar(s: Bytes, i: nat): (n: nat)
    requires i < |s|
    ensures i < n <= |s|
  {
    CeilBoundary(s, i + 1)
  }

  function LineStart(s: Bytes, i: nat): (l: nat)
    requires i <= |s|
    ensures l <= i
  {
    if i > 0 && s[i - 1] != NEWLINE then LineStart(s, i - 1) else i
  }

  function LineEnd(s: Bytes, i: nat): (l: nat)
    requires i <= |s|
    ensures i <= l <= |s|
    decreases |s| - i
  {
    if i < |s| && s[i] != NEWLINE then LineEnd(s, i + 1) else i
  }

  // Back over a run of bytes that are, or are not, white space; not before `lo`.
  function SkipBack(s: Bytes, lo: nat, i: nat, space: bool): (p: nat)
    requires lo <= i <= |s|
    ensures lo <= p <= i
    ensures forall k | p <= k < i :: IsSpace(s[k]) == space
    ensures p > lo ==> IsSpace(s[p - 1]) != space
  {
    if i > lo && IsSpace(s[i - 1]) == space then SkipBack(s, lo, i - 1, space) else i
  }

  function SkipForward(s: Bytes, hi: nat, i: nat, space: bool): (p: nat)
    requires i <= hi <= |s|
    ensures i <= p <= hi
    ensures forall k | i <= k < p :: IsSpace(s[k]) == space
    ensures p < hi ==> IsSpace(s[p]) != space
    decreases hi - i
  {
    if i < hi && IsSpace(s[i]) == space then SkipForward(s, hi, i + 1, space) else i
  }

  // The start of the word before `i`, and of the one after it, in a line.
  function WordStart(s: Bytes, lo: nat, i: nat): (p: nat)
    requires lo <= i <= |s|
    ensures lo <= p <= i
  {
    SkipBack(s, lo, SkipBack(s, lo, i, true), false)
  }

  function NextWord(s: Bytes, hi: nat, i: nat): (p: nat)
    requires i <= hi <= |s|
    ensures i <= p <= hi
  {
    SkipForward(s, hi, SkipForward(s, hi, i, false), true)
  }

  // Replaces the bytes from `a` to `b`.
  function Splice(s: Bytes, a: nat, b: nat, put: Bytes): Bytes
    requires a <= b <= |s|
  {
    s[..a] + put + s[b..]
  }

  function Indent(spaces: nat): (s: Bytes)
    ensures |s| == spaces && forall i | 0 <= i < spaces :: s[i] == SPACE
  {
    seq(spaces, _ => SPACE)
  }

  // ---- The operations ----

  predicate InText(f: Flat) {
    f.at <= |f.text|
  }

  // Pastes at the cursor, which ends up after the pasted bytes.
  function Paste(f: Flat, put: Bytes): (g: Flat)
    requires InText(f)
    ensures InText(g)
  {
    Flat(Splice(f.text, f.at, f.at, put), f.at + |put|)
  }

  // Deletes from `p` to the cursor.
  function DeleteBackTo(f: Flat, p: nat): (g: Flat)
    requires p <= f.at && InText(f)
    ensures InText(g)
  {
    Flat(Splice(f.text, p, f.at, []), p)
  }

  function Backspace(f: Flat): (g: Flat)
    requires InText(f)
    ensures InText(g)
  {
    DeleteBackTo(f, PrevChar(f.text, f.at))
  }

  function DeleteForward(f: Flat): (g: Flat)
    requires InText(f)
    ensures InText(g)
  {
    if f.at < |f.text| then Flat(Splice(f.text, f.at, NextChar(f.text, f.at), []), f.at) else f
  }

  function GoLeft(f: Flat): (g: Flat)
    requires InText(f)
    ensures InText(g)
  {
    Flat(f.text, PrevChar(f.text, f.at))
  }

  function GoRight(f: Flat): (g: Flat)
    requires InText(f)
    ensures InText(g)
  {
    if f.at < |f.text| then Flat(f.text, NextChar(f.text, f.at)) else f
  }

  function GoHome(f: Flat): (g: Flat)
    requires InText(f)
    ensures InText(g)
  {
    Flat(f.text, LineStart(f.text, f.at))
  }

  function GoEnd(f: Flat): (g: Flat)
    requires InText(f)
    ensures InText(g)
  {
    Flat(f.text, LineEnd(f.text, f.at))
  }

  function GoWordLeft(f: Flat): (g: Flat)
    requires InText(f)
    ensures InText(g)
  {
    var lo := LineStart(f.text, f.at);
    if f.at == lo then GoLeft(f) else Flat(f.text, WordStart(f.text, lo, f.at))
  }

  function GoWordRight(f: Flat): (g: Flat)
    requires InText(f)
    ensures InText(g)
  {
    var hi := LineEnd(f.text, f.at);
    if f.at == hi then GoRight(f) else Flat(f.text, NextWord(f.text, hi, f.at))
  }

  function EmptyLine(f: Flat): (g: Flat)
    requires InText(f)
    ensures InText(g)
  {
    var lo, hi := LineStart(f.text, f.at), LineEnd(f.text, f.at);
    Flat(Splice(f.text, lo, hi, []), lo)
  }

  // Nothing happens at the start of a line.
  function DeleteWordBack(f: Flat): (g: Flat)
    requires InText(f)
    ensures InText(g)
  {
    DeleteBackTo(f, WordStart(f.text, LineStart(f.text, f.at), f.at))
  }

  function Break(f: Flat, spaces: nat): (g: Flat)
    requires InText(f)
    ensures InText(g)
  {
    Paste(f, [NEWLINE] + Indent(spaces))
  }

  function Step(f: Flat, op: EditOp): (g: Flat)
    requires InText(f)
    ensures InText(g)
  {
    match op
    case Insert(ch) => Paste(f, EncodeChar(ch))
    case DeleteBefore => Backspace(f)
    case DeleteAt => DeleteForward(f)
    case Left => GoLeft(f)
    case Right => GoRight(f)
    case Home => GoHome(f)
    case End => GoEnd(f)
    case WordLeft => GoWordLeft(f)
    case WordRight => GoWordRight(f)
    case ClearLine => EmptyLine(f)
    case DeleteWordBefore => DeleteWordBack(f)
    case NewLine(spaces) => Break(f, spaces)
  }

  function Run(f: Flat, ops: seq<EditOp>): (g: Flat)
    requires InText(f)
    ensures InText(g)
  {
    if ops == [] then f else Step(Run(f, ops[..|ops| - 1]), ops[|ops| - 1])
  }

  // ---- Laws ----

  // Neighbouring boundaries are each other's next and previous one.
  lemma NextThenPrev(s: Bytes, i: nat)
    requires i < |s| && IsBoundary(s, i)
    ensures PrevChar(s, NextChar(s, i)) == i
  {
  }

  lemma PrevThenNext(s: Bytes, i: nat)
    requires 0 < i <= |s| && IsBoundary(s, i)
    ensures NextChar(s, PrevChar(s, i)) == i
  {
  }

  lemma LeftAndRightAreInverse(f: Flat)
    requires Ok(f)
    ensures f.at < |f.text| ==> GoLeft(GoRight(f)) == f
    ensures f.at > 0 ==> GoRight(GoLeft(f)) == f
  {
    if f.at < |f.text| {
      NextThenPrev(f.text, f.at);
    }
    if f.at > 0 {
      PrevThenNext(f.text, f.at);
    }
  }

  lemma FloorIs(s: Bytes, j: nat, b: nat)
    requires b <= j <= |s| && IsBoundary(s, b) && forall k | b < k <= j :: !IsBoundary(s, k)
    ensures FloorBoundary(s, j) == b
  {
  }

  // Typing a character and deleting it backwards changes nothing.
  lemma BackspaceUndoesTyping(f: Flat, ch: char)
    requires Ok(f)
    ensures Backspace(Paste(f, EncodeChar(ch))) == f
  {
    var e, i := EncodeChar(ch), f.at;
    var s := Splice(f.text, i, i, e);
    PastedChar(f.text, i, ch);
    FloorIs(s, i + |e| - 1, i);
    assert s[..i] == f.text[..i] && s[i + |e|..] == f.text[i..];
  }

  lemma PastedChar(s: Bytes, i: nat, ch: char)
    requires i <= |s|
    ensures var e := EncodeChar(ch);
            var t := Splice(s, i, i, e);
            IsBoundary(t, i) && forall k | i < k < i + |e| :: !IsBoundary(t, k)
  {
    var e := EncodeChar(ch);
    var t := Splice(s, i, i, e);
    LeadRanges(ch);
    FirstCharBytes(e);
    assert t[i] == e[0];
    forall k | i < k < i + |e|
      ensures !IsBoundary(t, k)
    {
      assert t[k] == e[k - i];
    }
  }

  // Deleting forwards is stepping over the character and deleting it backwards.
  lemma DeleteForwardIsRightThenBackspace(f: Flat)
    requires Ok(f) && f.at < |f.text|
    ensures DeleteForward(f) == Backspace(GoRight(f))
  {
    NextThenPrev(f.text, f.at);
  }

  // A word motion stops where a run of white space, then a run of anything else,
  // begins; there is only one such place.
  predicate IsWordStart(s: Bytes, lo: nat, p: nat, m: nat, i: nat)
    requires lo <= p <= m <= i <= |s|
  {
    && (forall k | m <= k < i :: IsSpace(s[k])) && (m > lo ==> !IsSpace(s[m - 1]))
    && (forall k | p <= k < m :: !IsSpace(s[k])) && (p > lo ==> IsSpace(s[p - 1]))
  }

  lemma WordStartExactly(s: Bytes, lo: nat, p: nat, i: nat)
    requires lo <= p <= i <= |s|
    ensures p == WordStart(s, lo, i) <==> exists m: nat | p <= m <= i :: IsWordStart(s, lo, p, m, i)
  {
    var m := SkipBack(s, lo, i, true);
    assert IsWordStart(s, lo, WordStart(s, lo, i), m, i);
    forall n: nat | p <= n <= i && IsWordStart(s, lo, p, n, i)
      ensures p == WordStart(s, lo, i)
    {
      SameRun(s, lo, m, n, i, true);
      SameRun(s, lo, WordStart(s, lo, i), p, m, false);
    }
  }

  predicate IsNextWord(s: Bytes, hi: nat, i: nat, m: nat, p: nat)
    requires i <= m <= p <= hi <= |s|
  {
    && (forall k | i <= k < m :: !IsSpace(s[k])) && (m < hi ==> IsSpace(s[m]))
    && (forall k | m <= k < p :: IsSpace(s[k])) && (p < hi ==> !IsSpace(s[p]))
  }

  // Likewise forwards: past the rest of the word and the white space after it.
  lemma NextWordExactly(s: Bytes, hi: nat, i: nat, p: nat)
    requires i <= p <= hi <= |s|
    ensures p == NextWord(s, hi, i) <==> exists m: nat | i <= m <= p :: IsNextWord(s, hi, i, m, p)
  {
    var m := SkipForward(s, hi, i, false);
    assert IsNextWord(s, hi, i, m, NextWord(s, hi, i));
    forall n: nat | i <= n <= p && IsNextWord(s, hi, i, n, p)
      ensures p == NextWord(s, hi, i)
    {
      SameRunForward(s, hi, m, n, i, false);
      SameRunForward(s, hi, NextWord(s, hi, i), p, m, true);
    }
  }

  lemma SameRunForward(s: Bytes, hi: nat, m: nat, n: nat, i: nat, space: bool)
    requires i <= m <= hi <= |s| && i <= n <= hi
    requires (forall k | i <= k < m :: IsSpace(s[k]) == space) && (m < hi ==> IsSpace(s[m]) != space)
    requires (forall k | i <= k < n :: IsSpace(s[k]) == space) && (n < hi ==> IsSpace(s[n]) != space)
    ensures m == n
  {
  }

  lemma SameRun(s: Bytes, lo: nat, m: nat, n: nat, i: nat, space: bool)
    requires lo <= m <= i <= |s| && lo <= n <= i
    requires (forall k | m <= k < i :: IsSpace(s[k]) == space) && (m > lo ==> IsSpace(s[m - 1]) != space)
    requires (forall k | n <= k < i :: IsSpace(s[k]) == space) && (n > lo ==> IsSpace(s[n - 1]) != space)
    ensures m == n
  {
  }
}
