// The command history: a bounded list without adjacent repetition, and the file
// it is kept in. A multi-line entry is stored on one line, with the record
// separator in place of its line breaks.
module History {
  import opened Wrappers

  const RECORD_SEPARATOR: char := '\U{1E}'

  // Unicode White_Space, which trimming removes.
  predicate IsWhitespace(c: char) {
    var n := c as int;
    9 <= n <= 13 || n == 0x20 || n == 0x85 || n == 0xA0 || n == 0x1680 || 0x2000 <= n <= 0x200A ||
    n == 0x2028 || n == 0x2029 || n == 0x202F || n == 0x205F || n == 0x3000
  }

  function Replace(s: string, from: char, to: char): (r: string)
    ensures |r| == |s|
    ensures forall i | 0 <= i < |s| :: r[i] == if s[i] == from then to else s[i]
  {
    seq(|s|, i requires 0 <= i < |s| => if s[i] == from then to else s[i])
  }

  function Without(s: string, c: char): (r: string)
    ensures c !in r
  {
    if s == [] then [] else (if s[0] == c then [] else [s[0]]) + Without(s[1..], c)
  }

  function TrimStart(s: string): (r: string)
    ensures r != [] ==> !IsWhitespace(r[0])
    ensures forall c | c in r :: c in s
  {
    if s != [] && IsWhitespace(s[0]) then TrimStart(s[1..]) else s
  }

  function TrimEnd(s: string): (r: string)
    ensures r != [] ==> !IsWhitespace(r[|r| - 1])
    ensures r <= s
  {
    if s != [] && IsWhitespace(s[|s| - 1]) then TrimEnd(s[..|s| - 1]) else s
  }

  function Trim(s: string): string {
    TrimEnd(TrimStart(s))
  }

  // What `push` stores of an entry.
  function Cleaned(entry: string): string {
    Trim(Without(entry, RECORD_SEPARATOR))
  }

  // The latest `max` entries.
  function Truncated(entries: seq<string>, max: nat): (r: seq<string>)
    ensures |r| == Min(max, |entries|)
  {
    if |entries| > max then entries[|entries| - max..] else entries
  }

  function Pushed(entries: seq<string>, entry: string, max: nat): seq<string> {
    Remembered(entries, Cleaned(entry), max)
  }

  function Remembered(entries: seq<string>, e: string, max: nat): seq<string> {
    if e == [] then entries
    else if entries != [] && entries[|entries| - 1] == e then entries
    else Truncated(entries + [e], max)
  }

  // The entry at a recency index, 0 for the latest.
  function Recent(entries: seq<string>, k: nat): Option<string> {
    if k >= |entries| then None else Some(entries[|entries| - 1 - k])
  }

  // A new entry is the latest, and every other one is one place older; a blank one
  // and a repetition of the latest change nothing.
  lemma RememberedRecency(entries: seq<string>, e: string, max: nat)
    ensures var now := Remembered(entries, e, max);
            if e == [] || Recent(entries, 0) == Some(e) then now == entries
            else forall k: nat | k < max :: Recent(now, k) == if k == 0 then Some(e) else Recent(entries, k - 1)
  {
    var now, longer := Remembered(entries, e, max), entries + [e];
    if e != [] && Recent(entries, 0) != Some(e) {
      forall k: nat | k < max
        ensures Recent(now, k) == if k == 0 then Some(e) else Recent(entries, k - 1)
      {
        assert k < |now| ==> now[|now| - 1 - k] == longer[|longer| - 1 - k];
      }
    }
  }

  // ---- The file ----

  function Join(lines: seq<string>): string {
    if lines == [] then []
    else if |lines| == 1 then lines[0]
    else lines[0] + "\n" + Join(lines[1..])
  }

  function Encoded(entries: seq<string>): seq<string> {
    seq(|entries|, i requires 0 <= i < |entries| => Replace(entries[i], '\n', RECORD_SEPARATOR))
  }

  function FileText(entries: seq<string>): string {
    Join(Encoded(entries)) + "\n"
  }

  // The part of `s` before its first line break.
  function FirstLine(s: string): (l: string)
    ensures l <= s && '\n' !in l
    ensures |l| < |s| ==> s[|l|] == '\n'
  {
    if s == [] || s[0] == '\n' then [] else [s[0]] + FirstLine(s[1..])
  }

  function WithoutReturn(l: string): string {
    if l != [] && l[|l| - 1] == '\r' then l[..|l| - 1] else l
  }

  // The lines of a text: a line break ends a line, and takes a carriage return
  // before it along.
  function Lines(s: string): seq<string>
    decreases |s|
  {
    if s == [] then []
    else
      var l := FirstLine(s);
      if l == s then [l] else [WithoutReturn(l)] + Lines(s[|l| + 1..])
  }

  predicate IsHeader(line: string) {
    "#V2" <= line
  }

  function Decoded(lines: seq<string>): seq<string> {
    if lines == [] then []
    else
      (if IsHeader(lines[0]) || lines[0] == [] then [] else [Replace(lines[0], RECORD_SEPARATOR, '\n')]) +
      Decoded(lines[1..])
  }

  function Loaded(content: string, max: nat): seq<string> {
    Truncated(Decoded(Lines(content)), max)
  }

  // ---- Search ----

  predicate Contains(s: string, part: string) {
    exists k | 0 <= k <= |s| :: part <= s[k..]
  }

  // Hits among the entries before position `i`, latest first, as recency indices.
  function SearchBefore(entries: seq<string>, i: nat, query: string, lower: string -> string): seq<nat>
    requires i <= |entries|
  {
    if i == 0 then []
    else
      var rest := SearchBefore(entries, i - 1, query, lower);
      if Contains(lower(entries[i - 1]), lower(query)) then [|entries| - i] + rest else rest
  }

  // `lower` maps a text to lower case.
  function Search(entries: seq<string>, query: string, lower: string -> string): seq<nat> {
    if query == [] then [] else SearchBefore(entries, |entries|, query, lower)
  }

  // ---- The history object ----

  class History {
    var entries: seq<string>
    const max: nat

    ghost predicate Valid()
      reads this
    {
      WellKept(entries, max)
    }

    // Whatever the file holds, the bound is kept, and no entry is empty, looks like
    // the old file header, or has a record separator left in it. The file of a
    // history that `Push` kept gives it back, unless an entry looks like a header.
    constructor Load(content: Option<string>, max: nat)
      ensures this.max == max && |entries| <= max && forall e <- entries :: IsStorable(e) && !IsHeader(e)
      ensures content.None? ==> entries == []
      ensures content.Some? ==> entries == Loaded(content.value, max)
      ensures forall saved | WellKept(saved, max) && content == Some(FileText(saved)) ::
                entries == saved <==> forall e <- saved :: !IsHeader(e)
    {
      this.max := max;
      entries := if content.Some? then Decoded(Lines(content.value)) else [];
      new;
      if content.Some? {
        DecodedIsStorable(Lines(content.value));
        forall saved | WellKept(saved, max) && content == Some(FileText(saved))
          ensures Loaded(content.value, max) == saved <==> forall e <- saved :: !IsHeader(e)
        {
          SaveThenLoad(saved, max);
        }
      }
      Truncate();
    }

    method Truncate()
      modifies this
      ensures entries == Truncated(old(entries), max)
    {
      if |entries| > max {
        var excess := |entries| - max;
        entries := entries[excess..];
      }
    }

    method Push(entry: string)
      modifies this
      ensures entries == Pushed(old(entries), entry, max)
      ensures old(Valid()) ==> Valid()
      // The pushed entry is the latest, and every other one is one place older.
      ensures var e := Cleaned(entry);
              if e == [] || old(Get(0)) == Some(e) then entries == old(entries)
              else forall k: nat | k < max :: Get(k) == if k == 0 then Some(e) else old(Get(k - 1))
    {
      if Valid() {
        PushKeeps(entries, Cleaned(entry), max);
        CleanedIsClean(entry);
      }
      RememberedRecency(entries, Cleaned(entry), max);
      var clean := Without(entry, RECORD_SEPARATOR);
      var trimmed := Trim(clean);
      if trimmed == [] {
        return;
      }
      if entries != [] && entries[|entries| - 1] == trimmed {
        return;
      }
      entries := entries + [trimmed];
      Truncate();
    }

    // The entry at a recency index, 0 for the latest.
    function Get(index: nat): (e: Option<string>)
      reads this
      ensures e.Some? <==> index < |entries|
      ensures e == Recent(entries, index)
    {
      if index >= |entries| then None else Some(entries[|entries| - 1 - index])
    }

    // The recency indices of the entries that contain `query`, latest first.
    function Find(query: string, lower: string -> string): (hits: seq<nat>)
      reads this
      ensures Increasing(hits)
      ensures forall k: nat :: k in hits <==>
                query != [] && Get(k).Some? && Contains(lower(Get(k).value), lower(query))
    {
      if query != [] then
        SearchIsExact(entries, query, lower);
        Search(entries, query, lower)
      else
        Search(entries, query, lower)
    }
  }

  // ---- Invariant ----

  // An entry as pushes leave it.
  predicate IsClean(e: string) {
    e != [] && RECORD_SEPARATOR !in e && !IsWhitespace(e[0]) && !IsWhitespace(e[|e| - 1])
  }

  predicate WellKept(entries: seq<string>, max: nat) {
    && |entries| <= max
    && (forall e <- entries :: IsClean(e))
    && (forall i | 0 < i < |entries| :: entries[i] != entries[i - 1])
  }

  lemma CleanedIsClean(entry: string)
    ensures Cleaned(entry) != [] ==> IsClean(Cleaned(entry))
  {
    var w := Without(entry, RECORD_SEPARATOR);
    var t := TrimStart(w);
    var e := TrimEnd(t);
    if e != [] {
      assert e[0] == t[0];
      assert forall c | c in e :: c in t;
    }
  }

  lemma PushKeeps(entries: seq<string>, e: string, max: nat)
    requires WellKept(entries, max) && (e != [] ==> IsClean(e))
    ensures WellKept(Remembered(entries, e, max), max)
  {
    if e != [] && Recent(entries, 0) != Some(e) {
      var longer := entries + [e];
      assert forall x <- longer :: IsClean(x);
      KeptSuffix(longer, |longer| - Min(max, |longer|), max);
    }
  }

  lemma KeptSuffix(entries: seq<string>, k: nat, max: nat)
    requires k <= |entries| && |entries| - k <= max && forall e <- entries :: IsClean(e)
    requires forall i | 0 < i < |entries| :: entries[i] != entries[i - 1]
    ensures WellKept(entries[k..], max)
  {
  }

  // Any history built from nothing by pushes stays within its bound, and keeps
  // clean entries of which no two neighbours are equal.
  function PushedAll(pushes: seq<string>, max: nat): (entries: seq<string>)
    ensures WellKept(entries, max)
  {
    if pushes == [] then []
    else
      var before := PushedAll(pushes[..|pushes| - 1], max);
      CleanedIsClean(pushes[|pushes| - 1]);
      PushKeeps(before, Cleaned(pushes[|pushes| - 1]), max);
      Pushed(before, pushes[|pushes| - 1], max)
  }

  // ---- What pushing keeps ----

  // The history with no bound: what was not blank and not a repetition.
  function Told(pushes: seq<string>): (entries: seq<string>) {
    if pushes == [] then []
    else
      var before, e := Told(pushes[..|pushes| - 1]), Cleaned(pushes[|pushes| - 1]);
      if e == [] || Recent(before, 0) == Some(e) then before else before + [e]
  }

  // The latest `max` of some entries.
  function Latest(entries: seq<string>, max: nat): seq<string> {
    entries[|entries| - Min(max, |entries|)..]
  }

  // With a bound, the latest of them are kept.
  lemma {:induction false} LatestAreKept(pushes: seq<string>, max: nat)
    requires max > 0
    ensures PushedAll(pushes, max) == Latest(Told(pushes), max)
  {
    if pushes != [] {
      var before := pushes[..|pushes| - 1];
      LatestAreKept(before, max);
      RememberLatest(Told(before), Cleaned(pushes[|pushes| - 1]), max);
    }
  }

  lemma RememberLatest(told: seq<string>, e: string, max: nat)
    requires max > 0
    ensures Remembered(Latest(told, max), e, max) ==
            if e == [] || Recent(told, 0) == Some(e) then Latest(told, max) else Latest(told + [e], max)
  {
    assert Recent(Latest(told, max), 0) == Recent(told, 0);
  }

  // One more push adds to the unbounded history what it stores, if anything.
  lemma ToldOneMore(pushes: seq<string>, entry: string)
    ensures var before, e := Told(pushes), Cleaned(entry);
            Told(pushes + [entry]) == if e == [] || Recent(before, 0) == Some(e) then before else before + [e]
  {
    var more := pushes + [entry];
    assert more[..|more| - 1] == pushes;
  }

  // Four pushes on a history of three.
  lemma OldestIsDropped(a: string, b: string, c: string, d: string)
    requires Cleaned(a) == a && Cleaned(b) == b && Cleaned(c) == c && Cleaned(d) == d
    requires a != [] && b != [] && c != [] && d != [] && a != b && b != c && c != d
    ensures PushedAll([a] + [b] + [c] + [d], 3) == [b, c, d]
  {
    ToldOneMore([], a);
    ToldOneMore([a], b);
    ToldOneMore([a] + [b], c);
    ToldOneMore([a] + [b] + [c], d);
    assert [] + [a] == [a];
    LatestAreKept([a] + [b] + [c] + [d], 3);
  }

  // Loading keeps the latest lines.
  lemma LatestLinesAreLoaded(content: string, max: nat)
    ensures Loaded(content, max) == Latest(Decoded(Lines(content)), max)
  {
  }

  // ---- What cleaning does ----

  // Every other character stays, in order.
  lemma {:induction false} WithoutFilters(a: string, b: string, c: char)
    ensures Without(a + b, c) == Without(a, c) + Without(b, c)
  {
    if a == [] {
      assert a + b == b;
    } else {
      WithoutFilters(a[1..], b, c);
      TailOfConcat(a, b);
      Grouped(if a[0] == c then [] else [a[0]], Without(a[1..], c), Without(b, c));
    }
  }

  lemma TailOfConcat(a: string, b: string)
    requires a != []
    ensures (a + b)[1..] == a[1..] + b && (a + b)[0] == a[0]
  {
  }

  lemma Grouped(a: string, b: string, c: string)
    ensures a + (b + c) == (a + b) + c
  {
  }

  lemma WithoutOne(d: char, c: char)
    ensures Without([d], c) == if d == c then [] else [d]
  {
    assert [d][1..] == [];
  }

  predicate AllWhitespace(s: string) {
    forall c <- s :: IsWhitespace(c)
  }

  lemma {:induction false} TrimmedStart(s: string) returns (pre: string)
    ensures AllWhitespace(pre) && s == pre + TrimStart(s)
  {
    if s != [] && IsWhitespace(s[0]) {
      var more := TrimmedStart(s[1..]);
      pre := [s[0]] + more;
      Grouped([s[0]], more, TrimStart(s));
      assert s == [s[0]] + s[1..];
    } else {
      pre := [];
    }
  }

  lemma {:induction false} TrimmedEnd(s: string) returns (post: string)
    ensures AllWhitespace(post) && s == TrimEnd(s) + post
  {
    if s != [] && IsWhitespace(s[|s| - 1]) {
      var more := TrimmedEnd(s[..|s| - 1]);
      post := more + [s[|s| - 1]];
      Grouped(TrimEnd(s), more, [s[|s| - 1]]);
      assert s == s[..|s| - 1] + [s[|s| - 1]];
    } else {
      post := [];
    }
  }

  // Cleaning takes the record separators out, and then white space off both ends;
  // what is left, if anything, begins and ends with something else.
  lemma CleanedExactly(entry: string) returns (pre: string, post: string)
    ensures AllWhitespace(pre) && AllWhitespace(post)
    ensures Without(entry, RECORD_SEPARATOR) == pre + Cleaned(entry) + post
    ensures Cleaned(entry) != [] ==> IsClean(Cleaned(entry))
  {
    var w := Without(entry, RECORD_SEPARATOR);
    pre := TrimmedStart(w);
    post := TrimmedEnd(TrimStart(w));
    CleanedIsClean(entry);
  }

  // White space of ASCII: tab, the three line breaks, the form feed and the blank.
  lemma AsciiWhitespace(c: char)
    requires c as int < 0x80
    ensures IsWhitespace(c) <==> c in {'\t', '\n', '\U{000B}', '\U{000C}', '\r', ' '}
  {
  }

  // ---- Round trip ----

  // What both pushing and loading leave of an entry.
  predicate IsStorable(e: string) {
    e != [] && RECORD_SEPARATOR !in e
  }

  lemma SameHeader(l: string, from: char, to: char)
    requires from !in "#V2" && to !in "#V2"
    ensures IsHeader(Replace(l, from, to)) <==> IsHeader(l)
  {
    var r := Replace(l, from, to);
    if |l| >= 3 {
      assert l[..3] == [l[0], l[1], l[2]] && r[..3] == [r[0], r[1], r[2]];
      assert "#V2"[0] in "#V2" && "#V2"[1] in "#V2" && "#V2"[2] in "#V2";
    }
  }

  lemma {:induction false} DecodedIsStorable(lines: seq<string>)
    ensures forall e <- Decoded(lines) :: IsStorable(e) && !IsHeader(e)
  {
    if lines != [] {
      DecodedIsStorable(lines[1..]);
      SameHeader(lines[0], RECORD_SEPARATOR, '\n');
    }
  }

  function WithoutReturns(lines: seq<string>): (r: seq<string>)
    ensures |r| == |lines|
  {
    if lines == [] then [] else [WithoutReturn(lines[0])] + WithoutReturns(lines[1..])
  }

  lemma {:induction false} LinesOfJoin(lines: seq<string>)
    requires lines != [] && forall l <- lines :: '\n' !in l
    ensures Lines(Join(lines) + "\n") == WithoutReturns(lines)
  {
    var rest := if |lines| == 1 then [] else Join(lines[1..]) + "\n";
    JoinStep(lines, rest);
    LinesStep(lines[0], rest);
    if |lines| > 1 {
      LinesOfJoin(lines[1..]);
    }
  }

  lemma LinesStep(l: string, rest: string)
    requires '\n' !in l
    ensures Lines(l + ("\n" + rest)) == [WithoutReturn(l)] + Lines(rest)
  {
    var s := l + ("\n" + rest);
    FirstLineIs(l, rest);
    assert s[|l| + 1..] == rest && |s| > |l|;
  }

  lemma JoinStep(lines: seq<string>, rest: string)
    requires lines != [] && rest == if |lines| == 1 then [] else Join(lines[1..]) + "\n"
    ensures Join(lines) + "\n" == lines[0] + ("\n" + rest)
  {
  }

  lemma {:induction false} FirstLineIs(l: string, rest: string)
    requires '\n' !in l
    ensures FirstLine(l + ("\n" + rest)) == l
  {
    var s := l + ("\n" + rest);
    if l != [] {
      assert s[1..] == l[1..] + ("\n" + rest);
      FirstLineIs(l[1..], rest);
    }
  }

  predicate EndsInReturn(e: string) {
    e != [] && e[|e| - 1] == '\r'
  }

  // What loading makes of saved entries: those that look like a header go, and so
  // does a carriage return at the end.
  function Reread(entries: seq<string>): (r: seq<string>)
    ensures |r| <= |entries|
    ensures r == entries <==> forall e <- entries :: e != [] && !IsHeader(e) && !EndsInReturn(e)
  {
    if entries == [] then []
    else
      assert entries == [entries[0]] + entries[1..];
      var e := WithoutReturn(entries[0]);
      (if IsHeader(entries[0]) || e == [] then [] else [e]) + Reread(entries[1..])
  }

  lemma RereadOne(e: string)
    requires IsStorable(e)
    ensures var l := WithoutReturn(Replace(e, '\n', RECORD_SEPARATOR));
            && (IsHeader(l) <==> IsHeader(e)) && (l == [] <==> WithoutReturn(e) == [])
            && Replace(l, RECORD_SEPARATOR, '\n') == WithoutReturn(e)
  {
    var l := Replace(e, '\n', RECORD_SEPARATOR);
    SameHeader(e, '\n', RECORD_SEPARATOR);
    HeaderWithoutReturn(l);
  }

  lemma HeaderWithoutReturn(l: string)
    ensures IsHeader(WithoutReturn(l)) <==> IsHeader(l)
  {
    if IsHeader(l) {
      assert l[2] == "#V2"[2];
    }
  }

  lemma {:induction false} DecodedOfEncoded(entries: seq<string>)
    requires forall e <- entries :: IsStorable(e)
    ensures Decoded(WithoutReturns(Encoded(entries))) == Reread(entries)
  {
    if entries != [] {
      assert forall e <- entries[1..] :: e in entries;
      RereadOne(entries[0]);
      assert Encoded(entries)[1..] == Encoded(entries[1..]);
      DecodedOfEncoded(entries[1..]);
    }
  }

  // A saved list of entries loads back unchanged, multi-line entries included,
  // exactly when no entry starts like the old file header or ends in a carriage
  // return.
  lemma ReloadExactly(entries: seq<string>, max: nat)
    requires |entries| <= max && forall e <- entries :: IsStorable(e)
    ensures Loaded(FileText(entries), max) == entries <==>
            forall e <- entries :: !IsHeader(e) && !EndsInReturn(e)
  {
    var lines := Encoded(entries);
    if entries == [] {
      assert FileText(entries) == "\n" && "\n"[1..] == [];
      assert FirstLine("\n") == [];
      var one: seq<string> := [[]];
      assert Lines("\n") == one && one[1..] == [];
    } else {
      LinesOfJoin(lines);
      DecodedOfEncoded(entries);
    }
  }

  // A history that pushes kept has no carriage return at the end of an entry, so it
  // is the header alone that matters.
  lemma SaveThenLoad(entries: seq<string>, max: nat)
    requires WellKept(entries, max)
    ensures Loaded(FileText(entries), max) == entries <==> forall e <- entries :: !IsHeader(e)
  {
    ReloadExactly(entries, max);
  }

  // A file of two entries, the first one of two lines.
  lemma FileOfTwo()
    ensures FileText(["a\nb", "c"]) == "a\U{001E}b\nc\n"
  {
    var entries := ["a\nb", "c"];
    assert Encoded(entries) == ["a\U{001E}b", "c"] by {
      assert Replace("a\nb", '\n', RECORD_SEPARATOR) == "a\U{001E}b";
      assert Replace("c", '\n', RECORD_SEPARATOR) == "c";
    }
    assert Encoded(entries)[1..] == ["c"];
    assert Join(["c"]) == "c";
    assert "a\U{001E}b" + "\n" + "c" + "\n" == "a\U{001E}b\nc\n";
  }

  // The entry "#V2" is such an entry.
  lemma HeaderEntryIsLost()
    ensures WellKept(["#V2"], 1) && Loaded(FileText(["#V2"]), 1) != ["#V2"]
  {
    var entries := ["#V2"];
    assert entries[0] in entries && IsHeader(entries[0]);
    SaveThenLoad(entries, 1);
  }

  // A file of one line that ends in two carriage returns gives an entry that ends
  // in one, which is gone when it was saved and loaded again.
  lemma ReturnIsLost()
    ensures Loaded("a\r\r\n", 5) == ["a\r"]
    ensures Loaded(FileText(["a\r"]), 5) == ["a"]
  {
    LoadedLine("a\r\r", "a\r");
    LoadedLine("a\r", "a");
    assert Replace("a\r", '\n', RECORD_SEPARATOR) == "a\r";
    assert Encoded(["a\r"]) == ["a\r"] && Join(["a\r"]) == "a\r";
    assert FileText(["a\r"]) == "a\r" + "\n";
    assert "a\r\r\n" == "a\r\r" + "\n";
  }

  lemma LoadedLine(line: string, e: string)
    requires '\n' !in line && RECORD_SEPARATOR !in line && e == WithoutReturn(line)
    requires e != [] && !IsHeader(e)
    ensures Loaded(line + "\n", 5) == [e]
  {
    LinesStep(line, []);
    assert line + ("\n" + []) == line + "\n";
    var one := [e];
    assert Lines(line + "\n") == one by {
      assert [e] + [] == one;
    }
    assert RECORD_SEPARATOR !in e && Replace(e, RECORD_SEPARATOR, '\n') == e;
    assert one[1..] == [] && Decoded(one[1..]) == [];
    assert Decoded(one) == one;
  }

  // ---- Search is exact ----

  lemma ContainsExactly(s: string, part: string)
    ensures Contains(s, part) <==> exists a: string, b: string :: s == a + part + b
  {
    if Contains(s, part) {
      var k :| 0 <= k <= |s| && part <= s[k..];
      assert s == s[..k] + part + s[k + |part|..];
    }
    forall a: string, b: string | s == a + part + b
      ensures Contains(s, part)
    {
      assert s[|a|..] == part + b;
    }
  }

  lemma {:induction false} Hit(entries: seq<string>, i: nat, query: string, lower: string -> string, k: nat)
    requires i <= |entries|
    ensures k in SearchBefore(entries, i, query, lower) <==>
            |entries| - i <= k < |entries| && Contains(lower(entries[|entries| - 1 - k]), lower(query))
  {
    if i > 0 {
      Hit(entries, i - 1, query, lower, k);
    }
  }

  lemma {:induction false} HitsIncrease(entries: seq<string>, i: nat, query: string, lower: string -> string)
    requires i <= |entries|
    ensures Increasing(SearchBefore(entries, i, query, lower))
  {
    if i > 0 {
      HitsIncrease(entries, i - 1, query, lower);
      var rest := SearchBefore(entries, i - 1, query, lower);
      forall k | k in rest
        ensures k > |entries| - i
      {
        Hit(entries, i - 1, query, lower, k);
      }
      IncreasingCons(|entries| - i, rest);
    }
  }

  lemma IncreasingCons(k: nat, rest: seq<nat>)
    requires Increasing(rest) && forall r <- rest :: k < r
    ensures Increasing([k] + rest)
  {
    var longer := [k] + rest;
    forall a, b | 0 <= a < b < |longer|
      ensures longer[a] < longer[b]
    {
      assert longer[b] == rest[b - 1] && rest[b - 1] in rest;
    }
  }

  // A search lists, from the latest on, exactly the entries with the query in them.
  lemma SearchIsExact(entries: seq<string>, query: string, lower: string -> string)
    requires query != []
    ensures Increasing(Search(entries, query, lower))
    ensures forall k: nat :: k in Search(entries, query, lower) <==>
              k < |entries| && Contains(lower(entries[|entries| - 1 - k]), lower(query))
  {
    HitsIncrease(entries, |entries|, query, lower);
    forall k: nat
      ensures k in Search(entries, query, lower) <==>
              k < |entries| && Contains(lower(entries[|entries| - 1 - k]), lower(query))
    {
      Hit(entries, |entries|, query, lower, k);
    }
  }
}
