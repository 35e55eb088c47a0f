// The call hint looks backwards from the cursor for the parenthesis that is still
// open, counting in one integer. It finds what a forward parse with a stack has
// on top.
module Hints {
  import opened Wrappers

  // ---- Backward scan ----

  // The open parenthesis before position `i` when `depth` closing ones have been
  // passed.
  function ScanBack(s: string, i: nat, depth: nat): Option<nat>
    requires i <= |s|
  {
    if i == 0 then None
    else if s[i - 1] == ')' then ScanBack(s, i - 1, depth + 1)
    else if s[i - 1] == '(' then if depth == 0 then Some(i - 1) else ScanBack(s, i - 1, depth - 1)
    else ScanBack(s, i - 1, depth)
  }

  method FindOpenParen(s: string) returns (at: Option<nat>)
    ensures at == ScanBack(s, |s|, 0)
  {
    var depth: nat := 0;
    var i: nat := |s|;
    while i > 0
      invariant i <= |s|
      invariant ScanBack(s, i, depth) == ScanBack(s, |s|, 0)
    {
      i := i - 1;
      if s[i] == ')' {
        depth := depth + 1;
      } else if s[i] == '(' {
        if depth == 0 {
          return Some(i);
        }
        depth := depth - 1;
      }
    }
    return None;
  }

  // ---- Forward parse ----

  const OPENING := {'(', '[', '{'}
  const CLOSING := {')', ']', '}'}

  // The positions of the brackets open after the first `i` characters, when the
  // characters of `opens` open one and those of `closes` close the innermost; a
  // closing one with nothing open is ignored.
  function Stack(s: string, i: nat, opens: set<char>, closes: set<char>): (open: seq<nat>)
    requires i <= |s|
    ensures forall h | 0 <= h < |open| :: open[h] < i && s[open[h]] in opens
  {
    if i == 0 then []
    else
      var before := Stack(s, i - 1, opens, closes);
      if s[i - 1] in opens then before + [i - 1]
      else if s[i - 1] in closes && before != [] then before[..|before| - 1]
      else before
  }

  function Brackets(s: string, i: nat): seq<nat>
    requires i <= |s|
  {
    Stack(s, i, OPENING, CLOSING)
  }

  function Parens(s: string, i: nat): seq<nat>
    requires i <= |s|
  {
    Stack(s, i, {'('}, {')'})
  }

  lemma {:induction false} ScanBackReadsStack(s: string, i: nat, depth: nat)
    requires i <= |s|
    ensures var open := Parens(s, i);
            ScanBack(s, i, depth) == if depth < |open| then Some(open[|open| - 1 - depth]) else None
    decreases i
  {
    if i > 0 {
      if s[i - 1] == ')' {
        ScanBackReadsStack(s, i - 1, depth + 1);
      } else if s[i - 1] == '(' {
        if depth > 0 {
          ScanBackReadsStack(s, i - 1, depth - 1);
        }
      } else {
        ScanBackReadsStack(s, i - 1, depth);
      }
    }
  }

  // The one-counter scan finds the innermost open parenthesis, and nothing
  // exactly when none is open.
  lemma ScanFindsTopOfStack(s: string)
    ensures var open := Parens(s, |s|);
            ScanBack(s, |s|, 0) == if open == [] then None else Some(open[|open| - 1])
  {
    ScanBackReadsStack(s, |s|, 0);
  }

  // ---- Argument index ----

  function Weight(c: char): int {
    if c in OPENING then 1 else if c in CLOSING then -1 else 0
  }

  // Brackets opened less brackets closed, of any kind, from `from` up to `upto`.
  function Net(s: string, from: nat, upto: nat): int
    requires from <= upto <= |s|
    decreases upto
  {
    if from == upto then 0 else Net(s, from, upto - 1) + Weight(s[upto - 1])
  }

  function CommasAtDepth0(s: string, from: nat, upto: nat): nat
    requires from <= upto <= |s|
    decreases upto
  {
    if from == upto then 0
    else
      CommasAtDepth0(s, from, upto - 1) + if s[upto - 1] == ',' && Net(s, from, upto - 1) == 0 then 1 else 0
  }

  method CountCommas(s: string) returns (count: nat)
    ensures count == CommasAtDepth0(s, 0, |s|)
  {
    var depth := 0;
    count := 0;
    for i := 0 to |s|
      invariant depth == Net(s, 0, i) && count == CommasAtDepth0(s, 0, i)
    {
      if s[i] in OPENING {
        depth := depth + 1;
      } else if s[i] in CLOSING {
        depth := depth - 1;
      } else if s[i] == ',' && depth == 0 {
        count := count + 1;
      }
    }
  }

  lemma {:induction false} CommasInSlice(s: string, from: nat, upto: nat, k: nat)
    requires from <= k <= upto <= |s|
    ensures Net(s[from..upto], 0, k - from) == Net(s, from, k)
    ensures CommasAtDepth0(s[from..upto], 0, k - from) == CommasAtDepth0(s, from, k)
    decreases k
  {
    if from < k {
      CommasInSlice(s, from, upto, k - 1);
    }
  }

  // The call at `p` has, up to `j`, as many commas of its own as there are commas
  // whose innermost open bracket it is.
  function OwnCommas(s: string, p: nat, j: nat): nat
    requires p < j <= |s|
    decreases j
  {
    if j == p + 1 then 0
    else
      var open := Brackets(s, j - 1);
      OwnCommas(s, p, j - 1) + if s[j - 1] == ',' && open != [] && open[|open| - 1] == p then 1 else 0
  }

  // No bracket from `from` up to `j` closes one opened before.
  predicate StillOpen(s: string, from: nat, j: nat)
    requires from <= j <= |s|
  {
    forall k | from <= k <= j :: Net(s, from, k) >= 0
  }

  // While `p` is open, the brackets open are those open before it, `p` itself and
  // the net of the rest.
  lemma {:induction false} StackAbove(s: string, p: nat, j: nat)
    requires p < j <= |s| && s[p] in OPENING && StillOpen(s, p + 1, j)
    ensures |Brackets(s, j)| == |Brackets(s, p)| + 1 + Net(s, p + 1, j)
    ensures Brackets(s, j)[|Brackets(s, p)|] == p
    decreases j
  {
    if j > p + 1 {
      StackAbove(s, p, j - 1);
      assert Net(s, p + 1, j) >= 0;
    }
  }

  lemma {:induction false} BracketsIncrease(s: string, i: nat)
    requires i <= |s|
    ensures Increasing(Brackets(s, i))
  {
    if i > 0 {
      BracketsIncrease(s, i - 1);
    }
  }

  lemma InnermostIsTheCall(s: string, p: nat, j: nat)
    requires p < j <= |s| && s[p] in OPENING && StillOpen(s, p + 1, j)
    ensures Brackets(s, j) != []
    ensures Brackets(s, j)[|Brackets(s, j)| - 1] == p <==> Net(s, p + 1, j) == 0
  {
    StackAbove(s, p, j);
    BracketsIncrease(s, j);
  }

  // What was popped does not come back: a bracket that is open was open all along.
  lemma {:induction false} OpenSinceThen(s: string, p: nat, j: nat)
    requires p < j <= |s| && s[p] in OPENING && p in Brackets(s, j)
    ensures StillOpen(s, p + 1, j)
    decreases j
  {
    if j > p + 1 {
      var before := Brackets(s, j - 1);
      assert p in before;
      OpenSinceThen(s, p, j - 1);
      StackAbove(s, p, j - 1);
      BracketsIncrease(s, j - 1);
    }
  }

  // The commas that are counted after the call at `p` was closed, when as many
  // brackets were opened again.
  function StrayCommas(s: string, p: nat, j: nat): nat
    requires p < j <= |s|
    decreases j
  {
    if j == p + 1 then 0
    else
      StrayCommas(s, p, j - 1) +
      if s[j - 1] == ',' && Net(s, p + 1, j - 1) == 0 && !StillOpen(s, p + 1, j - 1) then 1 else 0
  }

  lemma OwnComma(s: string, p: nat, j: nat)
    requires p < j <= |s| && s[p] in OPENING
    ensures var open := Brackets(s, j);
            open != [] && open[|open| - 1] == p <==> StillOpen(s, p + 1, j) && Net(s, p + 1, j) == 0
  {
    var open := Brackets(s, j);
    if StillOpen(s, p + 1, j) {
      InnermostIsTheCall(s, p, j);
    } else if open != [] && open[|open| - 1] == p {
      OpenSinceThen(s, p, j);
    }
  }

  // The argument index counts the call's own commas, none inside a bracket within
  // it, and the stray ones.
  lemma {:induction false} CommasAreOwnOrStray(s: string, p: nat, j: nat)
    requires p < j <= |s| && s[p] in OPENING
    ensures CommasAtDepth0(s, p + 1, j) == OwnCommas(s, p, j) + StrayCommas(s, p, j)
    decreases j
  {
    if j > p + 1 {
      CommasAreOwnOrStray(s, p, j - 1);
      OwnComma(s, p, j - 1);
    }
  }

  lemma {:induction false} NoStrayCommas(s: string, p: nat, j: nat)
    requires p < j <= |s|
    ensures StrayCommas(s, p, j) == 0 <==>
            forall k | p + 1 <= k < j :: s[k] == ',' && Net(s, p + 1, k) == 0 ==> StillOpen(s, p + 1, k)
    decreases j
  {
    if j > p + 1 {
      NoStrayCommas(s, p, j - 1);
    }
  }

  // It is right exactly when every comma it counts comes before the call is closed.
  lemma ArgIndexCountsOwnCommas(s: string, p: nat, j: nat)
    requires p < j <= |s| && s[p] in OPENING
    ensures CommasAtDepth0(s[p + 1..j], 0, |s[p + 1..j]|) == OwnCommas(s, p, j) <==>
            forall k | p + 1 <= k < j :: s[k] == ',' && Net(s, p + 1, k) == 0 ==> StillOpen(s, p + 1, k)
  {
    CommasInSlice(s, p + 1, j, j);
    CommasAreOwnOrStray(s, p, j);
    NoStrayCommas(s, p, j);
  }

  // In "(][," the call is closed by the wrong bracket, and a comma is counted.
  predicate IsStray(s: string) {
    |s| == 4 && s[0] == '(' && s[1] == ']' && s[2] == '[' && s[3] == ','
  }

  lemma StrayNet(s: string)
    requires IsStray(s)
    ensures Net(s, 1, 2) == -1 && Net(s, 1, 3) == 0
    ensures CommasAtDepth0(s, 1, 3) == 0
  {
    assert CommasAtDepth0(s, 1, 2) == 0;
  }

  lemma StrayIsNotOwn(s: string)
    requires IsStray(s)
    ensures OwnCommas(s, 0, 4) == 0
  {
    StrayNet(s);
    OwnComma(s, 0, 3);
    assert OwnCommas(s, 0, 2) == 0;
    assert OwnCommas(s, 0, 3) == 0;
  }

  lemma StrayScan(s: string)
    requires IsStray(s)
    ensures ScanBack(s, 4, 0) == Some(0)
  {
    assert ScanBack(s, 2, 0) == Some(0);
  }

  lemma StrayCommaIsCounted(s: string)
    requires s == "(][,"
    ensures ScanBack(s, |s|, 0) == Some(0)
    ensures CommasAtDepth0(s[1..], 0, |s[1..]|) == 1 && OwnCommas(s, 0, |s|) == 0
  {
    StrayScan(s);
    StrayNet(s);
    StrayIsNotOwn(s);
    CommasInSlice(s, 1, 4, 4);
    assert s[1..4] == s[1..];
  }

  // ---- Brackets by name ----

  // `inner` opens what it closes, and closes nothing else.
  predicate Balanced(s: string, from: nat, upto: nat)
    requires from <= upto <= |s|
  {
    StillOpen(s, from, upto) && Net(s, from, upto) == 0
  }

  predicate IsPair(open: char, close: char) {
    (open == '(' && close == ')') || (open == '[' && close == ']') || (open == '{' && close == '}')
  }

  lemma {:induction false} NetAdds(s: string, a: nat, b: nat, c: nat)
    requires a <= b <= c <= |s|
    ensures Net(s, a, c) == Net(s, a, b) + Net(s, b, c)
    decreases c
  {
    if b < c {
      NetAdds(s, a, b, c - 1);
    }
  }

  // What is in a pair of parentheses, square brackets or braces that comes after
  // balanced text adds no comma to the count, and leaves the text balanced.
  lemma {:induction false} BracketedCommasDoNotCount(s: string, from: nat, i: nat, j: nat, upto: nat)
    requires from <= i < j < |s| && i < upto <= j + 1 && IsPair(s[i], s[j])
    requires Balanced(s, from, i) && Balanced(s, i + 1, j)
    ensures CommasAtDepth0(s, from, upto) == CommasAtDepth0(s, from, i)
    ensures Net(s, from, upto) == if upto <= j then 1 + Net(s, i + 1, upto) else 0
    decreases upto
  {
    NetAdds(s, from, i + 1, upto);
    if upto > i + 1 {
      BracketedCommasDoNotCount(s, from, i, j, upto - 1);
    }
  }

  // A parenthesis still open at the end was open, at the same height, ever since.
  lemma {:induction false} StaysOpen(s: string, p: nat, h: nat, i: nat, j: nat)
    requires p < i <= j <= |s| && h < |Parens(s, j)| && Parens(s, j)[h] == p
    ensures h < |Parens(s, i)| && Parens(s, i)[h] == p
    decreases j - i
  {
    if i < j {
      StaysOpen(s, p, h, i, j - 1);
    }
  }

  predicate OnlyParens(s: string) {
    forall c <- s :: c in OPENING + CLOSING ==> c in {'(', ')'}
  }

  // Where only parentheses nest, the parenthesis that the scan finds is still open
  // up to the cursor, so its argument index is right.
  lemma ScannedCallIsStillOpen(s: string)
    requires ScanBack(s, |s|, 0).Some?
    ensures var p := ScanBack(s, |s|, 0).value;
            p < |s| && s[p] == '(' && (OnlyParens(s[p + 1..]) ==> StillOpen(s, p + 1, |s|))
  {
    ScanFindsTopOfStack(s);
    var p := ScanBack(s, |s|, 0).value;
    if OnlyParens(s[p + 1..]) {
      OpenParenStaysOpen(s, p, p + 1);
    }
  }

  lemma OpenParenStaysOpen(s: string, p: nat, from: nat)
    requires Parens(s, |s|) != [] && Parens(s, |s|)[|Parens(s, |s|)| - 1] == p
    requires from == p + 1 <= |s| && OnlyParens(s[from..])
    ensures StillOpen(s, from, |s|)
  {
    forall k | from <= k <= |s| ensures Net(s, from, k) >= 0 {
      NetIsHeight(s, p, |Parens(s, |s|)| - 1, k);
    }
  }

  lemma {:induction false} NetIsHeight(s: string, p: nat, h: nat, j: nat)
    requires p < j <= |s| && OnlyParens(s[p + 1..])
    requires h < |Parens(s, |s|)| && Parens(s, |s|)[h] == p
    ensures h < |Parens(s, j)| && Net(s, p + 1, j) == |Parens(s, j)| - 1 - h
    decreases j
  {
    StaysOpen(s, p, h, j, |s|);
    if j == p + 1 {
      assert Parens(s, p + 1)[h] == p;
    } else {
      NetIsHeight(s, p, h, j - 1);
      assert s[j - 1] in s[p + 1..] by {
        assert s[p + 1..][j - 1 - (p + 1)] == s[j - 1];
      }
    }
  }
}
