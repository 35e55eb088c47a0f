// Columns of a text position: byte offsets on the parser's side, code units of
// the negotiated encoding on the client's side (LSP 3.17, PositionEncodingKind).
module Columns {
  import opened Wrappers
  import opened Utf8

  datatype PositionEncoding = Utf8Units | Utf16Units

  const U32: nat := 0x1_0000_0000

  // UTF-16 takes two code units for a character outside the basic plane (RFC
  // 2781, section 2.1), which is one of four bytes in UTF-8.
  function LenUtf16(first: byte): (n: nat)
    ensures 1 <= n <= 2
  {
    if first >= 0xF0 then 2 else 1
  }

  // The code units of a line.
  function Units(s: Bytes): (n: nat)
    requires WellFormed(s)
    ensures n <= |s|
  {
    if s == [] then 0
    else LenUtf16(s[0]) + Units(s[FirstLen(s)..])
  }

  function EncodeColumn(e: PositionEncoding, line: Bytes, col: nat): nat
    requires WellFormed(line)
  {
    match e
    case Utf8Units => col % U32
    case Utf16Units =>
      var b := FloorBoundary(line, Min(col, |line|));
      SplitWellFormed(line, b);
      Units(line[..b]) % U32
  }

  // Bytes before the first character at which `target` units have gone by.
  function DecodeUnits(s: Bytes, target: int): (b: nat)
    requires WellFormed(s)
    ensures b <= |s|
  {
    if s == [] || target <= 0 then 0
    else FirstLen(s) + DecodeUnits(s[FirstLen(s)..], target - LenUtf16(s[0]))
  }

  function DecodeColumn(e: PositionEncoding, line: Bytes, character: nat): nat
    requires WellFormed(line) && character < U32
  {
    match e
    case Utf8Units => Min(character, |line|)
    case Utf16Units => DecodeUnits(line, character)
  }

  // ---- The conversions as the server runs them ----

  method RunEncodeColumn(e: PositionEncoding, line: Bytes, col: nat) returns (r: nat)
    requires WellFormed(line)
    ensures r == EncodeColumn(e, line, col)
  {
    match e
    case Utf8Units => r := col % U32;
    case Utf16Units =>
      var b := Min(col, |line|);
      while b > 0 && !IsBoundary(line, b)
        invariant 0 <= b <= |line|
        invariant FloorBoundary(line, b) == FloorBoundary(line, Min(col, |line|))
      {
        b := b - 1;
      }
      SplitWellFormed(line, b);
      r := Units(line[..b]) % U32;
  }

  method RunDecodeColumn(e: PositionEncoding, line: Bytes, character: nat) returns (b: nat)
    requires WellFormed(line) && character < U32
    ensures b == DecodeColumn(e, line, character)
  {
    match e
    case Utf8Units => b := Min(character, |line|);
    case Utf16Units => b := RunDecodeUnits(line, character);
  }

  // `rest` is what the character iterator has yet to yield.
  method RunDecodeUnits(line: Bytes, target: nat) returns (b: nat)
    requires WellFormed(line)
    ensures b == DecodeUnits(line, target)
  {
    var units, rest := 0, line;
    b := 0;
    while rest != []
      invariant WellFormed(rest) && b + |rest| == |line|
      invariant DecodeUnits(line, target) == b + DecodeUnits(rest, target - units)
      decreases |rest|
    {
      if units >= target {
        return;
      }
      units := units + LenUtf16(rest[0]);
      b, rest := b + FirstLen(rest), rest[FirstLen(rest)..];
    }
  }

  // ---- Laws ----

  // The units of the characters before a boundary.
  function UnitsBefore(line: Bytes, b: nat): (n: nat)
    requires WellFormed(line) && b <= |line| && IsBoundary(line, b)
    ensures n <= b
  {
    if b == 0 then 0
    else
      BoundaryAfterFirst(line, b);
      LenUtf16(line[0]) + UnitsBefore(line[FirstLen(line)..], b - FirstLen(line))
  }

  lemma {:induction false} UnitsOfPrefix(line: Bytes, b: nat)
    requires WellFormed(line) && b <= |line| && IsBoundary(line, b)
    ensures WellFormed(line[..b]) && Units(line[..b]) == UnitsBefore(line, b)
  {
    SplitWellFormed(line, b);
    if b > 0 {
      var k := FirstLen(line);
      BoundaryAfterFirst(line, b);
      UnitsOfPrefix(line[k..], b - k);
      FirstLenOfPrefix(line, b);
      UnitsOfPrefixStep(line, k, b);
    }
  }

  lemma UnitsOfPrefixStep(line: Bytes, k: nat, b: nat)
    requires 0 < k <= b <= |line| && WellFormed(line[..b]) && WellFormed(line[k..][..b - k])
    requires FirstLen(line[..b]) == k
    ensures Units(line[..b]) == LenUtf16(line[0]) + Units(line[k..][..b - k])
  {
    assert line[..b][k..] == line[k..][..b - k];
  }

  lemma FirstLenOfPrefix(s: Bytes, b: nat)
    requires FirstLen(s) > 0 && FirstLen(s) <= b <= |s|
    ensures FirstLen(s[..b]) == FirstLen(s)
  {
  }

  lemma {:induction false} DecodeIsBoundary(line: Bytes, c: int)
    requires WellFormed(line)
    ensures IsBoundary(line, DecodeUnits(line, c))
  {
    if line != [] && c > 0 {
      var k := FirstLen(line);
      var rest := line[k..];
      DecodeIsBoundary(rest, c - LenUtf16(line[0]));
      if rest != [] {
        FirstCharBytes(rest);
      }
    }
  }

  // Decoding and counting past the first character.
  lemma DecodeOne(line: Bytes, k: nat, rest: Bytes, c: int)
    requires WellFormed(line) && line != [] && k == FirstLen(line) && rest == line[k..] && c > 0
    ensures k > 0 && WellFormed(rest)
    ensures DecodeUnits(line, c) == k + DecodeUnits(rest, c - LenUtf16(line[0]))
  {
  }

  lemma UnitsOne(line: Bytes, k: nat, rest: Bytes, b: nat)
    requires WellFormed(line) && line != [] && k == FirstLen(line) && rest == line[k..]
    requires 0 < b <= |line| && IsBoundary(line, b)
    ensures k <= b && WellFormed(rest) && b - k <= |rest| && IsBoundary(rest, b - k)
    ensures UnitsBefore(line, b) == LenUtf16(line[0]) + UnitsBefore(rest, b - k)
  {
    BoundaryAfterFirst(line, b);
  }

  lemma UnitsInAll(line: Bytes, k: nat, rest: Bytes)
    requires WellFormed(line) && line != [] && k == FirstLen(line) && rest == line[k..]
    ensures k > 0 && WellFormed(rest) && Units(line) == LenUtf16(line[0]) + Units(rest)
  {
  }

  // Decoding is the lower adjoint: a boundary has at least `c` units before it
  // exactly when it is at or after the decoded column. The one exception is the
  // end of a line that has fewer than `c` units in all.
  lemma {:induction false} DecodeIsAdjoint(line: Bytes, c: int, b: nat)
    requires WellFormed(line) && b <= |line| && IsBoundary(line, b)
    requires c <= Units(line) || b < |line|
    ensures UnitsBefore(line, b) >= c <==> b >= DecodeUnits(line, c)
  {
    if line != [] && c > 0 {
      var k := FirstLen(line);
      var rest := line[k..];
      DecodeOne(line, k, rest, c);
      UnitsInAll(line, k, rest);
      if b > 0 {
        UnitsOne(line, k, rest, b);
        DecodeIsAdjoint(rest, c - LenUtf16(line[0]), b - k);
      }
    }
  }

  lemma WholeLine(line: Bytes)
    requires WellFormed(line)
    ensures UnitsBefore(line, |line|) == Units(line)
  {
    UnitsOfPrefix(line, |line|);
    assert line[..|line|] == line;
  }

  lemma EncodedColumn(line: Bytes, col: nat)
    requires WellFormed(line) && |line| < U32
    ensures EncodeColumn(Utf16Units, line, col) == UnitsBefore(line, FloorBoundary(line, Min(col, |line|)))
  {
    var b := FloorBoundary(line, Min(col, |line|));
    UnitsOfPrefix(line, b);
    SmallRemainder(UnitsBefore(line, b));
  }

  lemma SmallRemainder(n: nat)
    requires n < U32
    ensures n % U32 == n
  {
  }

  lemma EncodedBoundary(line: Bytes, b: nat)
    requires WellFormed(line) && |line| < U32 && b <= |line| && IsBoundary(line, b)
    ensures EncodeColumn(Utf16Units, line, b) == UnitsBefore(line, b)
  {
    EncodedColumn(line, b);
  }

  // The same law for the columns of the protocol.
  lemma ColumnsAreAdjoint(line: Bytes, c: nat, b: nat)
    requires WellFormed(line) && |line| < U32 && c < U32 && b <= |line| && IsBoundary(line, b)
    ensures (EncodeColumn(Utf16Units, line, b) >= c <==> b >= DecodeColumn(Utf16Units, line, c))
            <==> (c <= EncodeColumn(Utf16Units, line, |line|) || b < |line|)
  {
    EncodedBoundary(line, b);
    EncodedBoundary(line, |line|);
    WholeLine(line);
    if c <= Units(line) || b < |line| {
      DecodeIsAdjoint(line, c, b);
    }
  }

  lemma {:induction false} UnitsGrow(line: Bytes, a: nat, b: nat)
    requires WellFormed(line) && a < b <= |line| && IsBoundary(line, a) && IsBoundary(line, b)
    ensures UnitsBefore(line, a) < UnitsBefore(line, b)
  {
    var k := FirstLen(line);
    var rest := line[k..];
    UnitsOne(line, k, rest, b);
    if a > 0 {
      UnitsOne(line, k, rest, a);
      UnitsGrow(rest, a - k, b - k);
    }
  }

  lemma BoundaryRoundTrip(line: Bytes, b: nat)
    requires WellFormed(line) && b <= |line| && IsBoundary(line, b)
    ensures DecodeUnits(line, UnitsBefore(line, b)) == b
  {
    var c := UnitsBefore(line, b);
    var d := DecodeUnits(line, c);
    DecodeIsBoundary(line, c);
    WholeLine(line);
    if b < |line| {
      UnitsGrow(line, b, |line|);
    }
    DecodeIsAdjoint(line, c, b);
    DecodeIsAdjoint(line, c, d);
    if d < b {
      UnitsGrow(line, d, b);
    }
  }

  // A byte column survives the trip, up to falling back to the start of the
  // character it points into and to the end of the line.
  lemma ByteColumnRoundTrip(line: Bytes, col: nat)
    requires WellFormed(line) && |line| < U32
    ensures DecodeColumn(Utf16Units, line, EncodeColumn(Utf16Units, line, col)) == FloorBoundary(line, Min(col, |line|))
  {
    EncodedColumn(line, col);
    BoundaryRoundTrip(line, FloorBoundary(line, Min(col, |line|)));
  }

  lemma {:induction false} DecodedPastEnd(line: Bytes, c: int)
    requires WellFormed(line) && c > Units(line)
    ensures DecodeUnits(line, c) == |line|
  {
    if line != [] {
      DecodedPastEnd(line[FirstLen(line)..], c - LenUtf16(line[0]));
    }
  }

  // One character, when the target ends in it and when it goes on.
  lemma DecodedFirst(line: Bytes, k: nat, rest: Bytes, c: nat)
    requires WellFormed(line) && line != [] && k == FirstLen(line) && rest == line[k..]
    requires 0 < c <= LenUtf16(line[0])
    ensures IsBoundary(line, DecodeUnits(line, c))
    ensures UnitsBefore(line, DecodeUnits(line, c)) == LenUtf16(line[0])
  {
    DecodeIsBoundary(line, c);
    DecodeOne(line, k, rest, c);
    UnitsOne(line, k, rest, DecodeUnits(line, c));
  }

  lemma DecodedLater(line: Bytes, k: nat, rest: Bytes, c: nat, d: nat)
    requires WellFormed(line) && line != [] && k == FirstLen(line) && rest == line[k..] && WellFormed(rest)
    requires c > LenUtf16(line[0]) && d == DecodeUnits(rest, c - LenUtf16(line[0])) && IsBoundary(rest, d)
    ensures IsBoundary(line, DecodeUnits(line, c))
    ensures UnitsBefore(line, DecodeUnits(line, c)) == LenUtf16(line[0]) + UnitsBefore(rest, d)
  {
    DecodeIsBoundary(line, c);
    DecodeOne(line, k, rest, c);
    UnitsOne(line, k, rest, k + d);
  }

  lemma {:induction false} DecodedWithin(line: Bytes, c: nat)
    requires WellFormed(line) && c <= Units(line)
    ensures IsBoundary(line, DecodeUnits(line, c))
    ensures c <= UnitsBefore(line, DecodeUnits(line, c)) <= c + 1
  {
    if c > 0 {
      var k, u := FirstLen(line), LenUtf16(line[0]);
      var rest := line[k..];
      UnitsInAll(line, k, rest);
      if c <= u {
        DecodedFirst(line, k, rest, c);
      } else {
        DecodedWithin(rest, c - u);
        DecodedLater(line, k, rest, c, DecodeUnits(rest, c - u));
      }
    }
  }

  // A client column survives the trip when a character starts there; inside a
  // surrogate pair it moves on by one, and past the end it stops at the end.
  lemma ClientColumnRoundTrip(line: Bytes, c: nat)
    requires WellFormed(line) && |line| < U32 && c < U32
    ensures var total := EncodeColumn(Utf16Units, line, |line|);
            var back := EncodeColumn(Utf16Units, line, DecodeColumn(Utf16Units, line, c));
            if c > total then back == total
            else if exists b: nat :: b <= |line| && IsBoundary(line, b) && UnitsBefore(line, b) == c then back == c
            else back == c + 1
  {
    var d := DecodeUnits(line, c);
    DecodeIsBoundary(line, c);
    EncodedBoundary(line, d);
    EncodedBoundary(line, |line|);
    WholeLine(line);
    if c > Units(line) {
      DecodedPastEnd(line, c);
    } else {
      DecodedWithin(line, c);
    }
    if b: nat :| b <= |line| && IsBoundary(line, b) && UnitsBefore(line, b) == c {
      BoundaryRoundTrip(line, b);
    }
  }

  // The unit count of a line is the one of its characters.
  function CharUnits(cs: string): nat {
    if cs == [] then 0 else (if cs[0] as int >= 0x10000 then 2 else 1) + CharUnits(cs[1..])
  }

  lemma {:induction false} UnitsOfText(cs: string)
    ensures WellFormed(Encode(cs)) && Units(Encode(cs)) == CharUnits(cs)
  {
    EncodeIsWellFormed(cs);
    if cs != [] {
      var e, rest := EncodeChar(cs[0]), Encode(cs[1..]);
      LeadRanges(cs[0]);
      FirstLenIsLocal(e, rest);
      assert (e + rest)[|e|..] == rest;
      UnitsOfText(cs[1..]);
    }
  }

  // In UTF-8 units a byte column is sent as it is, even past the end of the line
  // or inside a character; only the way back is clamped.
  lemma Utf8ColumnRoundTrip(line: Bytes, col: nat)
    requires WellFormed(line) && col < U32
    ensures DecodeColumn(Utf8Units, line, EncodeColumn(Utf8Units, line, col)) == Min(col, |line|)
  {
  }

  // ---- The documented clamp ----

  // What the documentation of `encode_column` promises: an offset that is past the
  // end of the line, or between the bytes of a character, counts as the line end.
  function Documented(e: PositionEncoding, line: Bytes, col: nat): nat
    requires WellFormed(line)
  {
    EncodeColumn(e, line, if col <= |line| && IsBoundary(line, col) then col else |line|)
  }

  // UTF-16 clamps past the end, but inside a character it falls back to its start;
  // UTF-8 clamps neither.
  lemma EncodeMeetsDocumentation(e: PositionEncoding, line: Bytes, col: nat)
    requires WellFormed(line) && |line| < U32 && (e == Utf8Units ==> col < U32)
    ensures EncodeColumn(e, line, col) == Documented(e, line, col) <==>
            if col <= |line| then IsBoundary(line, col) else e == Utf16Units
  {
    SmallRemainder(|line|);
    match e
    case Utf8Units => SmallRemainder(col);
    case Utf16Units => Utf16EndsAtEnd(line, col);
  }

  lemma Utf8EndsAtEnd(line: Bytes, col: nat)
    requires WellFormed(line) && col < U32
    ensures EncodeColumn(Utf8Units, line, col) == EncodeColumn(Utf8Units, line, Min(col, |line|)) <==> col <= |line|
  {
    SmallRemainder(col);
    SmallRemainder(Min(col, |line|));
  }

  // Every offset before the end has a smaller column, inside the last character too.
  lemma Utf16EndsAtEnd(line: Bytes, col: nat)
    requires WellFormed(line) && |line| < U32
    ensures EncodeColumn(Utf16Units, line, col) == EncodeColumn(Utf16Units, line, |line|) <==> col >= |line|
  {
    EncodedColumn(line, col);
    EncodedBoundary(line, |line|);
    var b := FloorBoundary(line, Min(col, |line|));
    if col < |line| {
      UnitsGrow(line, b, |line|);
    }
  }

  // One character of two bytes: between them both encodings miss the line end, and
  // past them UTF-8 does.
  lemma ClampFails(line: Bytes)
    requires line == [0xC3, 0xA9]
    ensures WellFormed(line)
    ensures forall e :: EncodeColumn(e, line, 1) != Documented(e, line, 1)
    ensures EncodeColumn(Utf8Units, line, 3) != Documented(Utf8Units, line, 3)
  {
    assert FirstLen(line) == 2 && line[2..] == [];
    forall e ensures EncodeColumn(e, line, 1) != Documented(e, line, 1) {
      EncodeMeetsDocumentation(e, line, 1);
    }
    EncodeMeetsDocumentation(Utf8Units, line, 3);
  }
}
