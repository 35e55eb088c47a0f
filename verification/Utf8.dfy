// UTF-8 (RFC 3629, sections 3 and 4): how a string is stored, and where its
// character boundaries are.
module Utf8 {

  type byte = b: int | 0 <= b < 256

  type Bytes = seq<byte>

  // ---- Encoding ----

  function EncodeChar(c: char): (s: Bytes)
    ensures 1 <= |s| <= 4
  {
    var n := c as int;
    if n < 0x80 then [n]
    else if n < 0x800 then [0xC0 + n / 0x40, 0x80 + n % 0x40]
    else if n < 0x10000 then [0xE0 + n / 0x1000, 0x80 + n / 0x40 % 0x40, 0x80 + n % 0x40]
    else [0xF0 + n / 0x40000, 0x80 + n / 0x1000 % 0x40, 0x80 + n / 0x40 % 0x40, 0x80 + n % 0x40]
  }

  function Encode(cs: string): Bytes {
    if cs == [] then [] else EncodeChar(cs[0]) + Encode(cs[1..])
  }

  // ---- Well-formed byte strings ----

  predicate IsTail(b: byte) {
    0x80 <= b < 0xC0
  }

  // The range of the second byte depends on the first.
  predicate SecondByteOk(first: byte, second: byte) {
    if first == 0xE0 then 0xA0 <= second < 0xC0
    else if first == 0xED then 0x80 <= second < 0xA0
    else if first == 0xF0 then 0x90 <= second < 0xC0
    else if first == 0xF4 then 0x80 <= second < 0x90
    else IsTail(second)
  }

  function LengthFromLead(first: byte): nat {
    if first < 0x80 then 1
    else if 0xC2 <= first < 0xE0 then 2
    else if 0xE0 <= first < 0xF0 then 3
    else if 0xF0 <= first < 0xF5 then 4
    else 0
  }

  // The length of the character that `s` starts with, 0 when it starts with none.
  function FirstLen(s: Bytes): (k: nat)
    ensures k <= |s| && k <= 4
  {
    if s == [] then 0
    else
      var k := LengthFromLead(s[0]);
      if 1 <= k <= |s| && (k >= 2 ==> SecondByteOk(s[0], s[1])) &&
         (k >= 3 ==> IsTail(s[2])) && (k >= 4 ==> IsTail(s[3]))
      then k else 0
  }

  predicate WellFormed(s: Bytes) {
    s == [] || (FirstLen(s) > 0 && WellFormed(s[FirstLen(s)..]))
  }

  // As the standard library tests it.
  predicate IsBoundary(s: Bytes, i: nat) {
    i == 0 || i == |s| || (i < |s| && !IsTail(s[i]))
  }

  // The last boundary up to `i`.
  function FloorBoundary(s: Bytes, i: nat): (b: nat)
    requires i <= |s|
    ensures b <= i && IsBoundary(s, b)
    ensures forall j | b < j <= i :: !IsBoundary(s, j)
  {
    if IsBoundary(s, i) then i else FloorBoundary(s, i - 1)
  }

  // The first boundary from `i` on.
  function CeilBoundary(s: Bytes, i: nat): (b: nat)
    requires i <= |s|
    ensures i <= b <= |s| && IsBoundary(s, b)
    ensures forall j | i <= j < b :: !IsBoundary(s, j)
    decreases |s| - i
  {
    if IsBoundary(s, i) then i else CeilBoundary(s, i + 1)
  }

  // ---- Structure ----

  lemma FirstCharBytes(s: Bytes)
    requires FirstLen(s) > 0
    ensures !IsTail(s[0]) && forall i | 1 <= i < FirstLen(s) :: IsTail(s[i])
    ensures FirstLen(s) >= 2 ==> forall i | 0 <= i < FirstLen(s) :: s[i] >= 0x80
  {
  }

  lemma FirstLenIsLocal(a: Bytes, b: Bytes)
    requires FirstLen(a) > 0
    ensures FirstLen(a + b) == FirstLen(a)
  {
    var s := a + b;
    assert forall i | 0 <= i < |a| :: s[i] == a[i];
  }

  lemma {:induction false} ConcatWellFormed(a: Bytes, b: Bytes)
    requires WellFormed(a) && WellFormed(b)
    ensures WellFormed(a + b)
  {
    if a == [] {
      assert a + b == b;
    } else {
      var k := FirstLen(a);
      FirstLenIsLocal(a, b);
      assert (a + b)[k..] == a[k..] + b;
      ConcatWellFormed(a[k..], b);
    }
  }

  // Past the first character, boundaries are those of the rest.
  lemma BoundaryAfterFirst(s: Bytes, i: nat)
    requires WellFormed(s) && s != [] && 0 < i && IsBoundary(s, i) && i <= |s|
    ensures FirstLen(s) <= i && IsBoundary(s[FirstLen(s)..], i - FirstLen(s))
  {
    FirstCharBytes(s);
  }

  lemma FirstCharIsWellFormed(s: Bytes)
    requires FirstLen(s) > 0
    ensures FirstLen(s[..FirstLen(s)]) == FirstLen(s) && WellFormed(s[..FirstLen(s)])
  {
    var c := s[..FirstLen(s)];
    assert forall i | 0 <= i < |c| :: c[i] == s[i];
    assert c[|c|..] == [];
  }

  lemma {:induction false} SplitWellFormed(s: Bytes, i: nat)
    requires WellFormed(s) && i <= |s| && IsBoundary(s, i)
    ensures WellFormed(s[..i]) && WellFormed(s[i..])
  {
    if i == 0 || s == [] {
      assert s[..i] == [] && s[i..] == s;
    } else {
      var k := FirstLen(s);
      BoundaryAfterFirst(s, i);
      SplitWellFormed(s[k..], i - k);
      SplitPastFirst(s, k, i);
      FirstCharIsWellFormed(s);
      ConcatWellFormed(s[..k], s[k..][..i - k]);
    }
  }

  lemma SplitPastFirst(s: Bytes, k: nat, i: nat)
    requires k <= i <= |s|
    ensures s[i..] == s[k..][i - k..]
    ensures s[..i] == s[..k] + s[k..][..i - k]
  {
  }

  // An ASCII byte is a whole character, so a boundary follows it.
  lemma {:induction false} BoundaryAfterAscii(s: Bytes, i: nat)
    requires WellFormed(s) && 0 < i <= |s| && s[i - 1] < 0x80
    ensures IsBoundary(s, i)
  {
    if i < |s| {
      var k := FirstLen(s);
      FirstCharBytes(s);
      if i <= k {
        assert k == 1;
        if s[1..] != [] { FirstCharBytes(s[1..]); }
      } else {
        assert s[k..][i - k - 1] == s[i - 1];
        BoundaryAfterAscii(s[k..], i - k);
      }
    }
  }

  lemma LeadRanges(c: char)
    ensures LengthFromLead(EncodeChar(c)[0]) == |EncodeChar(c)|
    ensures FirstLen(EncodeChar(c)) == |EncodeChar(c)|
  {
    var n := c as int;
    assert n < 0xD800 || 0xE000 <= n < 0x11_0000;
  }

  lemma {:induction false} EncodeIsWellFormed(cs: string)
    ensures WellFormed(Encode(cs))
  {
    if cs != [] {
      var e := EncodeChar(cs[0]);
      LeadRanges(cs[0]);
      assert e[|e|..] == [];
      EncodeIsWellFormed(cs[1..]);
      ConcatWellFormed(e, Encode(cs[1..]));
    }
  }

  // A boundary is where a text can be cut in two texts.
  lemma BoundaryExactly(s: Bytes, i: nat)
    requires WellFormed(s) && i <= |s|
    ensures IsBoundary(s, i) <==> WellFormed(s[..i]) && WellFormed(s[i..])
  {
    if IsBoundary(s, i) {
      SplitWellFormed(s, i);
    } else {
      assert s[i..] != [] && s[i..][0] == s[i];
      if WellFormed(s[i..]) {
        FirstCharBytes(s[i..]);
      }
    }
  }

  // ---- Decoding ----

  // The code point of the character that `s` starts with: the payload bits of its
  // bytes, the first one first.
  function FirstCode(s: Bytes): (n: nat)
    requires FirstLen(s) > 0
    ensures n < 0xD800 || 0xE000 <= n < 0x11_0000
  {
    var k := FirstLen(s);
    var lead := s[0] as int;
    if k == 1 then lead
    else if k == 2 then (lead - 0xC0) * 0x40 + TailBits(s[1])
    else if k == 3 then (lead - 0xE0) * 0x1000 + TailBits(s[1]) * 0x40 + TailBits(s[2])
    else (lead - 0xF0) * 0x40000 + TailBits(s[1]) * 0x1000 + TailBits(s[2]) * 0x40 + TailBits(s[3])
  }

  function TailBits(b: byte): int {
    b as int - 0x80
  }

  function FirstChar(s: Bytes): char
    requires FirstLen(s) > 0
  {
    FirstCode(s) as char
  }

  function Decode(s: Bytes): string
    requires WellFormed(s)
  {
    if s == [] then [] else [FirstChar(s)] + Decode(s[FirstLen(s)..])
  }

  // Base-64 digits put together come apart again.
  lemma Digits(n: int)
    ensures n == n / 0x40 * 0x40 + n % 0x40
    ensures n == n / 0x1000 * 0x1000 + n / 0x40 % 0x40 * 0x40 + n % 0x40
    ensures n == n / 0x40000 * 0x40000 + n / 0x1000 % 0x40 * 0x1000 + n / 0x40 % 0x40 * 0x40 + n % 0x40
  {
    assert n / 0x1000 == n / 0x40 / 0x40;
    assert n / 0x40000 == n / 0x1000 / 0x40;
  }

  // An encoded character decodes to itself, whatever follows.
  lemma DecodeChar(c: char, rest: Bytes)
    ensures FirstLen(EncodeChar(c) + rest) == |EncodeChar(c)|
    ensures FirstChar(EncodeChar(c) + rest) == c
  {
    var e := EncodeChar(c);
    LeadRanges(c);
    FirstLenIsLocal(e, rest);
    FirstCodeIsLocal(e, rest);
    CodeOfChar(c);
  }

  lemma FirstCodeIsLocal(a: Bytes, b: Bytes)
    requires FirstLen(a) > 0 && FirstLen(a + b) == FirstLen(a)
    ensures FirstCode(a + b) == FirstCode(a)
  {
    assert forall i | 0 <= i < |a| :: (a + b)[i] == a[i];
  }

  lemma CodeOfChar(c: char)
    requires FirstLen(EncodeChar(c)) == |EncodeChar(c)|
    ensures FirstCode(EncodeChar(c)) == c as int
  {
    Digits(c as int);
  }

  // A decoded character encodes to its bytes.
  lemma EncodeFirst(s: Bytes)
    requires FirstLen(s) > 0
    ensures EncodeChar(FirstChar(s)) == s[..FirstLen(s)]
  {
    var k, n := FirstLen(s), FirstCode(s);
    if k == 2 {
      Places(s[0] as int - 0xC0, TailBits(s[1]));
    } else if k == 3 {
      ThreePlaces(s[0] as int - 0xE0, TailBits(s[1]), TailBits(s[2]));
    } else if k == 4 {
      FourPlaces(s[0] as int - 0xF0, TailBits(s[1]), TailBits(s[2]), TailBits(s[3]));
    }
  }

  lemma Places(a: int, b: int)
    requires 0 <= b < 0x40
    ensures (a * 0x40 + b) / 0x40 == a && (a * 0x40 + b) % 0x40 == b
  {
  }

  lemma ThreePlaces(a: int, b: int, c: int)
    requires 0 <= b < 0x40 && 0 <= c < 0x40
    ensures var n := a * 0x1000 + b * 0x40 + c;
            n / 0x1000 == a && n / 0x40 % 0x40 == b && n % 0x40 == c
  {
    var n := a * 0x1000 + b * 0x40 + c;
    assert n / 0x40 == a * 0x40 + b;
  }

  lemma FourPlaces(a: int, b: int, c: int, d: int)
    requires 0 <= b < 0x40 && 0 <= c < 0x40 && 0 <= d < 0x40
    ensures var n := a * 0x40000 + b * 0x1000 + c * 0x40 + d;
            n / 0x40000 == a && n / 0x1000 % 0x40 == b && n / 0x40 % 0x40 == c && n % 0x40 == d
  {
    var n := a * 0x40000 + b * 0x1000 + c * 0x40 + d;
    assert n / 0x40 == a * 0x1000 + b * 0x40 + c;
    ThreePlaces(a, b, c);
    assert n / 0x1000 == n / 0x40 / 0x40;
  }

  lemma EncodeCons(c: char, cs: string)
    ensures Encode([c] + cs) == EncodeChar(c) + Encode(cs)
  {
    assert ([c] + cs)[1..] == cs;
  }

  lemma Rejoin(s: Bytes, k: nat)
    requires k <= |s|
    ensures s[..k] + s[k..] == s
  {
  }

  // Encoding and decoding are inverse: every string has one encoding, and every
  // well-formed byte string is the encoding of one string.
  lemma {:induction false} DecodeEncoded(cs: string)
    ensures WellFormed(Encode(cs)) && Decode(Encode(cs)) == cs
  {
    EncodeIsWellFormed(cs);
    if cs != [] {
      var e, rest := EncodeChar(cs[0]), Encode(cs[1..]);
      DecodeChar(cs[0], rest);
      assert (e + rest)[|e|..] == rest;
      DecodeEncoded(cs[1..]);
    }
  }

  lemma {:induction false} EncodeDecoded(s: Bytes)
    requires WellFormed(s)
    ensures Encode(Decode(s)) == s
  {
    if s != [] {
      EncodeFirst(s);
      EncodeDecoded(s[FirstLen(s)..]);
      EncodeCons(FirstChar(s), Decode(s[FirstLen(s)..]));
      Rejoin(s, FirstLen(s));
    }
  }

  // The first example of section 7 of RFC 3629.
  lemma StandardExample()
    ensures Encode("A\U{2262}\U{0391}.") == [0x41, 0xE2, 0x89, 0xA2, 0xCE, 0x91, 0x2E]
  {
    var cs := "A\U{2262}\U{0391}.";
    assert cs[1..][1..][1..][1..] == [];
    assert Encode(cs[1..][1..][1..]) == [0x2E];
    assert Encode(cs[1..][1..]) == [0xCE, 0x91] + [0x2E];
    assert Encode(cs[1..]) == [0xE2, 0x89, 0xA2] + [0xCE, 0x91, 0x2E];
  }

  lemma HeadOfConcat(a: string, b: string)
    requires a != []
    ensures [a[0]] + (a[1..] + b) == a + b
  {
  }

  lemma Regroup(a: Bytes, b: Bytes, c: Bytes)
    ensures a + (b + c) == (a + b) + c
  {
  }

  lemma {:induction false} EncodeConcat(a: string, b: string)
    ensures Encode(a + b) == Encode(a) + Encode(b)
  {
    if a == [] {
      assert a + b == b;
    } else {
      EncodeConcat(a[1..], b);
      EncodeCons(a[0], a[1..] + b);
      HeadOfConcat(a, b);
      Regroup(EncodeChar(a[0]), Encode(a[1..]), Encode(b));
    }
  }

  lemma DecodeConcat(a: Bytes, b: Bytes)
    requires WellFormed(a) && WellFormed(b)
    ensures WellFormed(a + b) && Decode(a + b) == Decode(a) + Decode(b)
  {
    ConcatWellFormed(a, b);
    EncodeDecoded(a);
    EncodeDecoded(b);
    EncodeConcat(Decode(a), Decode(b));
    DecodeEncoded(Decode(a) + Decode(b));
  }

  // Between neighbouring boundaries there is one character.
  lemma OneCharacter(s: Bytes, p: nat, i: nat)
    requires WellFormed(s) && p < i <= |s| && IsBoundary(s, p) && IsBoundary(s, i)
    requires forall j | p < j < i :: !IsBoundary(s, j)
    ensures WellFormed(s[p..i]) && |Decode(s[p..i])| == 1
  {
    var c := s[p..i];
    BetweenBoundaries(s, p, i);
    var k := FirstLen(c);
    if k < i - p {
      assert c[k..] != [] && c[k..][0] == s[p + k];
      FirstCharBytes(c[k..]);
      assert IsBoundary(s, p + k);
    }
    assert c[k..] == [];
  }

  lemma BetweenBoundaries(s: Bytes, p: nat, i: nat)
    requires WellFormed(s) && p <= i <= |s| && IsBoundary(s, p) && IsBoundary(s, i)
    ensures WellFormed(s[p..i])
  {
    SplitWellFormed(s, i);
    assert IsBoundary(s[..i], p);
    SplitWellFormed(s[..i], p);
    assert s[..i][p..] == s[p..i];
  }

  // An ASCII byte is a character, and occurs in no other.
  lemma {:induction false} AsciiInText(s: Bytes, c: char)
    requires WellFormed(s) && c as int < 0x80
    ensures c in Decode(s) <==> c as int in s
  {
    if s != [] {
      var k := FirstLen(s);
      AsciiInText(s[k..], c);
      AsciiFirst(s, c);
      Rejoin(s, k);
    }
  }

  lemma AsciiFirst(s: Bytes, c: char)
    requires FirstLen(s) > 0 && c as int < 0x80
    ensures c as int in s[..FirstLen(s)] <==> FirstChar(s) == c
  {
    var k := FirstLen(s);
    EncodeFirst(s);
    if k == 1 {
      assert s[..k] == [s[0]];
    } else {
      FirstCharBytes(s);
      assert FirstCode(s) >= 0x80;
      assert forall b <- s[..k] :: b >= 0x80;
    }
  }
}
