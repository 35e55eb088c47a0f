// The 64-bit tagged word: an IEEE 754 double (IEEE 754-2008, section 3.4), or a
// quiet NaN (section 6.2.1) whose free bits hold a 4-bit tag and a 47-bit payload.
module NanBox {
  import opened Bits
  import opened Wrappers

  type Word = w: int | 0 <= w < 0x1_0000_0000_0000_0000

  const PAYLOAD_MASK: nat := 0x7FFF_FFFF_FFFF
  const TAG_MASK: nat := 0x7_8000_0000_0000
  const TAG_SHIFT: nat := 47
  const QNAN_BASE: nat := 0x7FF8_0000_0000_0000
  const QNAN_TAG_MASK: nat := 0x7FFF_8000_0000_0000
  const SMALLINT_SIGN_BIT: nat := 0x4000_0000_0000
  const SMALLINT_SIGN_EXT: nat := 0xFFFF_8000_0000_0000
  const SMALLINT_MAX: int := 0x3FFF_FFFF_FFFF
  const SMALLINT_MIN: int := -0x4000_0000_0000
  const CANON_NAN: Word := 0x7FF0_0000_0000_0001

  const TAG_SMALLINT: nat := 0
  const TAG_BOOL: nat := 0x8000_0000_0000
  const TAG_NIL: nat := 0x1_0000_0000_0000
  const TAG_SYMBOL: nat := 0x1_8000_0000_0000
  const TAG_BIGINT: nat := 0x3_0000_0000_0000
  const TAG_VMFUNC: nat := 0x3_8000_0000_0000

  const TAGS: set<nat> := {TAG_SMALLINT, TAG_BOOL, TAG_NIL, TAG_SYMBOL, TAG_BIGINT, TAG_VMFUNC}

  // Tags are kept shifted into place.
  function TagNumber(tag: nat): (t: nat)
    requires tag in TAGS
    ensures tag == 0x8000_0000_0000 * t && t <= 7
  {
    tag / 0x8000_0000_0000
  }

  const I64_MIN: int := -0x8000_0000_0000_0000
  const I64_MAX: int := 0x7FFF_FFFF_FFFF_FFFF

  type I64 = i: int | I64_MIN <= i <= I64_MAX

  // Casts between i64 and u64 keep the bits.
  function AsU64(i: I64): Word {
    if i < 0 then i + 0x1_0000_0000_0000_0000 else i
  }

  function AsI64(w: Word): I64 {
    if w >= 0x8000_0000_0000_0000 then w - 0x1_0000_0000_0000_0000 else w
  }

  // ---- Predicates and accessors, as masks ----

  predicate IsFloat(w: Word) {
    And(w, 0x7FF8_0000_0000_0000) != QNAN_BASE
  }

  // `ConstantsAreUnions` shows that the folded constants are the source's unions.
  predicate HasTag(w: Word, tag: nat) {
    And(w, QNAN_TAG_MASK) == QNAN_BASE + tag
  }

  predicate IsInt(w: Word) { HasTag(w, TAG_SMALLINT) }
  predicate IsBool(w: Word) { HasTag(w, TAG_BOOL) }
  predicate IsNil(w: Word) { HasTag(w, TAG_NIL) }
  predicate IsSymbol(w: Word) { HasTag(w, TAG_SYMBOL) }
  predicate IsBigInt(w: Word) { HasTag(w, TAG_BIGINT) }
  predicate IsVmFunc(w: Word) { HasTag(w, TAG_VMFUNC) }

  function TagIndex(w: Word): nat {
    Shr(And(w, TAG_MASK), TAG_SHIFT)
  }

  predicate IsScalarTag(tag: nat) {
    tag <= 3
  }

  function FromRawScalar(w: Word): Option<Word> {
    if IsFloat(w) || IsScalarTag(TagIndex(w)) then Some(w) else None
  }

  function Payload(w: Word): nat {
    And(w, PAYLOAD_MASK)
  }

  function AsInt(w: Word): Option<I64> {
    if IsInt(w) then
      PayloadBound(w);
      var payload := Payload(w);
      SignExtended(payload);
      Some(if And(payload, SMALLINT_SIGN_BIT) != 0 then AsI64(Or(payload, SMALLINT_SIGN_EXT)) else AsI64(payload))
    else None
  }

  function AsFloat(w: Word): Option<Word> {
    if IsFloat(w) then Some(w) else None
  }

  function AsBool(w: Word): Option<bool> {
    if IsBool(w) then Some(And(w, 1) != 0) else None
  }

  function AsSymbol(w: Word): Option<nat> {
    if IsSymbol(w) then Some(Payload(w) % 0x1_0000_0000) else None
  }

  // ---- Constructors, as masks ----

  function Tagged(tag: nat, payload: nat): Word
    requires tag in TAGS && payload <= PAYLOAD_MASK
  {
    TaggedLayout(tag, payload);
    Or(QNAN_BASE + tag, payload)
  }

  function FromInt(i: I64): Word {
    PayloadBound(AsU64(i));
    Tagged(TAG_SMALLINT, And(AsU64(i), PAYLOAD_MASK))
  }

  function TryFromInt(i: I64): Option<Word> {
    if SMALLINT_MIN <= i <= SMALLINT_MAX then Some(FromInt(i)) else None
  }

  function FromFloat(bits: Word): Word {
    if And(bits, 0x7FF8_0000_0000_0000) == 0x7FF8_0000_0000_0000 then CANON_NAN else bits
  }

  function FromBool(b: bool): Word {
    Tagged(TAG_BOOL, if b then 1 else 0)
  }

  function FromSymbol(idx: nat): Word
    requires idx < 0x1_0000_0000
  {
    Tagged(TAG_SYMBOL, idx)
  }

  // The address of a heap integer fits the payload.
  function FromHandle(ptr: nat): Word
    requires ptr <= PAYLOAD_MASK
  {
    Tagged(TAG_BIGINT, ptr)
  }

  // ---- The layout behind the masks ----

  lemma Masks()
    ensures PAYLOAD_MASK == Ones(47) && SMALLINT_MAX == Ones(46) && Ones(51) == 0x7_FFFF_FFFF_FFFF
    ensures Ones(1) == 1 && Ones(4) == 0xF && Ones(12) == 0xFFF && Ones(16) == 0xFFFF && Ones(17) == 0x1FFFF
    ensures TAG_MASK == Shl(Ones(4), 47)
    ensures QNAN_BASE == Shl(Ones(12), 51)
    ensures SMALLINT_SIGN_BIT == Shl(Ones(1), 46) && SMALLINT_SIGN_EXT == Shl(Ones(17), 47)
  {
    OnesFillUp(46);
    OnesFillUp(47);
    OnesFillUp(51);
    ShlIsTimes(1);
    ShlIsTimes(0xF);
    ShlIsTimes(0xFFF);
    ShlIsTimes(0x1FFFF);
    SmallOnes();
  }

  lemma SmallOnes()
    ensures Ones(1) == 1 && Ones(4) == 0xF && Ones(12) == 0xFFF && Ones(16) == 0xFFFF && Ones(17) == 0x1FFFF
  {
    assert Ones(2) == 3 && Ones(4) == 15;
    assert Ones(6) == 63 && Ones(8) == 255;
    assert Ones(10) == 1023 && Ones(12) == 4095;
    assert Ones(14) == 16383 && Ones(16) == 65535;
  }

  lemma TagMaskLayout()
    ensures QNAN_TAG_MASK == Shl(Ones(16), 47)
  {
    ShlIsTimes(0xFFFF);
    SmallOnes();
  }

  // The constants of the tag test and of the constructors are unions of the
  // quiet-NaN base with the tag mask and with one tag, all below its bits.
  lemma ConstantsAreUnions(low: nat)
    requires low <= 0x7_FFFF_FFFF_FFFF
    ensures Or(QNAN_BASE, low) == QNAN_BASE + low
    ensures low == TAG_MASK ==> Or(QNAN_BASE, low) == QNAN_TAG_MASK
  {
    Masks();
    OrDisjoint(Ones(12), low, 51);
  }

  lemma PayloadBound(w: Word)
    ensures Payload(w) == Low(w, 47) <= PAYLOAD_MASK
  {
    Masks();
    AndOnes(w, 47);
    LowBound(w, 47);
  }

  // The sign bit of a payload, and what setting the bits above it adds.
  lemma SignExtended(p: nat)
    requires p <= PAYLOAD_MASK
    ensures And(p, SMALLINT_SIGN_BIT) != 0 <==> p > SMALLINT_MAX
    ensures Or(p, SMALLINT_SIGN_EXT) == p + SMALLINT_SIGN_EXT
  {
    Masks();
    AndField(p, 1, 46);
    var h := if p > SMALLINT_MAX then 1 else 0;
    ShlIsTimes(h);
    ShrShl(h, p - Shl(h, 46), 46);
    assert Field(p, 1, 46) == h;
    OrCommutes(p, SMALLINT_SIGN_EXT);
    OrDisjoint(Ones(17), p, 47);
  }

  // Bits 47 to 62 of a tagged word: twelve ones, then the tag.
  function TopBits(w: Word): nat {
    Field(w, 16, 47)
  }

  lemma TaggedLayout(tag: nat, payload: nat)
    requires tag in TAGS && payload <= PAYLOAD_MASK
    ensures Or(QNAN_BASE + tag, payload) == Shl(0xFFF0 + TagNumber(tag), 47) + payload == QNAN_BASE + tag + payload
    ensures Or(QNAN_BASE + tag, payload) < 0x8000_0000_0000_0000
  {
    var x := 0xFFF0 + TagNumber(tag);
    Masks();
    ShlIsTimes(x);
    OrDisjoint(x, payload, 47);
  }

  lemma PartWidths()
    ensures Ones(16) == 0xFFFF && Ones(47) == PAYLOAD_MASK
  {
    Masks();
  }

  lemma TopReadsBack(w: nat, high: nat, low: nat)
    requires high <= 0xFFFF && low <= PAYLOAD_MASK && w == Shl(high, 47) + low
    ensures Field(w, 16, 47) == high && Low(w, 47) == low
  {
    PartWidths();
    ReadsParts(high, low, 16, 47);
  }

  lemma ReadsBack(tag: nat, payload: nat)
    requires tag in TAGS && payload <= PAYLOAD_MASK
    ensures TopBits(Tagged(tag, payload)) == 0xFFF0 + TagNumber(tag)
    ensures Payload(Tagged(tag, payload)) == payload
  {
    TaggedLayout(tag, payload);
    TopReadsBack(Tagged(tag, payload), 0xFFF0 + TagNumber(tag), payload);
    PayloadBound(Tagged(tag, payload));
  }

  // ---- Classification of every word ----

  datatype Class = FloatClass | TagClass(tag: nat)

  function Classify(w: Word): Class {
    if TopBits(w) / 16 != 0xFFF then FloatClass else TagClass(TopBits(w) % 16)
  }

  lemma FloatMask(w: Word)
    ensures IsFloat(w) <==> TopBits(w) / 16 != 0xFFF
  {
    Masks();
    FieldTest(w, 0xFFF, 12, 51);
    TopTwelve(w);
  }

  lemma TopTwelve(w: Word)
    ensures Field(w, 12, 51) == TopBits(w) / 16
  {
    ShrShr(w, 47, 4);
    ShrLow(Shr(w, 47), 12, 4);
    ShrFour(TopBits(w));
  }

  lemma TagMask(w: Word)
    ensures TagIndex(w) == TopBits(w) % 16
  {
    Masks();
    AndField(w, 4, 47);
    ShrShl(Field(w, 4, 47), 0, 47);
    LowLow(Shr(w, 47), 4, 12);
    LowFour(TopBits(w));
  }

  lemma TagTest(w: Word, tag: nat)
    requires tag in TAGS
    ensures HasTag(w, tag) <==> TopBits(w) == 0xFFF0 + TagNumber(tag)
  {
    TagMaskLayout();
    ShlIsTimes(0xFFF0 + TagNumber(tag));
    FieldTest(w, 0xFFF0 + TagNumber(tag), 16, 47);
  }

  // The predicates test disjoint classes, and the boundary constructor admits
  // exactly the words with no pointer or table index in them.
  lemma EveryWordHasOneClass(w: Word)
    ensures IsFloat(w) <==> Classify(w) == FloatClass
    ensures IsInt(w) <==> Classify(w) == TagClass(0)
    ensures IsBool(w) <==> Classify(w) == TagClass(1)
    ensures IsNil(w) <==> Classify(w) == TagClass(2)
    ensures IsSymbol(w) <==> Classify(w) == TagClass(3)
    ensures IsBigInt(w) <==> Classify(w) == TagClass(6)
    ensures IsVmFunc(w) <==> Classify(w) == TagClass(7)
    ensures FromRawScalar(w) ==
            if IsFloat(w) || IsInt(w) || IsBool(w) || IsNil(w) || IsSymbol(w) then Some(w) else None
  {
    FloatMask(w);
    TagMask(w);
    TagTest(w, TAG_SMALLINT);
    TagTest(w, TAG_BOOL);
    TagTest(w, TAG_NIL);
    TagTest(w, TAG_SYMBOL);
    TagTest(w, TAG_BIGINT);
    TagTest(w, TAG_VMFUNC);
    Masks();
    LowBound(Shr(w, 47), 16);
  }

  // ---- Round trips ----

  // What an i64 becomes when only 47 bits of it survive.
  function Wrap47(i: int): int {
    (i + 0x4000_0000_0000) % 0x8000_0000_0000 - 0x4000_0000_0000
  }

  // Boxing any i64 and reading it back keeps its low 47 bits, sign-extended; it
  // is the identity exactly on the small-integer range.
  lemma IntReadsBack(i: I64)
    ensures AsInt(FromInt(i)) == Some(Wrap47(i))
    ensures Wrap47(i) == i <==> SMALLINT_MIN <= i <= SMALLINT_MAX
    ensures Classify(FromInt(i)) == TagClass(0)
  {
    PayloadOfInt(AsU64(i));
    BoxedPayload(And(AsU64(i), PAYLOAD_MASK));
    LowBitsWrap(i);
  }

  lemma LowBitsWrap(i: I64)
    ensures var p := AsU64(i) % 0x8000_0000_0000;
            Wrap47(i) == if p > SMALLINT_MAX then p - 0x8000_0000_0000 else p
  {
  }

  lemma PayloadOfInt(u: Word)
    ensures And(u, PAYLOAD_MASK) == u % 0x8000_0000_0000
  {
    var q, p := u / 0x8000_0000_0000, u % 0x8000_0000_0000;
    Masks();
    AndOnes(u, 47);
    ShlIsTimes(q);
    LowShl(q, p, 47);
  }

  lemma BoxedPayload(p: nat)
    requires p <= PAYLOAD_MASK
    ensures AsInt(Tagged(TAG_SMALLINT, p)) == Some(if p > SMALLINT_MAX then p - 0x8000_0000_0000 else p)
    ensures Classify(Tagged(TAG_SMALLINT, p)) == TagClass(0)
  {
    ClassOfTagged(TAG_SMALLINT, p);
    SignExtended(p);
  }

  // A tagged word satisfies exactly the predicate of its tag.
  lemma ClassOfTagged(tag: nat, payload: nat)
    requires tag in TAGS && payload <= PAYLOAD_MASK
    ensures var w := Tagged(tag, payload);
            Classify(w) == TagClass(TagNumber(tag)) && HasTag(w, tag) && !IsFloat(w) && Payload(w) == payload &&
            (FromRawScalar(w) == None <==> tag in {TAG_BIGINT, TAG_VMFUNC})
  {
    ReadsBack(tag, payload);
    TagTest(Tagged(tag, payload), tag);
    FloatMask(Tagged(tag, payload));
    TagMask(Tagged(tag, payload));
  }

  lemma BoolReadsBack(b: bool)
    ensures AsBool(FromBool(b)) == Some(b)
    ensures Classify(FromBool(b)) == TagClass(1)
  {
    var p := if b then 1 else 0;
    ClassOfTagged(TAG_BOOL, p);
    LowBitOfBool(p);
  }

  lemma LowBitOfBool(p: nat)
    requires p <= 1
    ensures And(Tagged(TAG_BOOL, p), 1) == p
  {
    TaggedLayout(TAG_BOOL, p);
    AndOne(Tagged(TAG_BOOL, p));
  }

  lemma SymbolReadsBack(idx: nat)
    requires idx < 0x1_0000_0000
    ensures AsSymbol(FromSymbol(idx)) == Some(idx)
    ensures Classify(FromSymbol(idx)) == TagClass(3)
  {
    ClassOfTagged(TAG_SYMBOL, idx);
  }

  lemma HandleReadsBack(ptr: nat)
    requires ptr <= PAYLOAD_MASK
    ensures IsBigInt(FromHandle(ptr)) && Payload(FromHandle(ptr)) == ptr
    ensures FromRawScalar(FromHandle(ptr)) == None
  {
    ClassOfTagged(TAG_BIGINT, ptr);
  }

  // A double is a NaN when its exponent is all ones and its mantissa is not 0.
  predicate IsNaN(bits: Word) {
    Field(bits, 11, 52) == 0x7FF && Low(bits, 52) != 0
  }

  // Its quiet bit is the first of the mantissa.
  predicate IsQuietNaN(bits: Word) {
    IsNaN(bits) && Field(bits, 1, 51) == 1
  }

  // Every double stays a float. The quiet NaNs, of either sign and with any
  // payload, become the canonical NaN; everything else keeps its bits.
  lemma FloatReadsBack(bits: Word)
    ensures AsFloat(FromFloat(bits)) == Some(if IsQuietNaN(bits) then CANON_NAN else bits)
    ensures IsNaN(FromFloat(bits)) <==> IsNaN(bits)
    ensures IsNaN(CANON_NAN) && !IsQuietNaN(CANON_NAN)
  {
    FloatsAreNotQuiet(bits);
    CanonicalNaN();
    FloatsAreNotQuiet(CANON_NAN);
  }

  // The bits that the float test reads are the exponent and the quiet bit.
  lemma TwelveBits(bits: Word)
    ensures Field(bits, 12, 51) == Field(bits, 1, 51) + 2 * Field(bits, 11, 52)
    ensures Field(bits, 1, 51) == Shr(bits, 51) % 2
  {
    var x := Shr(bits, 51);
    ShrShr(bits, 51, 1);
    assert Shr(x, 1) == Shr(x / 2, 0) == x / 2;
    assert Low(x, 12) == x % 2 + 2 * Low(x / 2, 11);
    assert Low(x, 1) == x % 2 + 2 * Low(x / 2, 0);
  }

  lemma FloatsAreNotQuiet(bits: Word)
    ensures IsFloat(bits) <==> !IsQuietNaN(bits)
  {
    FloatMask(bits);
    TopTwelve(bits);
    TwelveBits(bits);
    LowBound(Shr(bits, 52), 11);
    OnesOfEleven();
    if Field(bits, 1, 51) == 1 {
      QuietBitIsSet(bits);
    }
    LowBound(Shr(bits, 47), 16);
    SmallOnes();
  }

  lemma QuietBitIsSet(bits: Word)
    requires Shr(bits, 51) % 2 == 1
    ensures Low(bits, 52) != 0
  {
    ShrLow(bits, 1, 51);
    ShrShl(0, 0, 51);
    ShlIsTimes(0);
    assert Low(Shr(bits, 51), 1) == 1;
  }

  lemma CanonicalNaN()
    ensures IsFloat(CANON_NAN) && IsNaN(CANON_NAN)
  {
    Masks();
    ShlIsTimes(0xFFE0);
    ReadsParts(0xFFE0, 1, 16, 47);
    FloatMask(CANON_NAN);
    CanonicalExponent();
    assert Low(CANON_NAN, 52) == CANON_NAN % 2 + 2 * Low(CANON_NAN / 2, 51);
  }

  lemma CanonicalExponent()
    ensures Field(CANON_NAN, 11, 52) == 0x7FF
  {
    ShlIsTimes(0xFFE);
    Masks();
    ShrShl(0xFFE, 1, 51);
    ShrShr(CANON_NAN, 51, 1);
    assert Shr(CANON_NAN, 52) == 0x7FF;
    OnesOfEleven();
    LowOfSmall(0x7FF, 11);
  }

  lemma OnesOfEleven()
    ensures Ones(11) == 0x7FF
  {
    SmallOnes();
    assert Ones(12) == 1 + 2 * Ones(11);
  }
}
