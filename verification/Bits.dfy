// Bitwise operations on unsigned words, and what they mean for the contiguous
// masks that a tagged word is built with.
module Bits {

  function And(a: nat, b: nat): nat {
    if a == 0 || b == 0 then 0
    else (if a % 2 == 1 && b % 2 == 1 then 1 else 0) + 2 * And(a / 2, b / 2)
  }

  function Or(a: nat, b: nat): nat {
    if a == 0 then b
    else if b == 0 then a
    else (if a % 2 == 1 || b % 2 == 1 then 1 else 0) + 2 * Or(a / 2, b / 2)
  }

  function Shl(x: nat, k: nat): nat {
    if k == 0 then x else 2 * Shl(x, k - 1)
  }

  function Shr(x: nat, k: nat): nat {
    if k == 0 then x else Shr(x / 2, k - 1)
  }

  // The low `k` bits.
  function Low(x: nat, k: nat): nat {
    if k == 0 then 0 else x % 2 + 2 * Low(x / 2, k - 1)
  }

  // The `n` bits that start at bit `k`.
  function Field(w: nat, n: nat, k: nat): nat {
    Low(Shr(w, k), n)
  }

  function Ones(k: nat): nat {
    if k == 0 then 0 else 1 + 2 * Ones(k - 1)
  }

  lemma {:induction false} AndOnes(w: nat, k: nat)
    ensures And(w, Ones(k)) == Low(w, k)
  {
    if k > 0 {
      AndOnes(w / 2, k - 1);
      if w == 0 { AndOnes(0, k - 1); }
    }
  }

  lemma {:induction false} AndShl(w: nat, m: nat, k: nat)
    ensures And(w, Shl(m, k)) == Shl(And(Shr(w, k), m), k)
  {
    if k > 0 {
      AndShl(w / 2, m, k - 1);
    }
  }

  // A contiguous mask reads a field in place.
  lemma AndField(w: nat, n: nat, k: nat)
    ensures And(w, Shl(Ones(n), k)) == Shl(Field(w, n, k), k)
  {
    AndShl(w, Ones(n), k);
    AndOnes(Shr(w, k), n);
  }

  lemma {:induction false} ShlInjective(x: nat, y: nat, k: nat)
    requires Shl(x, k) == Shl(y, k)
    ensures x == y
  {
    if k > 0 {
      ShlInjective(x, y, k - 1);
    }
  }

  // Bits that do not overlap add up.
  lemma {:induction false} OrDisjoint(high: nat, low: nat, k: nat)
    requires low <= Ones(k)
    ensures Or(Shl(high, k), low) == Shl(high, k) + low
  {
    if k > 0 {
      OrDisjoint(high, low / 2, k - 1);
    }
  }

  lemma {:induction false} ShrShl(high: nat, low: nat, k: nat)
    requires low <= Ones(k)
    ensures Shr(Shl(high, k) + low, k) == high
  {
    if k > 0 {
      assert (2 * Shl(high, k - 1) + low) / 2 == Shl(high, k - 1) + low / 2;
      ShrShl(high, low / 2, k - 1);
    }
  }

  lemma {:induction false} LowShl(high: nat, low: nat, k: nat)
    requires low <= Ones(k)
    ensures Low(Shl(high, k) + low, k) == low
  {
    if k > 0 {
      assert (2 * Shl(high, k - 1) + low) / 2 == Shl(high, k - 1) + low / 2;
      LowShl(high, low / 2, k - 1);
    }
  }

  lemma {:induction false} LowBound(x: nat, k: nat)
    ensures Low(x, k) <= Ones(k)
  {
    if k > 0 {
      LowBound(x / 2, k - 1);
    }
  }

  lemma {:induction false} LowOfSmall(x: nat, k: nat)
    requires x <= Ones(k)
    ensures Low(x, k) == x
  {
    if k > 0 {
      LowOfSmall(x / 2, k - 1);
    }
  }

  lemma {:induction false} ShrShr(x: nat, j: nat, k: nat)
    ensures Shr(x, j + k) == Shr(Shr(x, j), k)
  {
    if j > 0 {
      ShrShr(x / 2, j - 1, k);
    }
  }

  lemma {:induction false} ShrLow(x: nat, n: nat, k: nat)
    ensures Shr(Low(x, n + k), k) == Low(Shr(x, k), n)
  {
    if k > 0 {
      assert Low(x, n + k) / 2 == Low(x / 2, n + k - 1);
      ShrLow(x / 2, n, k - 1);
    }
  }

  lemma {:induction false} LowLow(x: nat, n: nat, k: nat)
    ensures Low(Low(x, n + k), n) == Low(x, n)
  {
    if n > 0 {
      assert Low(x, n + k) / 2 == Low(x / 2, n - 1 + k);
      LowLow(x / 2, n - 1, k);
    }
  }

  lemma {:induction false} OrCommutes(a: nat, b: nat)
    ensures Or(a, b) == Or(b, a)
  {
    if a != 0 && b != 0 {
      OrCommutes(a / 2, b / 2);
    }
  }

  lemma {:induction false} ShlShl(x: nat, j: nat, k: nat)
    ensures Shl(x, j + k) == Shl(Shl(x, j), k)
  {
    if k > 0 {
      ShlShl(x, j, k - 1);
    }
  }

  lemma {:induction false} OnesFillUp(k: nat)
    ensures Ones(k) + 1 == Shl(1, k)
  {
    if k > 0 {
      OnesFillUp(k - 1);
    }
  }

  lemma ShlFour(x: nat)
    ensures Shl(x, 4) == 16 * x
  {
    assert Shl(x, 1) == 2 * x;
    assert Shl(x, 2) == 2 * Shl(x, 1);
    assert Shl(x, 3) == 2 * Shl(x, 2);
    assert Shl(x, 4) == 2 * Shl(x, 3);
  }

  lemma ShlSixteen(x: nat)
    ensures Shl(x, 16) == 65536 * x
  {
    ShlFour(x);
    ShlFour(16 * x);
    ShlFour(256 * x);
    ShlFour(4096 * x);
    ShlShl(x, 4, 4);
    ShlShl(x, 8, 4);
    ShlShl(x, 12, 4);
  }

  // The shifts of the word layout, as multiplications.
  lemma ShlIsTimes(x: nat)
    ensures Shl(x, 46) == 0x4000_0000_0000 * x
    ensures Shl(x, 47) == 0x8000_0000_0000 * x
    ensures Shl(x, 51) == 0x8_0000_0000_0000 * x
  {
    ShlSixteen(x);
    ShlShl(x, 16, 16);
    ShlSixteen(65536 * x);
    ShlShl(x, 32, 16);
    var y := 0x1_0000_0000 * x;
    ShlSixteen(y);
    assert Shl(x, 48) == 65536 * y;
    assert Shl(x, 48) == 2 * Shl(x, 47) == 4 * Shl(x, 46);
    ShlShl(x, 47, 4);
    ShlFour(Shl(x, 47));
  }

  lemma ShrFour(x: nat)
    ensures Shr(x, 4) == x / 16
  {
    var y := x / 2 / 2;
    assert Shr(y / 2, 1) == Shr(y / 2 / 2, 0) == y / 2 / 2;
    assert Shr(x, 4) == Shr(x / 2, 3);
    assert Shr(x / 2, 3) == Shr(y, 2);
    assert Shr(y, 2) == Shr(y / 2, 1);
  }

  lemma LowTwo(x: nat)
    ensures Low(x, 2) == x % 4
  {
    assert Low(x / 2, 1) == x / 2 % 2;
  }

  lemma LowFour(x: nat)
    ensures Low(x, 4) == x % 16
  {
    var y := x / 2 / 2;
    assert Low(x / 2, 3) == x / 2 % 2 + 2 * Low(y, 2);
    assert Low(x, 4) == x % 2 + 2 * Low(x / 2, 3);
    LowTwo(y);
    QuarterRemainder(x);
  }

  lemma QuarterRemainder(x: nat)
    ensures x % 16 == x % 2 + 2 * (x / 2 % 2) + 4 * (x / 2 / 2 % 4)
  {
    assert x == 2 * (x / 2) + x % 2;
    assert x / 2 == 2 * (x / 2 / 2) + x / 2 % 2;
    assert x / 2 / 2 == 4 * (x / 16) + x / 2 / 2 % 4;
  }

  lemma AndOne(x: nat)
    ensures And(x, 1) == x % 2
  {
  }

  // Reading both parts of a word built from a high and a low part.
  lemma ReadsParts(high: nat, low: nat, n: nat, k: nat)
    requires high <= Ones(n) && low <= Ones(k)
    ensures Field(Shl(high, k) + low, n, k) == high && Low(Shl(high, k) + low, k) == low
  {
    ShrShl(high, low, k);
    LowOfSmall(high, n);
    LowShl(high, low, k);
  }

  // A masked comparison tests a field.
  lemma FieldTest(w: nat, x: nat, n: nat, k: nat)
    ensures And(w, Shl(Ones(n), k)) == Shl(x, k) <==> Field(w, n, k) == x
  {
    AndField(w, n, k);
    if Shl(Field(w, n, k), k) == Shl(x, k) {
      ShlInjective(Field(w, n, k), x, k);
    }
  }
}
