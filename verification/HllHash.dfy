/** How hll_add reads a 64-bit hash: 14 bits of register number, then the position of the first 1-bit. */
module HllHash {
  import opened Bytes

  const Q: nat := 50
  const TWO50: nat := 0x4_0000_0000_0000
  const TWO63: nat := 0x8000_0000_0000_0000
  const TWO64: nat := 0x1_0000_0000_0000_0000

  /** The first position, counted from 1, at which the lower 50 bits have a 1; 51 if they have none. */
  ghost function FirstOne(low: nat, z: nat): (r: nat)
    requires 1 <= z <= Q + 1
    ensures z <= r <= Q + 1
    decreases Q + 1 - z
  {
    if z > Q || low >= Pow2(Q - z) then z else FirstOne(low, z + 1)
  }

  ghost function Rank(hash: nat): (r: nat)
    ensures 1 <= r <= Q + 1
  {
    FirstOne(hash % 0x4_0000_0000_0000, 1)
  }

  ghost function RegNo(hash: nat): nat { hash / 0x4_0000_0000_0000 }

  lemma {:induction false} FirstOneIs(low: nat, z: nat)
    requires 1 <= z <= Q + 1 && low < Pow2(Q + 1 - z)
    ensures var r := FirstOne(low, z); low < Pow2(Q + 1 - r) && (r <= Q ==> Pow2(Q - r) <= low)
    decreases Q + 1 - z
  {
    if z <= Q && low < Pow2(Q - z) {
      FirstOneIs(low, z + 1);
    }
  }

  /** The rank brackets the lower bits between two powers of two, and is 51 exactly when they are all zero. */
  lemma RankIs(hash: nat)
    ensures var low, r := hash % TWO50, Rank(hash);
      low < Pow2(Q + 1 - r) && (r <= Q ==> Pow2(Q - r) <= low) && (low == 0 <==> r == Q + 1)
  {
    Powers();
    FirstOneIs(hash % TWO50, 1);
  }

  /** The register number is what stands above the lower 50 bits, and with them determines the hash. */
  lemma RegNoIs(hash: nat)
    ensures RegNo(hash) * Pow2(50) + hash % Pow2(50) == hash
    ensures hash < Pow2(50) * Pow2(14) ==> RegNo(hash) < Pow2(14)
  {
    Powers();
  }

  /** Two hashes with the same register number and the same lower bits are one. */
  lemma PartsDetermine(a: nat, b: nat)
    requires RegNo(a) == RegNo(b) && a % Pow2(50) == b % Pow2(50)
    ensures a == b
  {
    RegNoIs(a);
    RegNoIs(b);
  }

  lemma {:induction false} Pow2Add(a: nat, b: nat)
    ensures Pow2(a + b) == Pow2(a) * Pow2(b)
  {
    if a > 0 {
      Pow2Add(a - 1, b);
      Doubled(Pow2(a - 1), Pow2(b));
    }
  }

  lemma Doubled(x: nat, y: nat)
    ensures 2 * (x * y) == (2 * x) * y
  {
  }

  lemma Powers()
    ensures Pow2(50) == TWO50 && Pow2(14) == 16384 && Pow2(63) == TWO63
  {
    assert Pow2(10) == 1024;
    assert Pow2(20) == 1024 * Pow2(10);
    assert Pow2(30) == 1024 * Pow2(20);
    assert Pow2(40) == 1024 * Pow2(30);
    assert Pow2(50) == 1024 * Pow2(40);
    assert Pow2(60) == 1024 * Pow2(50);
  }

  lemma Scale(low: nat, q: nat, p: nat)
    requires p > 0
    ensures low * p >= q * p <==> low >= q
  {
    if low >= q {
      assert low * p >= q * p;
    } else {
      assert low * p <= (q - 1) * p;
    }
  }

  ghost function Shifted(low: nat, k: nat): nat { low * Pow2(k) }

  /** The test of bit 63 after the lower bits have been shifted up. */
  lemma BitTest(low: nat, z: nat)
    requires 1 <= z <= Q
    ensures Shifted(low, 13 + z) >= TWO63 <==> low >= Pow2(Q - z)
  {
    Powers();
    Pow2Add(Q - z, 13 + z);
    Scale(low, Pow2(Q - z), Pow2(13 + z));
  }

  lemma Twice(low: nat, k: nat)
    requires Shifted(low, k) < TWO63
    ensures Shifted(low, k) * 2 % TWO64 == Shifted(low, k + 1)
  {
    assert 2 * (low * Pow2(k)) == low * (2 * Pow2(k));
  }

  /** Shifting the register number out. */
  lemma ShiftOut(hash: nat)
    ensures hash * 16384 % TWO64 == Shifted(hash % TWO50, 14)
  {
    Powers();
    assert hash * 16384 == hash / TWO50 * TWO64 + hash % TWO50 * 16384;
  }

  /** The loop that counts leading zeros, plus one. */
  method Scan(start: nat, ghost low: nat) returns (zeroes: nat)
    requires start == Shifted(low, 14)
    ensures zeroes == FirstOne(low, 1)
  {
    var experimental := start;
    zeroes := 1;
    while zeroes <= Q
      invariant 1 <= zeroes <= Q + 1
      invariant FirstOne(low, 1) == FirstOne(low, zeroes)
      invariant experimental == Shifted(low, 13 + zeroes)
    {
      BitTest(low, zeroes);
      if experimental >= TWO63 {
        break;
      }
      Twice(low, 13 + zeroes);
      experimental := experimental * 2 % TWO64;
      zeroes := zeroes + 1;
    }
  }

  /** The two parts of the hash. */
  method Split(hash: nat) returns (reg: nat, zeroes: nat)
    requires hash < TWO64
    ensures reg == RegNo(hash) < 16384 && zeroes == Rank(hash)
    ensures reg * 0x4_0000_0000_0000 <= hash < (reg + 1) * 0x4_0000_0000_0000
  {
    reg := hash / TWO50;
    ShiftOut(hash);
    zeroes := Scan(hash * 16384 % TWO64, hash % TWO50);
  }
}
