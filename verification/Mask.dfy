/** Bucket selection: a bitwise AND with a power of two less one. */
module Mask {

  const SHARD_BITS: nat := 8

  /** Bitwise AND of two unsigned integers. */
  function BitAnd(x: nat, y: nat): nat {
    if x == 0 || y == 0 then 0
    else 2 * BitAnd(x / 2, y / 2) + (x % 2) * (y % 2)
  }

  predicate IsPow2(n: nat) {
    n == 1 || (n > 0 && n % 2 == 0 && IsPow2(n / 2))
  }

  /** Bucket of a hash in a table of `count` buckets. */
  function BucketIndex(hash: bv64, count: nat): nat
    requires count > 0
  {
    BitAnd((hash >> SHARD_BITS) as nat, count - 1)
  }

  // Masking with count - 1 keeps the remainder, when count is a power of two.
  lemma {:induction false} MaskIsModulo(x: nat, count: nat)
    requires IsPow2(count)
    ensures BitAnd(x, count - 1) == x % count
  {
    if count == 1 {
      assert BitAnd(x, 0) == 0;
    } else {
      var half := count / 2;
      MaskIsModulo(x / 2, half);
      assert (count - 1) / 2 == half - 1 && (count - 1) % 2 == 1;
      if x == 0 {
      } else {
        ModuloStep(x, half);
      }
    }
  }

  lemma ModuloStep(x: nat, half: nat)
    requires half > 0
    ensures x % (2 * half) == 2 * (x / 2 % half) + x % 2
  {
    var q := x / 2 / half;
    assert x / 2 == q * half + x / 2 % half;
    assert x == q * (2 * half) + (2 * (x / 2 % half) + x % 2);
    ModuloUnique(x, 2 * half, q, 2 * (x / 2 % half) + x % 2);
  }

  lemma ModuloUnique(x: nat, d: nat, q: nat, r: nat)
    requires d > 0 && r < d && x == q * d + r
    ensures x % d == r && x / d == q
  {
    var e := q - x / d;
    assert x == x / d * d + x % d;
    assert e * d == q * d - x / d * d;
    MultipleOutOfRange(e, d);
  }

  lemma Euclid(x: nat, d: nat)
    requires d > 0
    ensures x == x / d * d + x % d
  {
  }

  lemma MultipleOutOfRange(e: int, d: int)
    requires d > 0
    ensures e >= 1 ==> e * d >= d
    ensures e <= -1 ==> e * d <= -d
  {
    if e >= 1 {
      assert e * d == (e - 1) * d + d;
    } else if e <= -1 {
      assert e * d == (e + 1) * d - d;
    }
  }

  // The initial capacity check of the table: cap & (cap - 1) is zero exactly for powers of two.
  lemma {:induction false} PowerOfTwoTest(cap: nat)
    requires cap > 0
    ensures BitAnd(cap, cap - 1) == 0 <==> IsPow2(cap)
  {
    if cap > 1 {
      if cap % 2 == 0 {
        assert (cap - 1) / 2 == cap / 2 - 1;
        PowerOfTwoTest(cap / 2);
      } else {
        assert cap / 2 > 0 && (cap - 1) / 2 == cap / 2;
        AndSelf(cap / 2);
      }
    }
  }

  lemma {:induction false} AndSelf(x: nat)
    ensures BitAnd(x, x) == x
  {
    if x > 0 {
      AndSelf(x / 2);
    }
  }

  lemma {:induction false} MaskInRange(x: nat, count: nat)
    requires IsPow2(count)
    ensures BitAnd(x, count - 1) < count
  {
    if count > 1 {
      assert (count - 1) / 2 == count / 2 - 1;
      MaskInRange(x / 2, count / 2);
    }
  }

  lemma {:induction false} MaskDoubles(x: nat, count: nat)
    requires IsPow2(count)
    ensures BitAnd(x, 2 * count - 1) == BitAnd(x, count - 1)
         || BitAnd(x, 2 * count - 1) == BitAnd(x, count - 1) + count
  {
    if count == 1 {
      assert BitAnd(x, 1) == 2 * BitAnd(x / 2, 0) + x % 2;
    } else {
      var half := count / 2;
      assert (count - 1) / 2 == half - 1 && (2 * count - 1) / 2 == 2 * half - 1;
      MaskDoubles(x / 2, half);
    }
  }

  lemma Pow2Positive(n: nat)
    requires IsPow2(n)
    ensures n > 0
  {
  }

  lemma Pow2Doubles(n: nat)
    requires IsPow2(n)
    ensures IsPow2(2 * n)
  {
    assert 2 * n / 2 == n;
  }

  // In a table of a power of two buckets the bucket is given by the hash without its low byte.
  lemma IndexIs(hash: bv64, count: nat)
    requires IsPow2(count)
    ensures BucketIndex(hash, count) == (hash / 256) as nat % count
  {
    MaskIsModulo((hash >> SHARD_BITS) as nat, count);
    assert hash >> 8 == hash / 256;
  }

  lemma IndexInRange(hash: bv64, count: nat)
    requires IsPow2(count)
    ensures BucketIndex(hash, count) < count
  {
    MaskInRange((hash >> SHARD_BITS) as nat, count);
  }

  // Doubling the bucket count sends bucket p to p or p + count, and nowhere else.
  lemma IndexDoubles(hash: bv64, count: nat)
    requires IsPow2(count)
    ensures IsPow2(2 * count)
    ensures BucketIndex(hash, 2 * count) == BucketIndex(hash, count)
         || BucketIndex(hash, 2 * count) == BucketIndex(hash, count) + count
  {
    Pow2Doubles(count);
    MaskDoubles((hash >> SHARD_BITS) as nat, count);
  }
}
