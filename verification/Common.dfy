/** Machine integers, options and finite sums shared by every part of the model. */
module Common {

  type byte = x: int | 0 <= x < 0x100

  const U64_MODULUS := 0x1_0000_0000_0000_0000

  type u64 = x: int | 0 <= x < 0x1_0000_0000_0000_0000

  datatype Option<+T> = None | Some(value: T)

  /** `a += b` on `u64` as the release profile compiles it: no overflow check, so it wraps. */
  function WrapAdd(x: u64, y: u64): u64 {
    (x + y) % U64_MODULUS
  }

  lemma ModUnique(n: int, q: int, r: int)
    requires n == U64_MODULUS * q + r && 0 <= r < U64_MODULUS
    ensures n % U64_MODULUS == r
  {
  }

  /** Wrapping early or late makes no difference to a sum. */
  lemma ModAdd(x: int, y: int)
    ensures (x % U64_MODULUS + y) % U64_MODULUS == (x + y) % U64_MODULUS
  {
    var z := x % U64_MODULUS + y;
    ModUnique(x + y, x / U64_MODULUS + z / U64_MODULUS, z % U64_MODULUS);
  }

  /** Equality modulo 2^64. */
  predicate Congruent(x: int, y: int) {
    x % U64_MODULUS == y % U64_MODULUS
  }

  lemma CongruentTurns(x: int, turns: int)
    ensures Congruent(x - U64_MODULUS * turns, x)
  {
    ModUnique(x - U64_MODULUS * turns, x / U64_MODULUS - turns, x % U64_MODULUS);
  }

  /** Counting on by one past a wrapped counter. */
  lemma WrapSuccessor(n: nat)
    ensures WrapAdd(n % U64_MODULUS, 1) == (n + 1) % U64_MODULUS
  {
  }

  /** Two counts less than a full turn apart wrap to different values. */
  lemma WrapDistinct(i: nat, j: nat)
    requires i < j < i + U64_MODULUS
    ensures i % U64_MODULUS != j % U64_MODULUS
  {
  }

  /** The sum of a finite map's values. */
  ghost function SumMap<K>(m: map<K, int>): int {
    if m == map[] then 0
    else
      var k :| k in m;
      m[k] + SumMap(m - {k})
  }

  lemma SumMapEmpty<K>()
    ensures SumMap<K>(map[]) == 0
  {
  }

  /** Any key can be split off first, so the sum does not depend on the order of summation. */
  lemma {:induction false} SumMapSplit<K>(m: map<K, int>, k: K)
    requires k in m
    ensures SumMap(m) == m[k] + SumMap(m - {k})
    decreases |m|
  {
    var j :| j in m && SumMap(m) == m[j] + SumMap(m - {j});
    if j != k {
      SumMapSplit(m - {j}, k);
      SumMapSplit(m - {k}, j);
      assert m - {j} - {k} == m - {k} - {j};
    }
  }

  lemma SumMapUpdate<K>(m: map<K, int>, k: K, v: int)
    ensures SumMap(m[k := v]) == SumMap(m) - (if k in m then m[k] else 0) + v
  {
    SumMapSplit(m[k := v], k);
    if k in m {
      SumMapSplit(m, k);
      assert m[k := v] - {k} == m - {k};
    } else {
      assert m[k := v] - {k} == m;
    }
  }

  lemma {:induction false} SumMapBound<K>(m: map<K, int>, k: K)
    requires k in m && forall j :: j in m ==> 0 <= m[j]
    ensures m[k] <= SumMap(m)
    decreases |m|
  {
    SumMapSplit(m, k);
    SumMapNonNegative(m - {k});
  }

  lemma {:induction false} SumMapNonNegative<K>(m: map<K, int>)
    requires forall j :: j in m ==> 0 <= m[j]
    ensures 0 <= SumMap(m)
    decreases |m|
  {
    if m != map[] {
      var j :| j in m && SumMap(m) == m[j] + SumMap(m - {j});
      SumMapNonNegative(m - {j});
    }
  }
}
