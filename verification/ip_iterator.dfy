/**
 * The address enumerator `IpIterator`: the additive recurrence
 * pick := (pick + c) mod 2^32, started at a random `first_pick` with a random
 * odd step `c`, which deactivates when it returns to `first_pick`.
 * Random draws are parameters; the address is the 32-bit value itself.
 */
module IpIterator {
  import opened Options
  import opened NumberTheory

  /** The size of the IPv4 address space, `u32::MAX as u64 + 1`. */
  const M: nat := 0x1_0000_0000

  /** `u64::MAX`; the iterator's fields are `u64`. */
  const U64_MAX: nat := 0xFFFF_FFFF_FFFF_FFFF

  datatype IpIter = IpIter(active: bool, c: nat, firstPick: nat, pick: nat)

  /** The result of `next`: the advanced iterator and the address it yields, if any. */
  datatype Yield = Yield(iter: IpIter, addr: Option<nat>)

  /** A sequence of `next` calls: the final iterator and every value yielded, in order. */
  datatype Trace = Trace(iter: IpIter, out: seq<Option<nat>>)

  /**
   * The state invariant: both picks are residues modulo M, and the step is
   * small enough that `pick + c` never overflows a `u64`.
   */
  predicate Valid(it: IpIter)
  {
    it.firstPick < M && it.pick < M && it.c + (M - 1) <= U64_MAX
  }

  /** The range `pick_random_coprime(end)` draws from: [end / 4, end - end / 4]. */
  predicate InStepRange(end: nat, c: nat)
  {
    end / 4 <= c <= end - end / 4
  }

  /** The predicate a draw must pass to become the step. */
  predicate AcceptedStep(end: nat, c: nat)
  {
    InStepRange(end, c) && Gcd(end, c) == 1
  }

  /**
   * `pick_random_coprime(end)`: the first of the random draws that is coprime
   * to `end`. The source's draw stream is endless; here a finite prefix of it
   * is given and None means no draw in that prefix was accepted yet.
   */
  function PickRandomCoprime(end: nat, draws: seq<nat>): (r: Option<nat>)
    requires forall i :: 0 <= i < |draws| ==> InStepRange(end, draws[i])
    ensures r.None? <==> forall i :: 0 <= i < |draws| ==> Gcd(end, draws[i]) != 1
    ensures r.Some? ==> AcceptedStep(end, r.value)
    ensures r.Some? ==>
      exists i :: 0 <= i < |draws| && draws[i] == r.value && forall j :: 0 <= j < i ==> Gcd(end, draws[j]) != 1
  {
    if |draws| == 0 then None
    else if Gcd(end, draws[0]) == 1 then
      Some(draws[0])
    else
      var r := PickRandomCoprime(end, draws[1..]);
      assert forall i :: 1 <= i < |draws| ==> draws[i] == draws[1..][i - 1];
      if r.Some? then
        var i :| 0 <= i < |draws[1..]| && draws[1..][i] == r.value
          && forall j :: 0 <= j < i ==> Gcd(end, draws[1..][j]) != 1;
        assert draws[i + 1] == r.value && forall j :: 0 <= j < i + 1 ==> Gcd(end, draws[j]) != 1;
        r
      else
        r
  }

  /**
   * `IpIterator::new()`: the random first pick is given, and the step is
   * `pick_random_coprime(M)` over the given draws. For M = 2^32 the accepted
   * step is the first odd draw; None means no draw in the prefix is odd.
   */
  function New(firstPick: nat, draws: seq<nat>): (r: Option<IpIter>)
    requires firstPick < M
    requires forall i :: 0 <= i < |draws| ==> InStepRange(M, draws[i])
    ensures r.None? <==> forall i :: 0 <= i < |draws| ==> draws[i] % 2 == 0
    ensures r.Some? ==>
      && Valid(r.value) && r.value.active
      && r.value.pick == r.value.firstPick == firstPick
      && InStepRange(M, r.value.c) && r.value.c % 2 == 1
    ensures r.Some? ==>
      exists i :: 0 <= i < |draws| && draws[i] == r.value.c && forall j :: 0 <= j < i ==> draws[j] % 2 == 0
  {
    CoprimeDrawsAreOdd(draws);
    match PickRandomCoprime(M, draws)
    case None => None
    case Some(c) => Some(IpIter(true, c, firstPick, firstPick))
  }

  /** Against M = 2^32, a draw is accepted exactly when it is odd. */
  lemma CoprimeDrawsAreOdd(draws: seq<nat>)
    ensures forall i :: 0 <= i < |draws| ==> (Gcd(M, draws[i]) == 1 <==> draws[i] % 2 == 1)
  {
    forall i | 0 <= i < |draws| {
      CoprimeToMIffOdd(draws[i]);
    }
  }

  /**
   * `next()`: when active, advances the pick by the step modulo M and
   * yields the NEW pick, deactivating on the call whose new pick is
   * `first_pick`; when inactive, yields nothing and changes nothing.
   * The addition is on `u64` and must not overflow.
   */
  function Next(it: IpIter): (y: Yield)
    requires it.active ==> it.pick + it.c <= U64_MAX
    ensures !it.active ==> y.iter == it && y.addr == None
    ensures it.active ==>
      && y.iter.pick == (it.pick + it.c) % M
      && y.addr == Some(y.iter.pick)
      && (y.iter.active <==> y.iter.pick != it.firstPick)
    ensures y.iter.c == it.c && y.iter.firstPick == it.firstPick
    ensures Valid(it) ==> Valid(y.iter)
  {
    if !it.active then Yield(it, None)
    else
      var pick := (it.pick + it.c) % M;
      Yield(it.(pick := pick, active := pick != it.firstPick), Some(pick))
  }

  /** The no-overflow fact `next` relies on holds in every valid state. */
  lemma ValidHasNoOverflow(it: IpIter)
    requires Valid(it)
    ensures it.pick + it.c <= U64_MAX
  {
  }

  /** `n` consecutive calls of `next`. */
  function Run(it: IpIter, n: nat): (t: Trace)
    requires Valid(it)
    ensures Valid(t.iter) && |t.out| == n
    ensures t.iter.c == it.c && t.iter.firstPick == it.firstPick
    decreases n
  {
    if n == 0 then Trace(it, [])
    else
      var t := Run(it, n - 1);
      var y := Next(t.iter);
      Trace(y.iter, t.out + [y.addr])
  }

  /** The residue the orbit of `it` reaches after `j` additions of the step. */
  function PickAfter(it: IpIter, j: nat): nat
  {
    (it.pick + j * it.c) % M
  }

  /** For M = 2^32 the accepted steps are exactly the odd numbers in [2^30, 3 * 2^30]. */
  lemma AcceptedStepIsOddInRange(c: nat)
    ensures AcceptedStep(M, c) <==> 0x4000_0000 <= c <= 0xC000_0000 && c % 2 == 1
  {
    CoprimeToMIffOdd(c);
  }

  function Pow2(k: nat): nat
  {
    if k == 0 then 1 else 2 * Pow2(k - 1)
  }

  lemma {:induction false} Pow2Add(a: nat, b: nat)
    ensures Pow2(a + b) == Pow2(a) * Pow2(b)
    decreases a
  {
    if a > 0 {
      Pow2Add(a - 1, b);
      assert Pow2(a + b) == 2 * Pow2(a - 1 + b);
    }
  }

  /** M is the 32nd power of two. */
  lemma MIsPow2()
    ensures Pow2(32) == M
  {
    assert Pow2(4) == 16;
    Pow2Add(4, 4);
    Pow2Add(8, 8);
    Pow2Add(16, 16);
  }

  /** An odd divisor of a power of two is 1. */
  lemma {:induction false} OddDivisorOfPow2(g: nat, k: nat)
    requires g > 0 && g % 2 == 1 && Pow2(k) % g == 0
    ensures g == 1
  {
    if k > 0 {
      assert Gcd(g, 2) == 1 by {
        assert Gcd(g, 2) == Gcd(2, 1) == Gcd(1, 0);
      }
      assert Pow2(k - 1) * 2 == Pow2(k);
      CoprimeFactor(g, 2, Pow2(k - 1));
      OddDivisorOfPow2(g, k - 1);
    } else if g > 1 {
      ModUnique(1, g, 0, 1);
    }
  }

  /** An odd number is coprime to every power of two. */
  lemma OddCoprimeToPow2(c: nat, k: nat)
    requires c % 2 == 1
    ensures Gcd(Pow2(k), c) == 1
  {
    GcdDivides(Pow2(k), c);
    var g := Gcd(Pow2(k), c);
    OddDivisorIsOdd(g, c);
    OddDivisorOfPow2(g, k);
  }

  /** For M = 2^32 the full-period condition gcd(M, c) == 1 says that c is odd. */
  lemma CoprimeToMIffOdd(c: nat)
    ensures Gcd(M, c) == 1 <==> c % 2 == 1
  {
    if c % 2 == 1 {
      MIsPow2();
      OddCoprimeToPow2(c, 32);
    } else {
      EvenNotCoprime(M, c);
    }
  }

  /**
   * While the orbit has not come back to `first_pick`, the k-th call yields
   * PickAfter(it, k) and the iterator stays active.
   */
  lemma {:induction false} RunWhileActive(it: IpIter, k: nat)
    requires Valid(it) && it.active
    requires forall j :: 1 <= j < k ==> PickAfter(it, j) != it.firstPick
    ensures Run(it, k).iter.pick == PickAfter(it, k)
    ensures Run(it, k).iter.active <==> k == 0 || PickAfter(it, k) != it.firstPick
    ensures forall i :: 0 <= i < k ==> Run(it, k).out[i] == Some(PickAfter(it, i + 1))
  {
    if k > 0 {
      RunWhileActive(it, k - 1);
      var t := Run(it, k - 1);
      assert t.iter.active;
      ModAddLeft(it.pick + (k - 1) * it.c, it.c, M);
      assert it.pick + (k - 1) * it.c + it.c == it.pick + k * it.c;
    } else {
      ModUnique(it.pick, M, 0, it.pick);
    }
  }

  /** Once `next` has returned None, every further call returns None and changes nothing. */
  lemma {:induction false} StaysExhausted(it: IpIter, a: nat, b: nat)
    requires Valid(it) && a <= b && !Run(it, a).iter.active
    ensures Run(it, b).iter == Run(it, a).iter
    ensures Run(it, b).out[..a] == Run(it, a).out
    ensures forall i :: a <= i < b ==> Run(it, b).out[i] == None
    decreases b
  {
    if b > a {
      StaysExhausted(it, a, b - 1);
      assert Run(it, b).out[..b - 1] == Run(it, b - 1).out;
    }
  }

  /** Later calls do not change what earlier calls yielded. */
  lemma {:induction false} RunPrefix(it: IpIter, a: nat, b: nat)
    requires Valid(it) && a <= b
    ensures Run(it, b).out[..a] == Run(it, a).out
    decreases b
  {
    if b > a {
      RunPrefix(it, a, b - 1);
      assert Run(it, b).out[..b - 1] == Run(it, b - 1).out;
    }
  }

  /** Every entry is an address, and no address is yielded twice. */
  predicate DistinctAddresses(out: seq<Option<nat>>)
  {
    && (forall i :: 0 <= i < |out| ==> out[i].Some? && out[i].value < M)
    && (forall i, j :: 0 <= i < j < |out| ==> out[i] != out[j])
  }

  /** Every address of [0, M) is yielded. */
  predicate CoversSpace(out: seq<Option<nat>>)
  {
    forall a :: 0 <= a < M ==> Some(a) in out
  }

  /** With gcd(M, c) == 1 the orbit of a fresh iterator does not meet `first_pick` before step M. */
  lemma NoEarlyReturn(it: IpIter)
    requires Valid(it) && it.pick == it.firstPick && Gcd(M, it.c) == 1
    ensures forall j :: 1 <= j < M ==> PickAfter(it, j) != it.firstPick
  {
    forall j | 1 <= j < M
      ensures PickAfter(it, j) != it.firstPick
    {
      OrbitInjective(M, it.c, it.firstPick, 0, j);
      ModUnique(it.firstPick, M, 0, it.firstPick);
    }
  }

  /** With gcd(M, c) == 1 the picks after 1, 2, ..., M steps are pairwise distinct. */
  lemma OrbitPicksDistinct(it: IpIter)
    requires Gcd(M, it.c) == 1
    ensures forall i, j :: 1 <= i < j <= M ==> PickAfter(it, i) != PickAfter(it, j)
  {
    forall i, j | 1 <= i < j <= M
      ensures PickAfter(it, i) != PickAfter(it, j)
    {
      OrbitInjective(M, it.c, it.pick + it.c, i - 1, j - 1);
      ShiftedPick(it.pick, it.c, i);
      ShiftedPick(it.pick, it.c, j);
    }
  }

  /** With gcd(M, c) == 1 every address below M is the pick after some j in [1, M] steps. */
  lemma OrbitPickOf(it: IpIter, a: nat) returns (j: nat)
    requires Gcd(M, it.c) == 1 && a < M
    ensures 1 <= j <= M && PickAfter(it, j) == a
  {
    var k := OrbitSurjective(M, it.c, it.pick + it.c, a);
    ShiftedPick(it.pick, it.c, k + 1);
    j := k + 1;
  }

  lemma ShiftedPick(p: int, c: int, j: int)
    ensures p + j * c == (p + c) + (j - 1) * c
  {
  }

  /**
   * The first M calls on a fresh iterator with gcd(M, c) == 1: the i-th
   * yields the pick after i + 1 steps, the M-th is `first_pick`, and then
   * the iterator is inactive.
   */
  lemma PeriodTrace(it: IpIter)
    requires Valid(it) && it.active && it.pick == it.firstPick
    requires Gcd(M, it.c) == 1
    ensures forall i :: 0 <= i < M ==> Run(it, M).out[i] == Some(PickAfter(it, i + 1))
    ensures Run(it, M).out[M - 1] == Some(it.firstPick)
    ensures !Run(it, M).iter.active
  {
    NoEarlyReturn(it);
    RunWhileActive(it, M);
    PickAfterPeriod(it);
  }

  /** After M additions of the step the orbit is back at its start. */
  lemma PickAfterPeriod(it: IpIter)
    requires it.pick < M
    ensures PickAfter(it, M) == it.pick
  {
    OrbitCloses(M, it.c, it.pick);
    ModUnique(it.pick, M, 0, it.pick);
  }

  /** The first M calls on a fresh iterator with gcd(M, c) == 1 yield a permutation of [0, M). */
  lemma FirstPeriod(it: IpIter)
    requires Valid(it) && it.active && it.pick == it.firstPick
    requires Gcd(M, it.c) == 1
    ensures DistinctAddresses(Run(it, M).out) && CoversSpace(Run(it, M).out)
    ensures Run(it, M).out[M - 1] == Some(it.firstPick)
    ensures !Run(it, M).iter.active
  {
    PeriodTrace(it);
    var out := Run(it, M).out;
    OrbitPicksDistinct(it);
    forall i, j | 0 <= i < j < M
      ensures out[i] != out[j]
    {
      assert PickAfter(it, i + 1) != PickAfter(it, j + 1);
    }
    forall a | 0 <= a < M
      ensures Some(a) in out
    {
      var j := OrbitPickOf(it, a);
      assert out[j - 1] == Some(a);
    }
  }

  /**
   * Full period: with gcd(M, c) == 1 a fresh iterator yields exactly M
   * addresses, pairwise distinct and covering [0, M), the last of them
   * `first_pick`, and then None on every further call.
   */
  lemma FullPeriod(it: IpIter, n: nat)
    requires Valid(it) && it.active && it.pick == it.firstPick
    requires Gcd(M, it.c) == 1
    requires n >= M
    ensures DistinctAddresses(Run(it, n).out[..M]) && CoversSpace(Run(it, n).out[..M])
    ensures Run(it, n).out[M - 1] == Some(it.firstPick)
    ensures forall i :: M <= i < n ==> Run(it, n).out[i] == None
    ensures !Run(it, n).iter.active
  {
    FirstPeriod(it);
    StaysExhausted(it, M, n);
  }

  /**
   * The coprimality condition is necessary: with gcd(M, c) != 1 a fresh
   * iterator returns None within its first M calls, so it never yields
   * all M addresses.
   */
  lemma NonCoprimeStepCutsShort(it: IpIter)
    requires Valid(it) && it.active && it.pick == it.firstPick
    requires Gcd(M, it.c) != 1
    ensures exists i :: 0 <= i < M && Run(it, M).out[i] == None
  {
    var t := OrbitClosesEarly(M, it.c, it.firstPick);
    ModUnique(it.firstPick, M, 0, it.firstPick);
    var i := ReturnEndsRun(it, t);
    RunPrefix(it, t + 1, M);
    assert Run(it, M).out[i] == Run(it, t + 1).out[i];
  }

  /** If the orbit is back at `first_pick` after k steps, one of the first k + 1 calls returns None. */
  lemma {:induction false} ReturnEndsRun(it: IpIter, k: nat) returns (i: nat)
    requires Valid(it) && it.active
    requires k >= 1 && PickAfter(it, k) == it.firstPick
    ensures i <= k && Run(it, k + 1).out[i] == None
    decreases k
  {
    if j :| 1 <= j < k && PickAfter(it, j) == it.firstPick {
      i := ReturnEndsRun(it, j);
      RunPrefix(it, j + 1, k + 1);
      assert Run(it, k + 1).out[i] == Run(it, j + 1).out[i];
    } else {
      RunWhileActive(it, k);
      i := k;
    }
  }
}
