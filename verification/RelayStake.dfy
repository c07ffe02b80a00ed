/**
 The stake arithmetic of the relay consensus: validator powers from stakes and
 delegations, the quorum gate of block production, and the weighted choice of
 the relay leader.  Machine words wrap where the program adds plainly and
 saturate where it says so.
 */
module RelayStake {
  import opened Words
  import opened Sums
  import opened Wrappers

  const SYSTEM_VALIDATOR := "0x53ae54b11251d5003e9aa51422405bc35a2ef32d"

  datatype Validator = Validator(stake: U64, delegatedStake: U64, totalPower: U64)

  datatype Delegation = Delegation(delegator: string, validator: string, amount: U64)

  function Saturated(n: nat): U64 {
    if n < TWO_64 then n else TWO_64 - 1
  }

  // ---------------------------------------------------------------------
  // Powers
  // ---------------------------------------------------------------------

  /** All that was ever delegated to the validator. */
  function DelegatedTo(ds: seq<Delegation>, validator: string): nat {
    if ds == [] then 0
    else
      var d := ds[|ds| - 1];
      DelegatedTo(ds[..|ds| - 1], validator) + (if d.validator == validator then d.amount else 0)
  }

  function Recomputed(v: Validator, ds: seq<Delegation>, address: string): Validator {
    var delegated := DelegatedTo(ds, address) % TWO_64;
    Validator(v.stake, delegated, SaturatingAdd(v.stake, delegated))
  }

  function RecomputedAll(vs: map<string, Validator>, ds: seq<Delegation>): map<string, Validator> {
    map a | a in vs :: Recomputed(vs[a], ds, a)
  }

  function Powers(vs: map<string, Validator>): Amounts {
    map a | a in vs :: vs[a].totalPower
  }

  /** `iter().filter().map().sum()` over the delegations. */
  method GetDelegatedStake(ds: seq<Delegation>, validator: string) returns (sum: U64)
    ensures sum == DelegatedTo(ds, validator) % TWO_64
  {
    sum := 0;
    for i := 0 to |ds|
      invariant sum == DelegatedTo(ds[..i], validator) % TWO_64
    {
      assert ds[..i + 1][..i] == ds[..i];
      if ds[i].validator == validator {
        AddWraps(DelegatedTo(ds[..i], validator), ds[i].amount);
        sum := WrappingAdd(sum, ds[i].amount);
      }
    }
    assert ds[..|ds|] == ds;
  }

  predicate AllWords(m: Amounts) {
    forall a :: a in m ==> m[a] < TWO_64
  }

  /** The next value of an iteration over the map, whichever it is, and what is left. */
  method TakeOne(left: Amounts) returns (amount: U64, rest: Amounts)
    requires left != map[] && AllWords(left)
    ensures Sum(left) == amount + Sum(rest) && |rest| < |left| && AllWords(rest)
  {
    assert left.Keys != {};
    var a :| a in left;
    SumRemove(left, a);
    amount, rest := left[a], left - {a};
  }

  lemma SaturatingStep(taken: nat, amount: U64)
    ensures SaturatingAdd(Saturated(taken), amount) == Saturated(taken + amount)
  {
  }

  /** A saturating total over the map, in any order. */
  method SaturatingTotal(powers: Amounts) returns (total: U64)
    requires AllWords(powers)
    ensures total == Saturated(Sum(powers))
  {
    total := 0;
    var left: Amounts := powers;
    ghost var taken: nat := 0;
    while left != map[]
      invariant AllWords(left)
      invariant taken + Sum(left) == Sum(powers)
      invariant total == Saturated(taken)
      decreases |left|
    {
      var amount;
      amount, left := TakeOne(left);
      SaturatingStep(taken, amount);
      total, taken := SaturatingAdd(total, amount), taken + amount;
    }
  }

  /** Taking whole words off the sum leaves the total. */
  ghost predicate Wraps(taken: nat, total: U64) {
    taken == total || (taken >= TWO_64 && Wraps(taken - TWO_64, total))
  }

  lemma {:induction false} WrapsIsRemainder(taken: nat, total: U64)
    requires Wraps(taken, total)
    ensures taken % TWO_64 == total
  {
    if taken != total {
      WrapsIsRemainder(taken - TWO_64, total);
      assert taken == (taken - TWO_64) + TWO_64;
    }
  }

  lemma {:induction false} WrapsOver(taken: nat, total: U64, amount: U64, sum: U64)
    requires Wraps(taken, total)
    requires sum == if total + amount < TWO_64 then total + amount else total + amount - TWO_64
    ensures Wraps(taken + amount, sum)
  {
    if taken == total {
      assert Wraps(sum, sum);
    } else {
      WrapsOver(taken - TWO_64, total, amount, sum);
    }
  }

  /** One step of the loop below: any value is taken and added, wrapping. */
  method AddOne(left: Amounts, total: U64, ghost taken: nat)
    returns (sum: U64, rest: Amounts, ghost added: nat)
    requires left != map[] && AllWords(left) && Wraps(taken, total)
    ensures AllWords(rest) && |rest| < |left|
    ensures Wraps(added, sum) && added + Sum(rest) == taken + Sum(left)
  {
    var amount;
    amount, rest := TakeOne(left);
    AddCarries(total, amount);
    sum := WrappingAdd(total, amount);
    WrapsOver(taken, total, amount, sum);
    added := taken + amount;
  }

  method AddAllWords(powers: Amounts) returns (total: U64)
    requires AllWords(powers)
    ensures Wraps(Sum(powers), total)
  {
    total := 0;
    var left: Amounts := powers;
    ghost var taken: nat := 0;
    while left != map[]
      invariant AllWords(left) && Wraps(taken, total)
      invariant taken + Sum(left) == Sum(powers)
      decreases |left|
    {
      total, left, taken := AddOne(left, total, taken);
    }
  }

  /** A wrapping total over the map, in any order. */
  method WrappingTotal(powers: Amounts) returns (total: U64)
    requires AllWords(powers)
    ensures total == Sum(powers) % TWO_64
  {
    total := AddAllWords(powers);
    WrapsIsRemainder(Sum(powers), total);
  }

  function PowerOf(stake: U64, delegated: nat): U64 {
    SaturatingAdd(stake, delegated % TWO_64)
  }

  lemma RecomputedPower(v: Validator, ds: seq<Delegation>, a: string)
    ensures Recomputed(v, ds, a).totalPower == PowerOf(v.stake, DelegatedTo(ds, a))
  {
  }

  /** Without overflow a validator's power is its stake and what is delegated to it. */
  lemma PowerIsStakePlusDelegations(v: Validator, ds: seq<Delegation>, a: string)
    requires v.stake + DelegatedTo(ds, a) < TWO_64
    ensures Recomputed(v, ds, a) == Validator(v.stake, DelegatedTo(ds, a), v.stake + DelegatedTo(ds, a))
  {
    SmallMod(DelegatedTo(ds, a), TWO_64);
  }

  lemma DelegatedToAppend(ds: seq<Delegation>, d: Delegation, a: string)
    ensures DelegatedTo(ds + [d], a) == DelegatedTo(ds, a) + (if d.validator == a then d.amount else 0)
  {
    assert (ds + [d])[..|ds|] == ds;
  }

  /** A positive amount still fits beside the stake and the delegations as the program sums them. */
  predicate HasRoom(stake: U64, delegated: nat, amount: U64) {
    amount == 0 || stake + delegated % TWO_64 + amount < TWO_64
  }

  lemma RaisedPower(stake: U64, x: nat, amount: U64)
    ensures PowerOf(stake, x + amount) == PowerOf(stake, x) + amount <==> HasRoom(stake, x, amount)
  {
    var wrapped: U64 := x % TWO_64;
    AddWraps(x, amount);
    AddCarries(wrapped, amount);
    assert (x + amount) % TWO_64 == WrappingAdd(wrapped, amount);
  }

  /** Whatever was delegated before, the power grows by the amount exactly when there is room for it. */
  lemma DelegationRaisesPower(v: Validator, ds: seq<Delegation>, d: Delegation)
    ensures Recomputed(v, ds + [d], d.validator).totalPower
            == Recomputed(v, ds, d.validator).totalPower + d.amount
            <==> HasRoom(v.stake, DelegatedTo(ds, d.validator), d.amount)
  {
    DelegatedToAppend(ds, d, d.validator);
    RecomputedPower(v, ds, d.validator);
    RecomputedPower(v, ds + [d], d.validator);
    RaisedPower(v.stake, DelegatedTo(ds, d.validator), d.amount);
  }

  /**
   One more delegation to a known validator raises its recomputed power by the
   amount exactly when there is room for it, and leaves every other validator as
   it was; also when the sum of the delegations has passed a word before.
   */
  lemma DelegationRaisesOnlyItsValidator(vs: map<string, Validator>, ds: seq<Delegation>, d: Delegation)
    requires d.validator in vs
    ensures var before, after := RecomputedAll(vs, ds), RecomputedAll(vs, ds + [d]);
            && after == before[d.validator := after[d.validator]]
            && (after[d.validator].totalPower == before[d.validator].totalPower + d.amount
                <==> HasRoom(vs[d.validator].stake, DelegatedTo(ds, d.validator), d.amount))
  {
    DelegationRaisesPower(vs[d.validator], ds, d);
    forall a | a in vs && a != d.validator
      ensures Recomputed(vs[a], ds + [d], a) == Recomputed(vs[a], ds, a)
    {
      DelegatedToAppend(ds, d, a);
    }
  }

  lemma PowersUpdate(vs: map<string, Validator>, a: string, v: Validator)
    ensures Powers(vs[a := v]) == Powers(vs)[a := v.totalPower]
  {
  }

  /** The total moves with it, exactly then. */
  lemma DelegationRaisesTotal(vs: map<string, Validator>, ds: seq<Delegation>, d: Delegation)
    requires d.validator in vs
    ensures Sum(Powers(RecomputedAll(vs, ds + [d]))) == Sum(Powers(RecomputedAll(vs, ds))) + d.amount
            <==> HasRoom(vs[d.validator].stake, DelegatedTo(ds, d.validator), d.amount)
  {
    DelegationRaisesOnlyItsValidator(vs, ds, d);
    var before, after := RecomputedAll(vs, ds), RecomputedAll(vs, ds + [d]);
    PowersUpdate(before, d.validator, after[d.validator]);
    SumUpdate(Powers(before), d.validator, after[d.validator].totalPower);
  }

  // ---------------------------------------------------------------------
  // The quorum gate
  // ---------------------------------------------------------------------

  /** Two thirds of the wrapped total, or 1. */
  function Threshold(total: nat): U64 {
    var sum := total % TWO_64;
    if sum == 0 then 1 else (sum * 2) % TWO_64 / 3
  }

  /** The relay power and the stake power are the same total, added up. */
  predicate PassesGate(total: nat) {
    WrappingAdd(Saturated(total), Saturated(total)) >= Threshold(total)
  }

  /**
   The threshold is two thirds of the total, rounded down, as long as twice the
   total fits a word; what wraps of the total or of its double is lost.
   */
  lemma ThresholdIsTwoThirds(total: nat)
    ensures var sum, third := total % TWO_64, 3 * Threshold(total);
            && (sum == 0 ==> third == 3)
            && (0 < 2 * sum < TWO_64 ==> third <= 2 * sum < third + 3)
            && (2 * sum >= TWO_64 ==> third <= 2 * sum - TWO_64 < third + 3)
  {
    var sum := total % TWO_64;
    if 2 * sum >= TWO_64 {
      assert 2 * sum == TWO_64 + (2 * sum - TWO_64);
      AddWraps(TWO_64, 2 * sum - TWO_64);
    }
  }

  /**
   The gate asks for two thirds of a total that it has counted twice, so it
   refuses a block exactly when nobody holds any power; overflow included.
   */
  lemma GatePassesIffAnyPower(total: nat)
    ensures PassesGate(total) <==> total > 0
  {
  }

  // ---------------------------------------------------------------------
  // The leader
  // ---------------------------------------------------------------------

  /** The validators in the order the map is iterated in. */
  type Ranking = seq<(string, U64)>

  function Total(r: Ranking): nat {
    if r == [] then 0 else Total(r[..|r| - 1]) + r[|r| - 1].1
  }

  /** The first validator at which the running total exceeds the target. */
  function Pick(r: Ranking, k: nat, target: nat): Option<string>
    requires k <= |r|
    decreases |r| - k
  {
    if k == |r| then None
    else if Saturated(Total(r[..k + 1])) > target then Some(r[k].0)
    else Pick(r, k + 1, target)
  }

  /** The wrapped total, as the sum over the map gives it. */
  function WrappedTotal(r: Ranking): (t: U64)
    ensures t <= Saturated(Total(r))
    ensures Total(r) < TWO_64 ==> t == Total(r)
  {
    Total(r) % TWO_64
  }

  function Target(r: Ranking, seed: U64): (t: nat)
    requires WrappedTotal(r) != 0
    ensures t < WrappedTotal(r)
  {
    seed % WrappedTotal(r)
  }

  function Leader(r: Ranking, seed: U64): string {
    if WrappedTotal(r) == 0 then SYSTEM_VALIDATOR
    else
      match Pick(r, 0, Target(r, seed))
      case Some(a) => a
      case None => r[0].0
  }

  method SelectLeader(r: Ranking, seed: U64) returns (leader: string)
    ensures leader == Leader(r, seed)
  {
    if |r| == 0 {
      return SYSTEM_VALIDATOR;
    }
    var total: U64 := 0;
    for i := 0 to |r|
      invariant total == Total(r[..i]) % TWO_64
    {
      assert r[..i + 1][..i] == r[..i];
      AddWraps(Total(r[..i]), r[i].1);
      total := WrappingAdd(total, r[i].1);
    }
    assert r[..|r|] == r;
    if total == 0 {
      return SYSTEM_VALIDATOR;
    }
    var target := seed % total;
    var cumulative: U64 := 0;
    for i := 0 to |r|
      invariant cumulative == Saturated(Total(r[..i]))
      invariant Pick(r, 0, target) == Pick(r, i, target)
    {
      assert r[..i + 1][..i] == r[..i];
      SaturatingStep(Total(r[..i]), r[i].1);
      cumulative := SaturatingAdd(cumulative, r[i].1);
      if cumulative > target {
        return r[i].0;
      }
    }
    return r[0].0;
  }

  predicate DistinctNames(r: Ranking) {
    forall i, j :: 0 <= i < j < |r| ==> r[i].0 != r[j].0
  }

  lemma {:induction false} TotalGrows(r: Ranking, i: nat, j: nat)
    requires i <= j <= |r|
    ensures Total(r[..i]) <= Total(r[..j])
    decreases j
  {
    if i < j {
      assert r[..j][..j - 1] == r[..j - 1];
      TotalGrows(r, i, j - 1);
    }
  }

  /** A target in the stretch of a validator picks that validator. */
  lemma {:induction false} PickInStretch(r: Ranking, k: nat, i: nat, target: nat)
    requires k <= i < |r|
    requires Saturated(Total(r[..i])) <= target < Saturated(Total(r[..i + 1]))
    ensures Pick(r, k, target) == Some(r[i].0)
    decreases i - k
  {
    if k < i {
      TotalGrows(r, k + 1, i);
      PickInStretch(r, k + 1, i, target);
    }
  }

  /** Some validator is picked for every target below the saturated total. */
  lemma {:induction false} PickFinds(r: Ranking, k: nat, target: nat) returns (i: nat)
    requires k <= |r| && Saturated(Total(r[..k])) <= target < Saturated(Total(r))
    ensures k <= i < |r| && Pick(r, k, target) == Some(r[i].0)
    decreases |r| - k
  {
    assert r[..|r|] == r;
    if Saturated(Total(r[..k + 1])) > target {
      i := k;
    } else {
      i := PickFinds(r, k + 1, target);
    }
  }

  /**
   The last line of the selection, which falls back to the first validator, is
   never reached: for any powers, any iteration order and any seed.
   */
  lemma FallbackIsUnreachable(r: Ranking, seed: U64)
    requires WrappedTotal(r) != 0
    ensures Pick(r, 0, Target(r, seed)).Some?
  {
    assert Total(r[..0]) == 0;
    var _ := PickFinds(r, 0, Target(r, seed));
  }

  /** How many of the targets 0, 1, .., n - 1 pick the validator. */
  function Count(r: Ranking, a: string, n: nat): nat {
    if n == 0 then 0
    else Count(r, a, n - 1) + (if Pick(r, 0, n - 1) == Some(a) then 1 else 0)
  }

  lemma {:induction false} CountStretch(r: Ranking, a: string, i: nat, lo: nat, hi: nat)
    requires i < |r| && lo <= hi
    requires Saturated(Total(r[..i])) <= lo && hi <= Saturated(Total(r[..i + 1]))
    ensures Count(r, a, hi) == Count(r, a, lo) + (if r[i].0 == a then hi - lo else 0)
    decreases hi - lo
  {
    if lo < hi {
      CountStretch(r, a, i, lo, hi - 1);
      PickInStretch(r, 0, i, hi - 1);
    }
  }

  /** What the first `k` validators of that name hold. */
  function PowerAmong(r: Ranking, a: string, k: nat): nat
    requires k <= |r|
  {
    if k == 0 then 0 else PowerAmong(r, a, k - 1) + (if r[k - 1].0 == a then r[k - 1].1 else 0)
  }

  lemma {:induction false} CountIsPower(r: Ranking, a: string, k: nat)
    requires k <= |r| && Total(r) < TWO_64
    ensures Count(r, a, Total(r[..k])) == PowerAmong(r, a, k)
  {
    if k > 0 {
      assert r[..k][..k - 1] == r[..k - 1];
      assert r[..|r|] == r;
      TotalGrows(r, k, |r|);
      CountIsPower(r, a, k - 1);
      CountStretch(r, a, k - 1, Total(r[..k - 1]), Total(r[..k]));
    }
  }

  lemma {:induction false} PowerAmongIsPower(r: Ranking, i: nat, k: nat)
    requires DistinctNames(r) && i < |r| && k <= |r|
    ensures PowerAmong(r, r[i].0, k) == if i < k then r[i].1 else 0
  {
    if k > 0 {
      PowerAmongIsPower(r, i, k - 1);
    }
  }

  /** The picks of all validators together. */
  function CountAll(r: Ranking, k: nat, n: nat): nat
    requires k <= |r|
  {
    if k == 0 then 0 else CountAll(r, k - 1, n) + Count(r, r[k - 1].0, n)
  }

  lemma {:induction false} CountAllStep(r: Ranking, k: nat, n: nat, i: nat)
    requires k <= |r| && n > 0 && i < |r| && DistinctNames(r)
    requires Pick(r, 0, n - 1) == Some(r[i].0)
    ensures CountAll(r, k, n) == CountAll(r, k, n - 1) + (if i < k then 1 else 0)
  {
    if k > 0 {
      CountAllStep(r, k - 1, n, i);
    }
  }

  lemma {:induction false} CountAllIsEverything(r: Ranking, n: nat)
    requires DistinctNames(r) && n <= Saturated(Total(r))
    ensures CountAll(r, |r|, n) == n
  {
    if n > 0 {
      CountAllIsEverything(r, n - 1);
      assert Total(r[..0]) == 0;
      var i := PickFinds(r, 0, n - 1);
      CountAllStep(r, |r|, n, i);
    } else {
      CountAllAtZero(r, |r|);
    }
  }

  lemma {:induction false} CountAllAtZero(r: Ranking, k: nat)
    requires k <= |r|
    ensures CountAll(r, k, 0) == 0
  {
    if k > 0 {
      CountAllAtZero(r, k - 1);
    }
  }

  lemma {:induction false} CountAllIsTotal(r: Ranking, k: nat, n: nat)
    requires k <= |r|
    requires forall i :: 0 <= i < |r| ==> Count(r, r[i].0, n) == r[i].1
    ensures CountAll(r, k, n) == Total(r[..k])
  {
    if k > 0 {
      assert r[..k][..k - 1] == r[..k - 1];
      CountAllIsTotal(r, k - 1, n);
    }
  }

  /** Of the targets below the wrapped total as many pick a validator as it has power, exactly without overflow. */
  lemma PicksAreProportional(r: Ranking)
    requires DistinctNames(r)
    ensures (forall i :: 0 <= i < |r| ==> Count(r, r[i].0, WrappedTotal(r)) == r[i].1)
            <==> Total(r) < TWO_64
  {
    var n := WrappedTotal(r);
    assert r[..|r|] == r;
    if Total(r) < TWO_64 {
      forall i | 0 <= i < |r|
        ensures Count(r, r[i].0, n) == r[i].1
      {
        CountIsPower(r, r[i].0, |r|);
        PowerAmongIsPower(r, i, |r|);
      }
    } else if forall i :: 0 <= i < |r| ==> Count(r, r[i].0, n) == r[i].1 {
      CountAllIsTotal(r, |r|, n);
      CountAllIsEverything(r, n);
    }
  }

  // ---------------------------------------------------------------------
  // The leader over the seeds
  // ---------------------------------------------------------------------

  /** A target outside of a validator's stretch picks another one. */
  lemma {:induction false} PickOutside(r: Ranking, k: nat, i: nat, target: nat)
    requires DistinctNames(r) && k <= i < |r| && Saturated(Total(r[..k])) <= target
    requires !(Saturated(Total(r[..i])) <= target < Saturated(Total(r[..i + 1])))
    ensures Pick(r, k, target) != Some(r[i].0)
    decreases |r| - k
  {
    if Saturated(Total(r[..k + 1])) <= target {
      if k < i {
        PickOutside(r, k + 1, i, target);
      } else {
        PickIsLater(r, k + 1, i, target);
      }
    }
  }

  lemma {:induction false} PickIsLater(r: Ranking, k: nat, i: nat, target: nat)
    requires DistinctNames(r) && i < k <= |r|
    ensures Pick(r, k, target) != Some(r[i].0)
    decreases |r| - k
  {
    if k < |r| {
      PickIsLater(r, k + 1, i, target);
    }
  }

  /**
   Who leads, for every seed and every powers: with the powers laid out one after
   the other, the validator in whose stretch the seed falls, modulo the total.
   The total wraps, and the ends of the stretches stop at the largest word.
   */
  lemma LeaderIsInStretch(r: Ranking, i: nat, seed: U64)
    requires DistinctNames(r) && i < |r| && Total(r) % TWO_64 != 0
    ensures var total, lo, hi := Total(r) % TWO_64, Saturated(Total(r[..i])), Saturated(Total(r[..i + 1]));
            Leader(r, seed) == r[i].0 <==> lo <= seed % total < hi
  {
    var target := seed % WrappedTotal(r);
    assert Total(r[..0]) == 0;
    FallbackIsUnreachable(r, seed);
    if Saturated(Total(r[..i])) <= target < Saturated(Total(r[..i + 1])) {
      PickInStretch(r, 0, i, target);
    } else {
      PickOutside(r, 0, i, target);
    }
  }

  /** The choice repeats with the total. */
  lemma LeaderRepeats(r: Ranking, seed: nat)
    requires Total(r) % TWO_64 != 0 && seed + Total(r) % TWO_64 < TWO_64
    ensures Leader(r, seed + Total(r) % TWO_64) == Leader(r, seed)
  {
    AddModulus(seed, WrappedTotal(r));
  }

  /** How many of the seeds lo, lo + 1, .., lo + n - 1 elect the validator. */
  function Elections(r: Ranking, a: string, lo: nat, n: nat): nat
    requires lo + n <= TWO_64
  {
    if n == 0 then 0
    else Elections(r, a, lo, n - 1) + (if Leader(r, lo + n - 1) == a then 1 else 0)
  }

  lemma {:induction false} FirstElections(r: Ranking, a: string, n: nat)
    requires n <= WrappedTotal(r)
    ensures Elections(r, a, 0, n) == Count(r, a, n)
  {
    if n > 0 {
      FirstElections(r, a, n - 1);
      FallbackIsUnreachable(r, n - 1);
      assert Target(r, n - 1) == n - 1 by { SmallMod(n - 1, WrappedTotal(r)); }
    }
  }

  lemma {:induction false} ElectionsFromTheFront(r: Ranking, a: string, lo: nat, n: nat)
    requires n > 0 && lo + n <= TWO_64
    ensures Elections(r, a, lo, n) == (if Leader(r, lo) == a then 1 else 0) + Elections(r, a, lo + 1, n - 1)
  {
    if n > 1 {
      ElectionsFromTheFront(r, a, lo, n - 1);
    }
  }

  /** Every stretch of as many seeds as the total elects alike. */
  lemma {:induction false} ElectionsMove(r: Ranking, a: string, lo: nat)
    requires lo + WrappedTotal(r) <= TWO_64
    ensures Elections(r, a, lo, WrappedTotal(r)) == Elections(r, a, 0, WrappedTotal(r))
  {
    var n := WrappedTotal(r);
    if lo > 0 && n > 0 {
      ElectionsMove(r, a, lo - 1);
      ElectionsFromTheFront(r, a, lo - 1, n);
      LeaderRepeats(r, lo - 1);
    }
  }

  /**
   Selection is stake-proportional: of any as many consecutive seeds as the total
   power, each validator is elected by as many as it has power, whatever the order
   of iteration; and exactly while the sum of the powers fits a word.
   */
  lemma SelectionIsStakeProportional(r: Ranking, lo: nat)
    requires DistinctNames(r) && lo + Total(r) % TWO_64 <= TWO_64
    ensures (forall i :: 0 <= i < |r| ==> Elections(r, r[i].0, lo, Total(r) % TWO_64) == r[i].1)
            <==> Total(r) < TWO_64
  {
    forall i | 0 <= i < |r|
      ensures Elections(r, r[i].0, lo, WrappedTotal(r)) == Count(r, r[i].0, WrappedTotal(r))
    {
      ElectionsMove(r, r[i].0, lo);
      FirstElections(r, r[i].0, WrappedTotal(r));
    }
    PicksAreProportional(r);
  }

  lemma {:induction false} PickHasPower(r: Ranking, k: nat, target: nat) returns (i: nat)
    requires k <= |r| && Saturated(Total(r[..k])) <= target < Saturated(Total(r))
    ensures i < |r| && r[i].1 > 0 && Pick(r, k, target) == Some(r[i].0)
    decreases |r| - k
  {
    assert r[..|r|] == r;
    assert r[..k + 1][..k] == r[..k];
    if Saturated(Total(r[..k + 1])) <= target {
      i := PickHasPower(r, k + 1, target);
    } else {
      i := k;
    }
  }

  /**
   A validator without power leads only when the total wraps to zero, and then
   only if it is the system validator, which leads whatever its power.
   */
  lemma ZeroPowerLeadsIff(r: Ranking, i: nat, seed: U64)
    requires DistinctNames(r) && i < |r| && r[i].1 == 0
    ensures Leader(r, seed) == r[i].0 <==> WrappedTotal(r) == 0 && r[i].0 == SYSTEM_VALIDATOR
  {
    if WrappedTotal(r) != 0 {
      assert Total(r[..0]) == 0;
      var j := PickHasPower(r, 0, Target(r, seed));
      assert i != j;
    }
  }
}
