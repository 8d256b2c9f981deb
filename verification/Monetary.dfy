/** Block rewards: blockchain/config/monetary_policy.go. */
module Monetary {
  import opened Machine

  /** `GetBlocksPerYear`: seconds in 365 days over the 30 second target. */
  const BLOCKS_PER_YEAR: int := 365 * 24 * 60 * 60 / 30

  datatype MonetaryPolicy = MonetaryPolicy(
    initialBlockReward: uint64,
    minimumBlockReward: uint64,
    minerFeeShare: uint8,
    minerRewardShare: uint8,
    genesisShare: uint8)
  {
    /** The part of `Validate` that bounds the shares. */
    predicate SharesValid() {
      minerFeeShare <= 100 && minerRewardShare + genesisShare <= 100
    }

    /** The reward below which decay stops; a policy without an initial reward pays a constant. */
    function FloorReward(): uint64 {
      if initialBlockReward == 0 then 800000000
      else if minimumBlockReward == 0 then 10000000
      else minimumBlockReward
    }
  }

  /** The first height of a reward year. */
  function YearStart(year: nat): nat {
    year * BLOCKS_PER_YEAR
  }

  /** The undisturbed decay curve: nine tenths, rounded down, once a year. */
  function Decayed(initial: nat, years: nat): nat {
    if years == 0 then initial else Decayed(initial, years - 1) * 9 / 10
  }

  /** What the reward means: the decay curve, cut off below at the floor. */
  function RewardAt(p: MonetaryPolicy, height: uint64): uint64 {
    DecayedBelow(p.initialBlockReward, height / BLOCKS_PER_YEAR);
    var r := Decayed(p.initialBlockReward, height / BLOCKS_PER_YEAR);
    if r < p.FloorReward() then p.FloorReward() else r
  }

  lemma {:induction false} DecayedBelow(initial: nat, years: nat)
    ensures Decayed(initial, years) <= initial
  {
    DecayedMonotone(initial, 0, years);
  }

  lemma {:induction false} DecayedMonotone(initial: nat, j: nat, k: nat)
    requires j <= k
    ensures Decayed(initial, k) <= Decayed(initial, j)
    decreases k
  {
    if j < k {
      DecayedMonotone(initial, j, k - 1);
    }
  }

  /** The early-exit loop computes RewardAt, in a number of rounds that does not depend on the height. */
  method BlockReward(p: MonetaryPolicy, height: uint64) returns (result: uint64, ghost rounds: nat)
    ensures result == RewardAt(p, height)
    ensures rounds == 0 || rounds <= p.initialBlockReward - p.FloorReward()
  {
    rounds := 0;
    if p.initialBlockReward == 0 {
      DecayedBelow(0, height / BLOCKS_PER_YEAR);
      return 800000000, 0;
    }
    var minReward: uint64 := p.minimumBlockReward;
    if minReward == 0 {
      minReward := 10000000;
    }
    var years := height / BLOCKS_PER_YEAR;
    var reward: int := p.initialBlockReward;
    var i := 0;
    while i < years
      invariant 0 <= i <= years
      invariant reward == Decayed(p.initialBlockReward, i)
      invariant rounds == i && rounds <= p.initialBlockReward - reward
      invariant i > 0 ==> reward > minReward
    {
      if reward <= minReward {
        DecayedMonotone(p.initialBlockReward, i, years);
        return minReward, rounds;
      }
      reward := reward * 9 / 10;
      i := i + 1;
      rounds := rounds + 1;
      if reward <= minReward {
        DecayedMonotone(p.initialBlockReward, i, years);
        return minReward, rounds;
      }
    }
    DecayedBelow(p.initialBlockReward, years);
    if reward < minReward {
      return minReward, rounds;
    }
    return reward, rounds;
  }

  /** Rewards never rise with height, never drop below the floor, and stay there once they reach it. */
  lemma {:induction false} RewardNonIncreasing(p: MonetaryPolicy, h: uint64, h': uint64)
    requires h <= h'
    ensures p.FloorReward() <= RewardAt(p, h') <= RewardAt(p, h)
    ensures RewardAt(p, h) == p.FloorReward() ==> RewardAt(p, h') == p.FloorReward()
  {
    YearsMonotone(h, h');
    DecayedMonotone(p.initialBlockReward, h / BLOCKS_PER_YEAR, h' / BLOCKS_PER_YEAR);
  }

  lemma YearsMonotone(h: nat, h': nat)
    requires h <= h'
    ensures h / BLOCKS_PER_YEAR <= h' / BLOCKS_PER_YEAR
  {
    assert BLOCKS_PER_YEAR == 1051200;
  }

  // ----- what the curve is -----

  /** One reward year on: nine tenths of the reward, rounded down, or the floor where that is not above it. */
  lemma YearlyDecay(p: MonetaryPolicy, h: uint64)
    requires h + 1051200 < TWO64
    ensures
      var now, later, floor := RewardAt(p, h), RewardAt(p, h + 1051200), p.FloorReward();
      && floor <= later
      && (later > floor ==> 10 * later <= 9 * now < 10 * later + 10)
      && (later == floor ==> 9 * now < 10 * floor + 10)
  {
    NextYear(h);
  }

  lemma NextYear(h: nat)
    ensures (h + 1051200) / BLOCKS_PER_YEAR == h / BLOCKS_PER_YEAR + 1
  {
    assert BLOCKS_PER_YEAR == 1051200;
  }

  /** In the first year the initial reward is paid, and within any year one reward. */
  lemma RewardWithinYear(p: MonetaryPolicy, h: uint64, h': uint64)
    ensures h < 1051200 && p.initialBlockReward >= p.FloorReward() ==> RewardAt(p, h) == p.initialBlockReward
    ensures h < 1051200 && p.initialBlockReward < p.FloorReward() ==> RewardAt(p, h) == p.FloorReward()
    ensures h / 1051200 == h' / 1051200 ==> RewardAt(p, h) == RewardAt(p, h')
  {
    assert BLOCKS_PER_YEAR == 1051200;
  }

  /** Those two leave one curve: whatever starts with it and decays like it is the block reward. */
  ghost predicate DecaysYearly(p: MonetaryPolicy, curve: nat -> nat) {
    && (forall h: nat :: h < 1051200 ==> curve(h) == Greater(p.initialBlockReward, p.FloorReward()))
    && (forall h: nat :: curve(h + 1051200) == Greater(9 * curve(h) / 10, p.FloorReward()))
  }

  function Greater(a: nat, b: nat): nat {
    if a < b then b else a
  }

  lemma {:induction false} OneCurve(p: MonetaryPolicy, curve: nat -> nat, h: uint64)
    requires DecaysYearly(p, curve)
    ensures RewardAt(p, h) == curve(h)
    decreases h
  {
    if h < 1051200 {
      RewardWithinYear(p, h, h);
    } else {
      OneCurve(p, curve, h - 1051200);
      YearlyDecay(p, h - 1051200);
      assert curve(h - 1051200 + 1051200) == Greater(9 * curve(h - 1051200) / 10, p.FloorReward());
    }
  }

  /** Without settings: 8 coins for ever without an initial reward, and a floor of a tenth of a coin without a minimum. */
  lemma DefaultRewards(p: MonetaryPolicy, h: uint64)
    ensures p.initialBlockReward == 0 ==> RewardAt(p, h) == 800000000
    ensures p.initialBlockReward > 0 ==>
      p.FloorReward() == if p.minimumBlockReward == 0 then 10000000 else p.minimumBlockReward
  {
    DecayedBelow(p.initialBlockReward, h / BLOCKS_PER_YEAR);
  }

  /** The shipped curve: 8 coins to the last block of the first year, then 7.2, then 6.48. */
  lemma ShippedRewards(p: MonetaryPolicy)
    requires p.initialBlockReward == 800000000 && p.minimumBlockReward == 10000000
    ensures RewardAt(p, 1) == RewardAt(p, 1051199) == 800000000
    ensures RewardAt(p, 1051200) == 720000000 && RewardAt(p, 2102400) == 648000000
  {
    RewardWithinYear(p, 1, 1051199);
    YearlyDecay(p, 0);
    RewardWithinYear(p, 0, 1);
    YearlyDecay(p, 1051200);
  }

  lemma PercentBelow(x: nat, percent: nat)
    ensures percent <= 100 ==> x * percent / 100 <= x
  {
    if percent <= 100 {
      assert x * percent <= x * 100;
    }
  }

  /** `MinerFeeAmount`; the product is not guarded against wrap-around. */
  function MinerFeeAmount(p: MonetaryPolicy, totalFees: uint64): (r: uint64)
    ensures p.minerFeeShare <= 100 ==> r <= totalFees
  {
    PercentBelow(totalFees, p.minerFeeShare);
    if p.minerFeeShare == 0 || totalFees == 0 then 0 else Mul(totalFees, p.minerFeeShare) / 100
  }

  /** The percentage of a reward paid out, as the source computes it. */
  function ShareOf(reward: uint64, percent: uint8): (r: uint64)
    ensures r <= reward * percent / 100
  {
    Mul(reward, percent) / 100
  }

  /** The coinbase amount every non-genesis block must carry. */
  function ExpectedCoinbase(p: MonetaryPolicy, height: uint64, fees: uint64): uint64 {
    Add(ShareOf(RewardAt(p, height), p.minerRewardShare), MinerFeeAmount(p, fees))
  }

  /** No wrap-around can push a coinbase above the full reward plus the fees. */
  lemma CoinbaseBound(p: MonetaryPolicy, height: uint64, fees: uint64)
    requires p.SharesValid()
    ensures ExpectedCoinbase(p, height, fees) + ShareOf(RewardAt(p, height), p.genesisShare)
         <= RewardAt(p, height) + fees
  {
    TwoShares(RewardAt(p, height), p.minerRewardShare, p.genesisShare);
  }

  lemma TwoShares(r: nat, a: nat, b: nat)
    requires a + b <= 100
    ensures r * a / 100 + r * b / 100 <= r
  {
    assert r * a + r * b <= 100 * r by {
      assert r * (a + b) <= r * 100;
    }
  }

  /** All rewards of heights first..first + count - 1. */
  ghost function TotalReward(p: MonetaryPolicy, first: nat, count: nat): nat
    requires first + count <= TWO64
    decreases count
  {
    if count == 0 then 0 else TotalReward(p, first, count - 1) + RewardAt(p, first + count - 1)
  }

  /** What `years` full years of blocks can pay at most. */
  ghost function IssuanceBound(p: MonetaryPolicy, years: nat): nat {
    BLOCKS_PER_YEAR * PerBlockAllowance(p, years)
  }

  /** Ten initial rewards, and one floor reward more for every year. */
  ghost function PerBlockAllowance(p: MonetaryPolicy, years: nat): nat {
    if years == 0 then 10 * p.initialBlockReward else PerBlockAllowance(p, years - 1) + p.FloorReward()
  }

  lemma {:induction false} IssuanceBoundClosedForm(p: MonetaryPolicy, years: nat)
    ensures IssuanceBound(p, years) == BLOCKS_PER_YEAR * (10 * p.initialBlockReward + years * p.FloorReward())
  {
    AllowanceClosedForm(p, years);
  }

  lemma {:induction false} AllowanceClosedForm(p: MonetaryPolicy, years: nat)
    ensures PerBlockAllowance(p, years) == 10 * p.initialBlockReward + years * p.FloorReward()
  {
    if years > 0 {
      AllowanceClosedForm(p, years - 1);
      assert years * p.FloorReward() == (years - 1) * p.FloorReward() + p.FloorReward();
    }
  }

  lemma RewardInYear(p: MonetaryPolicy, year: nat, height: uint64)
    requires YearStart(year) <= height < YearStart(year + 1)
    ensures RewardAt(p, height) <= RateIn(p, year)
  {
    YearOf(year, height);
  }

  lemma YearOf(year: nat, height: nat)
    requires YearStart(year) <= height < YearStart(year + 1)
    ensures height / BLOCKS_PER_YEAR == year
  {
    assert BLOCKS_PER_YEAR == 1051200;
  }

  lemma {:induction false} YearlyBound(p: MonetaryPolicy, year: nat, first: nat, count: nat)
    requires YearStart(year) <= first
    requires first + count <= YearStart(year + 1) && first + count <= TWO64
    ensures TotalReward(p, first, count) <= count * RateIn(p, year)
    decreases count
  {
    var rate := RateIn(p, year);
    if count > 0 {
      YearlyBound(p, year, first, count - 1);
      RewardInYear(p, year, first + count - 1);
      assert count * rate == (count - 1) * rate + rate;
    }
  }

  lemma {:induction false} TotalRewardSplits(p: MonetaryPolicy, first: nat, m: nat, n: nat)
    requires first + m + n <= TWO64
    ensures TotalReward(p, first, m + n) == TotalReward(p, first, m) + TotalReward(p, first + m, n)
    decreases n
  {
    if n > 0 {
      TotalRewardSplits(p, first, m, n - 1);
    }
  }

  /** `years` full years of blocks, each paid at most the curve plus the floor. */
  ghost function CurveTotal(p: MonetaryPolicy, years: nat): nat {
    if years == 0 then 0 else CurveTotal(p, years - 1) + BLOCKS_PER_YEAR * RateIn(p, years - 1)
  }

  ghost function RateIn(p: MonetaryPolicy, year: nat): nat {
    Decayed(p.initialBlockReward, year) + p.FloorReward()
  }

  /** Telescoping: each year of the curve is at most ten times what the curve loses that year. */
  lemma {:induction false} CurveTelescopes(p: MonetaryPolicy, years: nat)
    ensures CurveTotal(p, years) + BLOCKS_PER_YEAR * (10 * Decayed(p.initialBlockReward, years))
         <= IssuanceBound(p, years)
  {
    if years > 0 {
      CurveTelescopes(p, years - 1);
      TelescopeStep(BLOCKS_PER_YEAR, CurveTotal(p, years - 1), Decayed(p.initialBlockReward, years - 1),
                    Decayed(p.initialBlockReward, years), PerBlockAllowance(p, years - 1), p.FloorReward());
    }
  }

  lemma TelescopeStep(b: nat, c: nat, d: nat, next: nat, bound: nat, f: nat)
    requires c + b * (10 * d) <= b * bound && 10 * next <= 9 * d
    ensures c + b * (d + f) + b * (10 * next) <= b * (bound + f)
  {
    assert b * (10 * next) <= b * (9 * d);
    assert b * (d + f) == b * d + b * f;
    assert b * (bound + f) == b * bound + b * f;
    assert b * (10 * d) == b * (9 * d) + b * d;
  }

  lemma {:induction false} TotalRewardBelowCurve(p: MonetaryPolicy, count: nat, years: nat)
    requires count <= YearStart(years) && count <= TWO64
    ensures TotalReward(p, 0, count) <= CurveTotal(p, years)
    decreases years
  {
    if years > 0 {
      CurveGrows(p, years - 1);
      if count <= YearStart(years - 1) {
        TotalRewardBelowCurve(p, count, years - 1);
      } else {
        TotalRewardBelowCurve(p, YearStart(years - 1), years - 1);
        LastYear(p, count, years - 1);
      }
    }
  }

  lemma CurveGrows(p: MonetaryPolicy, years: nat)
    ensures CurveTotal(p, years) <= CurveTotal(p, years + 1)
  {
  }

  lemma LastYear(p: MonetaryPolicy, count: nat, year: nat)
    requires YearStart(year) <= count <= YearStart(year + 1) && count <= TWO64
    ensures TotalReward(p, 0, count) <= TotalReward(p, 0, YearStart(year)) + BLOCKS_PER_YEAR * RateIn(p, year)
  {
    var done := YearStart(year);
    YearLength(year);
    TotalRewardSplits(p, 0, done, count - done);
    YearlyBound(p, year, done, count - done);
    ScaleUp(count - done, RateIn(p, year));
  }

  lemma YearLength(year: nat)
    ensures YearStart(year + 1) == YearStart(year) + BLOCKS_PER_YEAR
  {
  }

  lemma ScaleUp(blocks: nat, rate: nat)
    requires blocks <= BLOCKS_PER_YEAR
    ensures blocks * rate <= BLOCKS_PER_YEAR * rate
  {
  }

  /** All blocks below the end of year `years` together are paid at most the bound. */
  lemma TotalRewardBound(p: MonetaryPolicy, count: nat, years: nat)
    requires count <= YearStart(years) && count <= TWO64
    ensures TotalReward(p, 0, count) <= IssuanceBound(p, years)
  {
    TotalRewardBelowCurve(p, count, years);
    CurveTelescopes(p, years);
  }

  // ----- from below -----

  lemma RewardAboveCurve(p: MonetaryPolicy, year: nat, height: uint64)
    requires YearStart(year) <= height < YearStart(year + 1)
    ensures RewardAt(p, height) >= Decayed(p.initialBlockReward, year)
  {
    YearOf(year, height);
  }

  lemma {:induction false} YearPaid(p: MonetaryPolicy, year: nat, first: nat, count: nat)
    requires YearStart(year) <= first
    requires first + count <= YearStart(year + 1) && first + count <= TWO64
    ensures TotalReward(p, first, count) >= count * Decayed(p.initialBlockReward, year)
    decreases count
  {
    var rate := Decayed(p.initialBlockReward, year);
    if count > 0 {
      YearPaid(p, year, first, count - 1);
      RewardAboveCurve(p, year, first + count - 1);
      assert count * rate == (count - 1) * rate + rate;
    }
  }

  lemma {:induction false} FloorPaid(p: MonetaryPolicy, first: nat, count: nat)
    requires first + count <= TWO64
    ensures TotalReward(p, first, count) >= count * p.FloorReward()
    decreases count
  {
    var rate := p.FloorReward();
    if count > 0 {
      FloorPaid(p, first, count - 1);
      assert count * rate == (count - 1) * rate + rate;
    }
  }

  lemma StretchPaid(p: MonetaryPolicy, year: nat, from: nat, to: nat)
    requires YearStart(year) <= from <= to <= YearStart(year + 1) && to <= TWO64
    ensures TotalReward(p, 0, to) >= TotalReward(p, 0, from) + (to - from) * Decayed(p.initialBlockReward, year)
  {
    TotalRewardSplits(p, 0, from, to - from);
    YearPaid(p, year, from, to - from);
  }

  lemma WholeYearPaid(p: MonetaryPolicy, year: nat)
    requires YearStart(year + 1) <= TWO64
    ensures TotalReward(p, 0, YearStart(year + 1))
         >= TotalReward(p, 0, YearStart(year)) + BLOCKS_PER_YEAR * Decayed(p.initialBlockReward, year)
  {
    YearLength(year);
    StretchPaid(p, year, YearStart(year), YearStart(year + 1));
  }

  lemma {:induction false} PaidByCurve(p: MonetaryPolicy, years: nat)
    requires YearStart(years) < TWO64
    ensures TotalReward(p, 0, YearStart(years)) + BLOCKS_PER_YEAR * (10 * Decayed(p.initialBlockReward, years) + 9 * years)
         >= BLOCKS_PER_YEAR * (10 * p.initialBlockReward)
  {
    if years > 0 {
      YearLength(years - 1);
      PaidByCurve(p, years - 1);
      WholeYearPaid(p, years - 1);
      PaidStep(BLOCKS_PER_YEAR, Decayed(p.initialBlockReward, years - 1), Decayed(p.initialBlockReward, years), years);
    }
  }

  lemma Scaled(b: nat, x: nat, y: nat, z: nat)
    requires x + y >= z
    ensures b * x + b * y >= b * z
  {
    assert b * x + b * y == b * (x + y);
  }

  lemma PaidStep(b: nat, d: nat, next: nat, years: nat)
    requires years > 0 && 9 * d < 10 * next + 10
    ensures b * d + b * (10 * next + 9 * years) >= b * (10 * d + 9 * (years - 1))
  {
    Scaled(b, d, 10 * next + 9 * years, 10 * d + 9 * (years - 1));
  }

  lemma CurveBelowReward(p: MonetaryPolicy, years: nat)
    requires YearStart(years) < TWO64
    ensures BLOCKS_PER_YEAR * (10 * Decayed(p.initialBlockReward, years) + 9 * years)
         <= BLOCKS_PER_YEAR * (10 * RewardAt(p, YearStart(years)) + 9 * years)
  {
    YearLength(years);
    RewardAboveCurve(p, years, YearStart(years));
    ScaleYear(10 * Decayed(p.initialBlockReward, years) + 9 * years, 10 * RewardAt(p, YearStart(years)) + 9 * years);
  }

  lemma ScaleYear(x: nat, y: nat)
    requires x <= y
    ensures BLOCKS_PER_YEAR * x <= BLOCKS_PER_YEAR * y
  {
  }

  /**
   From below: the blocks before the end of any reward year are paid ten initial rewards for every block of a year, less
   ten times the reward then reached and 9 for every year, which is what rounding down can lose; and never less than
   the floor reward each.
   */
  lemma TotalRewardFromBelow(p: MonetaryPolicy, years: nat)
    requires YearStart(years) < TWO64
    ensures TotalReward(p, 0, YearStart(years)) + BLOCKS_PER_YEAR * (10 * RewardAt(p, YearStart(years)) + 9 * years)
         >= BLOCKS_PER_YEAR * (10 * p.initialBlockReward)
    ensures TotalReward(p, 0, YearStart(years)) >= YearStart(years) * p.FloorReward()
  {
    PaidByCurve(p, years);
    CurveBelowReward(p, years);
    FloorPaid(p, 0, YearStart(years));
  }
}
