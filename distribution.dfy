/** Percentage distribution of the total man-hours over the construction
    phases: each phase gets the total times its percentage divided by the sum
    of all percentages, where a zero sum is replaced by 1. */
module Distribution {
  import opened Tasks

  /** One phase with its slider percentage (an integer from 0 to 100). */
  datatype Share = Share(task: string, pct: nat)

  /** The phases and their default percentages, in processing order. */
  const DefaultShares: seq<Share> :=
    [Share("Einmessen", 2), Share("Traversen", 5), Share("Kabel verlegen", 4), Share("Podestboden", 4),
     Share("Bodenbelag", 5), Share("Wandbau", 20), Share("Deckenaufbau", 10), Share("Einrichtung", 8),
     Share("Grafik", 8), Share("Theken und Möbel", 5), Share("Medientechnik", 5),
     Share("Pflanzen und Deko", 4), Share("Reinigung", 3), Share("Standübergabe", 1)]

  function SumPct(shares: seq<Share>): nat
  {
    if shares == [] then 0 else SumPct(shares[..|shares| - 1]) + shares[|shares| - 1].pct
  }

  /** The divisor of the distribution: the percentage sum, or 1 when that is 0. */
  function Divisor(shares: seq<Share>): (d: nat)
    ensures d >= 1
    ensures SumPct(shares) > 0 ==> d == SumPct(shares)
  {
    if SumPct(shares) == 0 then 1 else SumPct(shares)
  }

  /** The hours of a phase with percentage pct under divisor d. */
  function Portion(totalH: real, pct: nat, d: nat): real
    requires d >= 1
  {
    totalH * (pct as real / d as real)
  }

  /** Hours of every phase of shares with a fixed divisor d. */
  function Spread(totalH: real, shares: seq<Share>, d: nat): (r: seq<TaskDemand>)
    requires d >= 1
    ensures |r| == |shares|
    ensures forall i :: 0 <= i < |shares| ==> r[i].name == shares[i].task
  {
    if shares == [] then []
    else Spread(totalH, shares[..|shares| - 1], d) + [TaskDemand(shares[|shares| - 1].task, Portion(totalH, shares[|shares| - 1].pct, d))]
  }

  /** The base hours of every phase, in the order of the shares. */
  function Distribute(totalH: real, shares: seq<Share>): seq<TaskDemand>
  {
    Spread(totalH, shares, Divisor(shares))
  }

  lemma {:induction false} SpreadAt(totalH: real, shares: seq<Share>, d: nat, i: nat)
    requires d >= 1 && i < |shares|
    ensures Spread(totalH, shares, d)[i].hours == Portion(totalH, shares[i].pct, d)
  {
    if i < |shares| - 1 {
      SpreadAt(totalH, shares[..|shares| - 1], d, i);
    }
  }

  /** Each phase receives the total in proportion to its own percentage. */
  lemma DistributeAt(totalH: real, shares: seq<Share>, i: nat)
    requires i < |shares|
    ensures Distribute(totalH, shares)[i].name == shares[i].task
    ensures Distribute(totalH, shares)[i].hours == totalH * (shares[i].pct as real / Divisor(shares) as real)
  {
    SpreadAt(totalH, shares, Divisor(shares), i);
  }

  /** A non-negative total gives every phase non-negative hours. */
  lemma DistributeNonNegative(totalH: real, shares: seq<Share>, i: nat)
    requires totalH >= 0.0 && i < |shares|
    ensures Distribute(totalH, shares)[i].hours >= 0.0
  {
    DistributeAt(totalH, shares, i);
    var q := shares[i].pct as real / Divisor(shares) as real;
    assert q >= 0.0;
    assert totalH * q >= 0.0;
  }

  /** With a non-negative total, a larger percentage never gets fewer hours. */
  lemma DistributeMonotone(totalH: real, shares: seq<Share>, i: nat, j: nat)
    requires totalH >= 0.0 && i < |shares| && j < |shares| && shares[i].pct <= shares[j].pct
    ensures Distribute(totalH, shares)[i].hours <= Distribute(totalH, shares)[j].hours
  {
    DistributeAt(totalH, shares, i);
    DistributeAt(totalH, shares, j);
    var d := Divisor(shares) as real;
    var qi, qj := shares[i].pct as real / d, shares[j].pct as real / d;
    assert qi <= qj;
    assert totalH * qj - totalH * qi == totalH * (qj - qi);
  }

  lemma {:induction false} SpreadSum(totalH: real, shares: seq<Share>, d: nat)
    requires d >= 1
    ensures SumHours(Spread(totalH, shares, d)) == Portion(totalH, SumPct(shares), d)
  {
    if shares != [] {
      var init := shares[..|shares| - 1];
      var last := shares[|shares| - 1];
      var r := Spread(totalH, shares, d);
      var a := Spread(totalH, init, d);
      SpreadSum(totalH, init, d);
      assert r == a + [TaskDemand(last.task, Portion(totalH, last.pct, d))];
      assert r[..|r| - 1] == a;
      assert SumHours(r) == SumHours(a) + Portion(totalH, last.pct, d);
      assert SumPct(shares) == SumPct(init) + last.pct;
      PortionAdd(totalH, SumPct(init), last.pct, d);
      assert SumHours(r) == Portion(totalH, SumPct(init) + last.pct, d);
    } else {
      assert Spread(totalH, shares, d) == [] && SumPct(shares) == 0;
      PortionZero(totalH, d);
    }
  }

  lemma PortionZero(t: real, d: nat)
    requires d >= 1
    ensures Portion(t, 0, d) == 0.0
  {
    assert 0 as real / d as real == 0.0;
  }

  /** Shares of two percentages add up to the share of their sum. */
  lemma PortionAdd(t: real, a: nat, b: nat, d: nat)
    requires d >= 1
    ensures Portion(t, a, d) + Portion(t, b, d) == Portion(t, a + b, d)
  {
    var x, y, z := a as real, b as real, d as real;
    assert x / z + y / z == (x + y) / z;
  }

  /** When some percentage is positive, the phases add up to the total. */
  lemma DistributeSums(totalH: real, shares: seq<Share>)
    requires SumPct(shares) > 0
    ensures SumHours(Distribute(totalH, shares)) == totalH
  {
    var d := Divisor(shares);
    SpreadSum(totalH, shares, d);
    WholePortion(totalH, d);
  }

  /** The share of the whole divisor is the whole total. */
  lemma WholePortion(t: real, d: nat)
    requires d >= 1
    ensures Portion(t, d, d) == t
  {
    var z := d as real;
    assert z / z == 1.0;
  }

  lemma {:induction false} ZeroSumAllZero(shares: seq<Share>, i: nat)
    requires SumPct(shares) == 0 && i < |shares|
    ensures shares[i].pct == 0
  {
    if i < |shares| - 1 {
      ZeroSumAllZero(shares[..|shares| - 1], i);
    }
  }

  /** A phase at 0 percent gets no hours. */
  lemma DistributeZeroPct(totalH: real, shares: seq<Share>, i: nat)
    requires i < |shares| && shares[i].pct == 0
    ensures Distribute(totalH, shares)[i].hours == 0.0
  {
    DistributeAt(totalH, shares, i);
  }

  /** When every percentage is 0, every phase gets 0 hours. */
  lemma DistributeAllZero(totalH: real, shares: seq<Share>, i: nat)
    requires SumPct(shares) == 0 && i < |shares|
    ensures Distribute(totalH, shares)[i].hours == 0.0
  {
    ZeroSumAllZero(shares, i);
    DistributeZeroPct(totalH, shares, i);
  }

  /** A task with non-negative hours asks for exactly those hours. */
  lemma DemandOfNonNegative(t: TaskDemand)
    requires t.hours >= 0.0
    ensures Demand(t) == t.hours
  {
  }

  /** With a non-negative total, the positive hours of the distribution add
      up to the total: no phase is negative, so none is skipped. */
  lemma {:induction false} SpreadDemand(totalH: real, shares: seq<Share>, d: nat)
    requires totalH >= 0.0 && d >= 1
    ensures PositiveDemand(Spread(totalH, shares, d)) == SumHours(Spread(totalH, shares, d))
  {
    if shares != [] {
      var r := Spread(totalH, shares, d);
      var init := shares[..|shares| - 1];
      SpreadDemand(totalH, init, d);
      assert r[..|r| - 1] == Spread(totalH, init, d);
      DistributeNonNegativeWith(totalH, shares, d);
      DemandOfNonNegative(r[|r| - 1]);
    }
  }

  lemma DistributeNonNegativeWith(totalH: real, shares: seq<Share>, d: nat)
    requires totalH >= 0.0 && d >= 1 && shares != []
    ensures Spread(totalH, shares, d)[|shares| - 1].hours >= 0.0
  {
    var q := shares[|shares| - 1].pct as real / d as real;
    assert q >= 0.0;
    assert totalH * q >= 0.0;
  }

  lemma DistributeDemand(totalH: real, shares: seq<Share>)
    requires totalH >= 0.0 && SumPct(shares) > 0
    ensures PositiveDemand(Distribute(totalH, shares)) == totalH
  {
    SpreadDemand(totalH, shares, Divisor(shares));
    DistributeSums(totalH, shares);
  }

  lemma SumPctPrefix(s: seq<Share>, k: nat)
    requires k < |s|
    ensures SumPct(s[..k + 1]) == SumPct(s[..k]) + s[k].pct
  {
    assert s[..k + 1][..k] == s[..k];
  }

  /** The first seven default percentages add up to 50. */
  lemma DefaultSharesFirstHalf()
    ensures SumPct(DefaultShares[..7]) == 50
  {
    var s := DefaultShares;
    assert s[..0] == [];
    SumPctPrefix(s, 0);
    assert SumPct(s[..1]) == 2;
    SumPctPrefix(s, 1);
    assert SumPct(s[..2]) == 7;
    SumPctPrefix(s, 2);
    assert SumPct(s[..3]) == 11;
    SumPctPrefix(s, 3);
    assert SumPct(s[..4]) == 15;
    SumPctPrefix(s, 4);
    assert SumPct(s[..5]) == 20;
    SumPctPrefix(s, 5);
    assert SumPct(s[..6]) == 40;
    SumPctPrefix(s, 6);
    assert SumPct(s[..7]) == 50;
  }

  /** The last seven default percentages add up to 34. */
  lemma DefaultSharesSecondHalf()
    ensures SumPct(DefaultShares[7..]) == 34
  {
    var s := DefaultShares[7..];
    assert s[..0] == [];
    SumPctPrefix(s, 0);
    assert SumPct(s[..1]) == 8;
    SumPctPrefix(s, 1);
    assert SumPct(s[..2]) == 16;
    SumPctPrefix(s, 2);
    assert SumPct(s[..3]) == 21;
    SumPctPrefix(s, 3);
    assert SumPct(s[..4]) == 26;
    SumPctPrefix(s, 4);
    assert SumPct(s[..5]) == 30;
    SumPctPrefix(s, 5);
    assert SumPct(s[..6]) == 33;
    SumPctPrefix(s, 6);
    assert SumPct(s[..7]) == 34;
    assert s[..7] == s;
  }

  lemma {:induction false} SumPctAppend(a: seq<Share>, b: seq<Share>)
    ensures SumPct(a + b) == SumPct(a) + SumPct(b)
    decreases |b|
  {
    if b == [] {
      assert a + b == a;
    } else {
      assert (a + b)[..|a + b| - 1] == a + b[..|b| - 1];
      SumPctAppend(a, b[..|b| - 1]);
    }
  }

  /** The default percentages add up to 84, not 100. */
  lemma DefaultSharesPct()
    ensures SumPct(DefaultShares) == 84
  {
    DefaultSharesFirstHalf();
    DefaultSharesSecondHalf();
    SumPctAppend(DefaultShares[..7], DefaultShares[7..]);
    assert DefaultShares[..7] + DefaultShares[7..] == DefaultShares;
  }

  /** Under the default percentages the divisor is 84 and the phases add up
      to the total. */
  lemma DefaultSharesSum(totalH: real)
    ensures Divisor(DefaultShares) == 84
    ensures SumHours(Distribute(totalH, DefaultShares)) == totalH
  {
    DefaultSharesPct();
    DistributeSums(totalH, DefaultShares);
  }
}
