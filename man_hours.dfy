/** Total labor demand of a project: each stand's area times the minutes per
    square metre of its stand type, summed and turned into hours.
    The stand type is looked up by substring: the first configured type key
    that occurs in the upper-cased stand type wins, and a stand whose type
    matches no key costs nothing. */
module ManHours {

  datatype Option<T> = None | Some(value: T)

  /** One row of the project table. The area is None when the cell does not
      parse as a number; such a cell counts as area 0. */
  datatype Stand = Stand(standType: string, area: Option<real>)

  /** One configured stand type with its minutes per square metre (an
      integer input with minimum 0). The order of a sequence of rates is
      the order in which keys are tried. */
  datatype Rate = Rate(key: string, minutesPerSqm: nat)

  /** The stand types offered by default, in lookup order. */
  const DefaultRates: seq<Rate> :=
    [Rate("SMART", 30), Rate("TOKIO", 30), Rate("SYDNEY", 30), Rate("TORONTO", 30), Rate("SONDERSTAND", 30)]

  // ---------------------------------------------------------------------
  // Normalisation of the stand type
  // ---------------------------------------------------------------------

  predicate IsLower(c: char) { 'a' <= c <= 'z' }

  /** Upper-casing of one character: maps a-z to A-Z, keeps the rest. */
  function UpperChar(c: char): (u: char)
    ensures !IsLower(u)
  {
    if IsLower(c) then (c as int - 32) as char else c
  }

  /** Upper-casing of the stand type column (letters a-z only). */
  function Upper(s: string): (r: string)
    ensures |r| == |s|
    ensures forall i :: 0 <= i < |s| ==> r[i] == UpperChar(s[i])
  {
    if s == [] then [] else [UpperChar(s[0])] + Upper(s[1..])
  }

  // ---------------------------------------------------------------------
  // Substring test
  // ---------------------------------------------------------------------

  predicate StartsWith(s: string, k: string)
  {
    |k| <= |s| && s[..|k|] == k
  }

  /** Whether key k occurs somewhere in s (the empty key occurs everywhere). */
  predicate Contains(s: string, k: string)
  {
    StartsWith(s, k) || (s != [] && Contains(s[1..], k))
  }

  /** k occurs in s at position i. */
  predicate OccursAt(s: string, k: string, i: int)
  {
    0 <= i && i + |k| <= |s| && s[i..i + |k|] == k
  }

  /** Contains is exactly "k occurs in s at some position". */
  lemma {:induction false} ContainsIff(s: string, k: string)
    ensures Contains(s, k) <==> exists i :: OccursAt(s, k, i)
  {
    if s == [] {
      if Contains(s, k) {
        assert OccursAt(s, k, 0);
      }
    } else {
      ContainsIff(s[1..], k);
      if Contains(s, k) {
        if StartsWith(s, k) {
          assert OccursAt(s, k, 0);
        } else {
          var i :| OccursAt(s[1..], k, i);
          assert s[i + 1..i + 1 + |k|] == s[1..][i..i + |k|];
          assert OccursAt(s, k, i + 1);
        }
      }
      if exists i :: OccursAt(s, k, i) {
        var i :| OccursAt(s, k, i);
        if i == 0 {
          assert StartsWith(s, k);
        } else {
          assert s[1..][i - 1..i - 1 + |k|] == s[i..i + |k|];
          assert OccursAt(s[1..], k, i - 1);
        }
      }
    }
  }

  /** A key longer than the text does not occur in it. */
  lemma {:induction false} LongerKeyAbsent(s: string, k: string)
    requires |k| > |s|
    ensures !Contains(s, k)
  {
    if s != [] {
      LongerKeyAbsent(s[1..], k);
    }
  }

  // ---------------------------------------------------------------------
  // Rate lookup and totals
  // ---------------------------------------------------------------------

  /** Minutes per square metre of a stand type: the rate of the first key, in
      configuration order, that occurs in it; 0 when no key occurs. */
  function MinutesPerSqm(rates: seq<Rate>, standType: string): (m: nat)
    ensures m == 0 || exists j :: 0 <= j < |rates| && Contains(standType, rates[j].key) && m == rates[j].minutesPerSqm
  {
    if rates == [] then 0
    else if Contains(standType, rates[0].key) then rates[0].minutesPerSqm
    else
      var m := MinutesPerSqm(rates[1..], standType);
      assert m != 0 ==> exists j :: 1 <= j < |rates| && Contains(standType, rates[j].key) && m == rates[j].minutesPerSqm by {
        if m != 0 {
          var j :| 0 <= j < |rates[1..]| && Contains(standType, rates[1..][j].key) && m == rates[1..][j].minutesPerSqm;
          assert rates[j + 1] == rates[1..][j];
        }
      }
      m
  }

  /** When key k is the first that occurs, its rate is the one used. */
  lemma {:induction false} FirstMatchWins(rates: seq<Rate>, standType: string, k: nat)
    requires k < |rates| && Contains(standType, rates[k].key)
    requires forall j :: 0 <= j < k ==> !Contains(standType, rates[j].key)
    ensures MinutesPerSqm(rates, standType) == rates[k].minutesPerSqm
  {
    if k > 0 {
      assert !Contains(standType, rates[0].key);
      FirstMatchWins(rates[1..], standType, k - 1);
    }
  }

  /** When no key occurs, the stand type costs 0 minutes per square metre. */
  lemma {:induction false} NoMatchIsZero(rates: seq<Rate>, standType: string)
    requires forall j :: 0 <= j < |rates| ==> !Contains(standType, rates[j].key)
    ensures MinutesPerSqm(rates, standType) == 0
  {
    if rates != [] {
      assert !Contains(standType, rates[0].key);
      NoMatchIsZero(rates[1..], standType);
    }
  }

  /** Area as a number; a cell that did not parse counts as 0. */
  function AreaOf(s: Stand): real
  {
    match s.area
    case None => 0.0
    case Some(v) => v
  }

  /** Man-minutes of one stand: area times the rate of its upper-cased type. */
  function StandMinutes(s: Stand, rates: seq<Rate>): real
  {
    AreaOf(s) * MinutesPerSqm(rates, Upper(s.standType)) as real
  }

  /** Sum of the man-minutes of all stands. */
  function ManMinutes(stands: seq<Stand>, rates: seq<Rate>): real
  {
    if stands == [] then 0.0 else ManMinutes(stands[..|stands| - 1], rates) + StandMinutes(stands[|stands| - 1], rates)
  }

  /** Total man-hours of the project. */
  function TotalHours(stands: seq<Stand>, rates: seq<Rate>): real
  {
    ManMinutes(stands, rates) / 60.0
  }

  predicate AreasNonNegative(stands: seq<Stand>)
  {
    forall i :: 0 <= i < |stands| ==> AreaOf(stands[i]) >= 0.0
  }

  lemma StandMinutesNonNegative(s: Stand, rates: seq<Rate>)
    requires AreaOf(s) >= 0.0
    ensures StandMinutes(s, rates) >= 0.0
  {
    var m := MinutesPerSqm(rates, Upper(s.standType)) as real;
    assert AreaOf(s) * m >= 0.0;
  }

  lemma {:induction false} ManMinutesNonNegative(stands: seq<Stand>, rates: seq<Rate>)
    requires AreasNonNegative(stands)
    ensures ManMinutes(stands, rates) >= 0.0
  {
    if stands != [] {
      var init := stands[..|stands| - 1];
      assert forall i :: 0 <= i < |init| ==> init[i] == stands[i];
      ManMinutesNonNegative(init, rates);
      StandMinutesNonNegative(stands[|stands| - 1], rates);
    }
  }

  /** With no negative area in the table the total is never negative. */
  lemma TotalHoursNonNegative(stands: seq<Stand>, rates: seq<Rate>)
    requires AreasNonNegative(stands)
    ensures TotalHours(stands, rates) >= 0.0
  {
    ManMinutesNonNegative(stands, rates);
  }

  /** The total of two tables is the sum of their totals. */
  lemma {:induction false} ManMinutesAppend(a: seq<Stand>, b: seq<Stand>, rates: seq<Rate>)
    ensures ManMinutes(a + b, rates) == ManMinutes(a, rates) + ManMinutes(b, rates)
    decreases |b|
  {
    if b == [] {
      assert a + b == a;
    } else {
      var init := b[..|b| - 1];
      assert (a + b)[..|a + b| - 1] == a + init;
      assert (a + b)[|a + b| - 1] == b[|b| - 1];
      ManMinutesAppend(a, init, rates);
    }
  }

  /** A row whose area does not parse adds nothing to the total, whatever
      its stand type. */
  lemma UnparsedAreaAddsNothing(stands: seq<Stand>, standType: string, rates: seq<Rate>)
    ensures ManMinutes(stands + [Stand(standType, None)], rates) == ManMinutes(stands, rates)
    ensures TotalHours(stands + [Stand(standType, None)], rates) == TotalHours(stands, rates)
  {
    var all := stands + [Stand(standType, None)];
    assert all[..|all| - 1] == stands;
    assert StandMinutes(all[|all| - 1], rates) == 0.0;
  }

  /** The order of the keys, not the position in the stand type, decides:
      a type naming two configured keys takes the rate of the earlier key. */
  lemma KeyOrderDecides()
    ensures MinutesPerSqm([Rate("SMART", 10), Rate("SYDNEY", 20)], "SYDNEY SMART") == 10
  {
    var s := "SYDNEY SMART";
    var rates := [Rate("SMART", 10), Rate("SYDNEY", 20)];
    assert s[7..12] == rates[0].key;
    assert OccursAt(s, rates[0].key, 7);
    ContainsIff(s, rates[0].key);
    FirstMatchWins(rates, s, 0);
  }

  /** A lower-case stand type finds its default rate after upper-casing. */
  lemma DefaultLowerCaseMatches()
    ensures MinutesPerSqm(DefaultRates, Upper("tokio")) == 30
  {
    var s := Upper("tokio");
    assert s == "TOKIO";
    assert StartsWith(s, "TOKIO");
    assert s[..5] != "SMART";
    LongerKeyAbsent(s[1..], "SMART");
    FirstMatchWins(DefaultRates, s, 1);
  }
}
