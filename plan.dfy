/** The whole planning pipeline (total man-hours, distribution over the
    phases, schedule) and worked examples of what the scheduler produces. */
module Plan {
  import opened Tasks
  import opened Scheduler
  import opened ScheduleProperties
  import opened ManHours
  import opened Distribution

  /** A feasible schedule of the unrounded distributed hours delivers exactly
      the project's total man-hours, provided no area is negative and some
      percentage is positive. */
  lemma PlanDeliversTotal(stands: seq<Stand>, rates: seq<Rate>, shares: seq<Share>,
                          schedule: seq<Segment>, blocks: seq<seq<Segment>>, start: Cursor, w: Window, team: real)
    requires AreasNonNegative(stands) && SumPct(shares) > 0 && w.Valid()
    requires IsScheduleOf(schedule, blocks, Distribute(TotalHours(stands, rates), shares), start, w, team)
    ensures Loads(schedule, team) == TotalHours(stands, rates)
  {
    var total := TotalHours(stands, rates);
    TotalHoursNonNegative(stands, rates);
    DistributeDemand(total, shares);
    ScheduleDeliversDemand(schedule, blocks, Distribute(total, shares), start, w, team);
  }

  /** Every segment after a partial allocation of the same task starts at the
      opening of the next day. */
  lemma PartialForcesRollover(block: seq<Segment>, t: TaskDemand, c: Cursor, w: Window, team: real)
    requires w.Valid() && BlockFor(block, t, w, team) && Chained(block, c, w)
    ensures forall j :: 0 <= j < |block| - 1 ==> block[j + 1].start == Cursor(block[j].finish.day + 1, w.open)
  {
    forall j | 0 <= j < |block| - 1
      ensures block[j + 1].start == Cursor(block[j].finish.day + 1, w.open)
    {
      assert block[j + 1].start == Advance(block[j].finish, w);
    }
  }

  // ---------------------------------------------------------------------
  // Worked examples: the result is pinned down because only one schedule
  // satisfies the scheduler's postcondition (ScheduleUnique).

  /** 50 hours for a crew of 10 in an 8-19 window fit into the first morning. */
  lemma SingleDayFit(schedule: seq<Segment>, blocks: seq<seq<Segment>>)
    requires IsScheduleOf(schedule, blocks, [TaskDemand("Wandbau", 50.0)], Cursor(0, 8.0), Window(8.0, 19.0), 10.0)
    ensures schedule == [Segment("Wandbau", Cursor(0, 8.0), Cursor(0, 13.0))]
  {
    var w, team := Window(8.0, 19.0), 10.0;
    var t := TaskDemand("Wandbau", 50.0);
    var s := Segment("Wandbau", Cursor(0, 8.0), Cursor(0, 13.0));
    var bl := [[s]];
    assert Flatten(bl) == Flatten(bl[..0]) + [s];
    assert Loads([s], team) == Loads([], team) + Load(s, team);
    assert BlockFor(bl[0], t, w, team);
    ScheduleUnique(schedule, blocks, [s], bl, [t], Cursor(0, 8.0), w, team);
  }

  /** 200 hours for a crew of 14 in an 8-19 window: the first day delivers
      11 * 14 = 154 hours up to the close, and the remaining 46 hours take
      46 / 14 = 23 / 7 hours of the next morning. */
  lemma RolloverToNextDay(schedule: seq<Segment>, blocks: seq<seq<Segment>>)
    requires IsScheduleOf(schedule, blocks, [TaskDemand("Wandbau", 200.0)], Cursor(0, 8.0), Window(8.0, 19.0), 14.0)
    ensures schedule == [Segment("Wandbau", Cursor(0, 8.0), Cursor(0, 19.0)),
                         Segment("Wandbau", Cursor(1, 8.0), Cursor(1, 8.0 + 23.0 / 7.0))]
  {
    var w, team := Window(8.0, 19.0), 14.0;
    var t := TaskDemand("Wandbau", 200.0);
    var s1 := Segment("Wandbau", Cursor(0, 8.0), Cursor(0, 19.0));
    var s2 := Segment("Wandbau", Cursor(1, 8.0), Cursor(1, 8.0 + 23.0 / 7.0));
    var block := [s1, s2];
    var bl := [block];
    assert Flatten(bl) == Flatten(bl[..0]) + block;
    assert block[..1] == [s1] && [s1][..0] == [];
    assert Loads([s1], team) == Loads([], team) + Load(s1, team);
    assert Loads(block, team) == Loads([s1], team) + Load(s2, team);
    assert Load(s1, team) == 154.0 && Load(s2, team) == 46.0;
    assert BlockFor(block, t, w, team);
    assert Chained(block, Cursor(0, 8.0), w);
    ScheduleUnique(schedule, blocks, block, bl, [t], Cursor(0, 8.0), w, team);
  }

  /** A start before the window's opening is moved to the opening, and a
      task of 0 hours between two others emits nothing: the next task starts
      where the previous one finished. */
  lemma SnapAndSkip(schedule: seq<Segment>, blocks: seq<seq<Segment>>)
    requires IsScheduleOf(schedule, blocks,
                          [TaskDemand("Einmessen", 20.0), TaskDemand("Traversen", 0.0), TaskDemand("Kabel verlegen", 10.0)],
                          Cursor(0, 6.0), Window(8.0, 18.0), 5.0)
    ensures schedule == [Segment("Einmessen", Cursor(0, 8.0), Cursor(0, 12.0)),
                         Segment("Kabel verlegen", Cursor(0, 12.0), Cursor(0, 14.0))]
  {
    var w, team, c := Window(8.0, 18.0), 5.0, Cursor(0, 6.0);
    var tasks := [TaskDemand("Einmessen", 20.0), TaskDemand("Traversen", 0.0), TaskDemand("Kabel verlegen", 10.0)];
    var s1 := Segment("Einmessen", Cursor(0, 8.0), Cursor(0, 12.0));
    var s3 := Segment("Kabel verlegen", Cursor(0, 12.0), Cursor(0, 14.0));
    var bl: seq<seq<Segment>> := [[s1], [], [s3]];
    assert Flatten(bl[..1]) == Flatten(bl[..0]) + [s1];
    assert Flatten(bl[..2]) == Flatten(bl[..1]) + [];
    assert Flatten(bl) == Flatten(bl[..2]) + [s3];
    assert Loads([s1], team) == Loads([], team) + Load(s1, team);
    assert Loads([s3], team) == Loads([], team) + Load(s3, team);
    assert BlockFor(bl[0], tasks[0], w, team);
    assert BlockFor(bl[1], tasks[1], w, team);
    assert BlockFor(bl[2], tasks[2], w, team);
    assert Chained([s1, s3], c, w);
    ScheduleUnique(schedule, blocks, [s1, s3], bl, tasks, c, w, team);
  }
}
