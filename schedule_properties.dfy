/** Properties of the schedules the scheduler produces, stated over the
    characterization `IsScheduleOf` that `BuildSchedule` guarantees. */
module ScheduleProperties {
  import opened Tasks
  import opened Scheduler

  // ---------------------------------------------------------------------
  // Sums over segments

  lemma {:induction false} LoadsAppend(a: seq<Segment>, b: seq<Segment>, team: real)
    ensures Loads(a + b, team) == Loads(a, team) + Loads(b, team)
    decreases |b|
  {
    if b == [] {
      assert a + b == a;
    } else {
      var b' := b[..|b| - 1];
      assert (a + b)[..|a + b| - 1] == a + b';
      LoadsAppend(a, b', team);
    }
  }

  lemma LoadsCons(s: Segment, rest: seq<Segment>, team: real)
    ensures Loads([s] + rest, team) == Load(s, team) + Loads(rest, team)
  {
    LoadsAppend([s], rest, team);
    assert [s][..0] == [];
  }

  /** Segments of positive length deliver a positive amount of labor. */
  lemma {:induction false} LoadsPositive(segs: seq<Segment>, w: Window, team: real)
    requires team > 0.0 && forall k :: 0 <= k < |segs| ==> Contained(segs[k], w)
    ensures segs != [] ==> Loads(segs, team) > 0.0
    ensures Loads(segs, team) >= 0.0
    decreases |segs|
  {
    if segs != [] {
      var p := segs[..|segs| - 1];
      assert forall k :: 0 <= k < |p| ==> p[k] == segs[k];
      LoadsPositive(p, w, team);
      Product(Duration(segs[|segs| - 1]), team);
    }
  }

  // ---------------------------------------------------------------------
  // Ordering

  /** In output order, segment starts strictly increase and no segment starts
      before an earlier one has finished. */
  lemma {:induction false} ScheduleOrdered(s: seq<Segment>, start: Cursor, w: Window)
    requires w.Valid() && Chained(s, start, w)
    requires forall k :: 0 <= k < |s| ==> Contained(s[k], w)
    ensures forall k, l :: 0 <= k < l < |s| ==>
      Before(s[k].start, s[l].start) && !Before(s[l].start, s[k].finish)
    decreases |s|
  {
    if |s| > 1 {
      var p := s[..|s| - 1];
      assert forall k :: 0 <= k < |p| ==> p[k] == s[k];
      ScheduleOrdered(p, start, w);
      var l := |s| - 1;
      assert s[l].start == Advance(s[l - 1].finish, w);
      forall k | 0 <= k < l
        ensures Before(s[k].start, s[l].start) && !Before(s[l].start, s[k].finish)
      {
        if k < l - 1 {
          assert !Before(p[l - 1].start, p[k].finish);
        }
      }
    }
  }

  // ---------------------------------------------------------------------
  // Conservation

  lemma {:induction false} FlattenDelivers(blocks: seq<seq<Segment>>, tasks: seq<TaskDemand>, w: Window, team: real)
    requires |blocks| == |tasks|
    requires forall j :: 0 <= j < |tasks| ==> BlockFor(blocks[j], tasks[j], w, team)
    ensures Loads(Flatten(blocks), team) == PositiveDemand(tasks)
    decreases |tasks|
  {
    if tasks != [] {
      var n := |tasks| - 1;
      FlattenDelivers(blocks[..n], tasks[..n], w, team);
      LoadsAppend(Flatten(blocks[..n]), blocks[n], team);
      assert BlockFor(blocks[n], tasks[n], w, team);
    }
  }

  /** A feasible run delivers, in total, exactly the positive hours asked for. */
  lemma ScheduleDeliversDemand(schedule: seq<Segment>, blocks: seq<seq<Segment>>, tasks: seq<TaskDemand>,
                               start: Cursor, w: Window, team: real)
    requires w.Valid() && IsScheduleOf(schedule, blocks, tasks, start, w, team)
    ensures Loads(schedule, team) == PositiveDemand(tasks)
  {
    FlattenDelivers(blocks, tasks, w, team);
  }

  /** Each allocation of a task is positive, at most what was still to be
      delivered before it (so the remainder never goes negative), and at most
      what is left of that day's window times the crew. */
  lemma AllocationBounds(block: seq<Segment>, t: TaskDemand, w: Window, team: real)
    requires w.Valid() && team > 0.0 && BlockFor(block, t, w, team)
    requires forall k :: 0 <= k < |block| ==> Contained(block[k], w)
    ensures forall j :: 0 <= j < |block| ==>
      0.0 < Load(block[j], team) <= t.hours - Loads(block[..j], team)
    ensures forall j :: 0 <= j < |block| ==>
      Load(block[j], team) <= (w.close - block[j].start.tod) * team
  {
    forall j | 0 <= j < |block|
      ensures 0.0 < Load(block[j], team) <= t.hours - Loads(block[..j], team)
      ensures Load(block[j], team) <= (w.close - block[j].start.tod) * team
    {
      AllocationBoundAt(block, t, w, team, j);
    }
  }

  lemma AllocationBoundAt(block: seq<Segment>, t: TaskDemand, w: Window, team: real, j: nat)
    requires w.Valid() && team > 0.0 && BlockFor(block, t, w, team) && j < |block|
    requires forall k :: 0 <= k < |block| ==> Contained(block[k], w)
    ensures 0.0 < Load(block[j], team) <= t.hours - Loads(block[..j], team)
    ensures Load(block[j], team) <= (w.close - block[j].start.tod) * team
  {
    assert t.hours > 0.0 && Loads(block, team) == t.hours;
    LoadsSplitAt(block, j, team);
    SuffixLoadNonNegative(block, j, w, team);
    SegmentLoadBounds(block[j], w, team);
  }

  /** The segments after position j deliver a non-negative load. */
  lemma SuffixLoadNonNegative(block: seq<Segment>, j: nat, w: Window, team: real)
    requires team > 0.0 && j < |block|
    requires forall k :: 0 <= k < |block| ==> Contained(block[k], w)
    ensures Loads(block[j + 1..], team) >= 0.0
  {
    var rest := block[j + 1..];
    assert forall k :: 0 <= k < |rest| ==> rest[k] == block[j + 1 + k];
    LoadsPositive(rest, w, team);
  }

  lemma LoadsSplitAt(segs: seq<Segment>, j: nat, team: real)
    requires j < |segs|
    ensures Loads(segs, team) == Loads(segs[..j], team) + Load(segs[j], team) + Loads(segs[j + 1..], team)
  {
    var pre, rest := segs[..j], segs[j + 1..];
    assert segs == pre + ([segs[j]] + rest);
    LoadsAppend(pre, [segs[j]] + rest, team);
    LoadsCons(segs[j], rest, team);
  }

  /** A contained segment delivers a positive load, at most what is left of
      its day's window times the crew. */
  lemma SegmentLoadBounds(s: Segment, w: Window, team: real)
    requires team > 0.0 && Contained(s, w)
    ensures 0.0 < Load(s, team) <= (w.close - s.start.tod) * team
  {
    Product(Duration(s), team);
    ProductMono(Duration(s), w.close - s.start.tod, team);
  }

  lemma ProductMono(x: real, y: real, t: real)
    requires x <= y && t >= 0.0
    ensures x * t <= y * t
  {
  }

  // ---------------------------------------------------------------------
  // Determinism: the characterization fixes the schedule

  lemma {:induction false} FlattenCons(blocks: seq<seq<Segment>>)
    requires blocks != []
    ensures Flatten(blocks) == blocks[0] + Flatten(blocks[1..])
    decreases |blocks|
  {
    var n := |blocks|;
    if n > 1 {
      var init := blocks[..n - 1];
      FlattenCons(init);
      assert init[1..] == blocks[1..][..n - 2];
      assert blocks[1..][n - 2] == blocks[n - 1];
    } else {
      assert blocks[1..] == [];
    }
  }

  /** A chained run splits into a chained head and a tail chained from where
      the head left the cursor. */
  lemma ChainedSplit(a: seq<Segment>, b: seq<Segment>, start: Cursor, w: Window)
    requires w.Valid() && Chained(a + b, start, w)
    ensures Chained(a, start, w) && Chained(b, CursorAfter(a, start), w)
  {
    var ab := a + b;
    assert forall k :: 0 <= k < |a| ==> ab[k] == a[k];
    assert forall k :: 0 <= k < |b| ==> ab[|a| + k] == b[k];
    if b != [] && a != [] {
      assert ab[|a|].start == Advance(ab[|a| - 1].finish, w);
    }
    forall k | 0 < k < |b|
      ensures b[k].start == Advance(b[k - 1].finish, w)
    {
      assert ab[|a| + k].start == Advance(ab[|a| + k - 1].finish, w);
    }
  }

  lemma ZeroLoads(segs: seq<Segment>)
    ensures Loads(segs, 0.0) == 0.0
  {
    if segs != [] {
      ZeroLoads(segs[..|segs| - 1]);
    }
  }

  lemma SameLoadSameFinish(x: real, y: real, from: real, team: real)
    requires team > 0.0 && (x - from) * team == (y - from) * team
    ensures x == y
  {
    assert (x - y) * team == (x - from) * team - (y - from) * team;
  }

  /** The segments after the first of a task's block form the block of what
      that first segment left over, chained from its finish. */
  lemma BlockTail(b: seq<Segment>, t: TaskDemand, c: Cursor, w: Window, team: real)
    requires w.Valid() && team > 0.0 && |b| > 1 && BlockFor(b, t, w, team) && Chained(b, c, w)
    requires forall k :: 0 <= k < |b| ==> Contained(b[k], w)
    ensures BlockFor(b[1..], TaskDemand(t.name, t.hours - Load(b[0], team)), w, team)
    ensures Chained(b[1..], b[0].finish, w)
    ensures forall k :: 0 <= k < |b| - 1 ==> Contained(b[1..][k], w)
    ensures Loads(b[1..], team) > 0.0
  {
    var rest := b[1..];
    assert b == [b[0]] + rest;
    LoadsCons(b[0], rest, team);
    assert forall k :: 0 <= k < |rest| ==> rest[k] == b[k + 1];
    LoadsPositive(rest, w, team);
    assert rest[0].start == Advance(b[0].finish, w);
  }

  /** Two blocks for the same task, laid out from the same cursor under the
      same window and crew, are equal. */
  lemma {:induction false} BlockUnique(b1: seq<Segment>, b2: seq<Segment>, t: TaskDemand, c: Cursor, w: Window, team: real)
    requires w.Valid() && team >= 0.0
    requires BlockFor(b1, t, w, team) && BlockFor(b2, t, w, team)
    requires forall k :: 0 <= k < |b1| ==> Contained(b1[k], w)
    requires forall k :: 0 <= k < |b2| ==> Contained(b2[k], w)
    requires Chained(b1, c, w) && Chained(b2, c, w)
    ensures b1 == b2
    decreases |b1|
  {
    if team == 0.0 {
      ZeroLoads(b1);
      return;
    }
    if t.hours <= 0.0 {
      return;
    }
    if |b1| == 1 && |b2| == 1 {
      SingleBlocksEqual(b1, b2, t, c, w, team);
    } else if |b1| == 1 {
      OneSegmentShort(b1, b2, t, c, w, team);
    } else if |b2| == 1 {
      OneSegmentShort(b2, b1, t, c, w, team);
    } else {
      var s1 := b1[0];
      assert s1 == b2[0];
      BlockTail(b1, t, c, w, team);
      BlockTail(b2, t, c, w, team);
      BlockUnique(b1[1..], b2[1..], TaskDemand(t.name, t.hours - Load(s1, team)), s1.finish, w, team);
      assert b1 == [s1] + b1[1..] && b2 == [s1] + b2[1..];
    }
  }

  /** Two one-segment blocks for the same task from the same cursor are equal:
      they start at the same instant and deliver the same labor. */
  lemma SingleBlocksEqual(b1: seq<Segment>, b2: seq<Segment>, t: TaskDemand, c: Cursor, w: Window, team: real)
    requires w.Valid() && team > 0.0 && t.hours > 0.0 && |b1| == 1 && |b2| == 1
    requires BlockFor(b1, t, w, team) && BlockFor(b2, t, w, team)
    requires Contained(b1[0], w) && Contained(b2[0], w)
    requires Chained(b1, c, w) && Chained(b2, c, w)
    ensures b1 == b2
  {
    var s1, s2 := b1[0], b2[0];
    assert b1 == [s1] && b2 == [s2];
    LoadsCons(s1, [], team);
    LoadsCons(s2, [], team);
    SameLoadSameFinish(s1.finish.tod, s2.finish.tod, s1.start.tod, team);
  }

  /** A one-segment block and a longer block for the same task cannot both
      start at the same instant: the longer one's first segment already runs
      to the close, so it alone would deliver at least the task's hours. */
  lemma OneSegmentShort(b1: seq<Segment>, b2: seq<Segment>, t: TaskDemand, c: Cursor, w: Window, team: real)
    requires w.Valid() && team > 0.0 && t.hours > 0.0
    requires BlockFor(b1, t, w, team) && BlockFor(b2, t, w, team)
    requires forall k :: 0 <= k < |b1| ==> Contained(b1[k], w)
    requires forall k :: 0 <= k < |b2| ==> Contained(b2[k], w)
    requires Chained(b1, c, w) && Chained(b2, c, w)
    ensures |b1| == 1 ==> |b2| == 1
  {
    if |b1| == 1 && |b2| > 1 {
      FirstOfLongBlock(b2, t, w, team);
      OnlySegmentLoad(b1, t, w, team);
      assert b1[0].start == b2[0].start;
      ProductMono(Duration(b1[0]), Duration(b2[0]), team);
    }
  }

  /** The first segment of a block of several segments runs to the close and
      delivers less than the whole task. */
  lemma FirstOfLongBlock(b: seq<Segment>, t: TaskDemand, w: Window, team: real)
    requires team > 0.0 && |b| > 1 && BlockFor(b, t, w, team)
    requires forall k :: 0 <= k < |b| ==> Contained(b[k], w)
    ensures b[0].finish.tod == w.close && Load(b[0], team) < t.hours
  {
    var rest := b[1..];
    assert b == [b[0]] + rest;
    LoadsCons(b[0], rest, team);
    assert forall k :: 0 <= k < |rest| ==> rest[k] == b[k + 1];
    LoadsPositive(rest, w, team);
  }

  /** The segment of a one-segment block delivers the whole task. */
  lemma OnlySegmentLoad(b: seq<Segment>, t: TaskDemand, w: Window, team: real)
    requires |b| == 1 && t.hours > 0.0 && BlockFor(b, t, w, team)
    ensures Load(b[0], team) == t.hours
  {
    assert b == [b[0]];
    LoadsCons(b[0], [], team);
  }

  /** The postcondition of the scheduler determines its result: two runs that
      both satisfy it for the same inputs produced the same schedule. */
  lemma {:induction false} ScheduleUnique(s1: seq<Segment>, bl1: seq<seq<Segment>>, s2: seq<Segment>, bl2: seq<seq<Segment>>,
                                          tasks: seq<TaskDemand>, start: Cursor, w: Window, team: real)
    requires w.Valid() && team >= 0.0
    requires IsScheduleOf(s1, bl1, tasks, start, w, team) && IsScheduleOf(s2, bl2, tasks, start, w, team)
    ensures s1 == s2 && bl1 == bl2
    decreases |tasks|
  {
    if tasks != [] {
      ScheduleTailIs(s1, bl1, tasks, start, w, team);
      ScheduleTailIs(s2, bl2, tasks, start, w, team);
      BlockUnique(bl1[0], bl2[0], tasks[0], start, w, team);
      ScheduleUnique(Flatten(bl1[1..]), bl1[1..], Flatten(bl2[1..]), bl2[1..],
                     tasks[1..], CursorAfter(bl1[0], start), w, team);
      assert bl1 == [bl1[0]] + bl1[1..] && bl2 == [bl2[0]] + bl2[1..];
    }
  }

  /** Dropping the first task of a feasible run leaves a feasible run of the
      remaining tasks, started where the first task left the cursor. */
  lemma ScheduleTailIs(s: seq<Segment>, bl: seq<seq<Segment>>, tasks: seq<TaskDemand>, start: Cursor, w: Window, team: real)
    requires w.Valid() && tasks != [] && IsScheduleOf(s, bl, tasks, start, w, team)
    ensures forall k :: 0 <= k < |bl[0]| ==> Contained(bl[0][k], w)
    ensures Chained(bl[0], start, w) && BlockFor(bl[0], tasks[0], w, team)
    ensures s == bl[0] + Flatten(bl[1..])
    ensures IsScheduleOf(Flatten(bl[1..]), bl[1..], tasks[1..], CursorAfter(bl[0], start), w, team)
  {
    FlattenCons(bl);
    var head, tail := bl[0], Flatten(bl[1..]);
    ChainedSplit(head, tail, start, w);
    assert forall k :: 0 <= k < |head| ==> s[k] == head[k];
    assert forall k :: 0 <= k < |tail| ==> s[|head| + k] == tail[k];
    assert forall j :: 0 <= j < |tasks| - 1 ==> bl[1..][j] == bl[j + 1] && tasks[1..][j] == tasks[j + 1];
  }
}
