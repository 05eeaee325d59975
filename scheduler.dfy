/** The capacity-constrained sequential scheduler: tasks are laid out one after
    another inside a daily working window, a task that does not fit in what is
    left of today spills over to the next day's opening, and a crew of size
    zero makes the whole run infeasible. */
module Scheduler {
  import opened Tasks

  /** An instant: a day index and the hour of that day (0 <= tod < 24). */
  datatype Cursor = Cursor(day: int, tod: real)

  /** The daily working window [open, close), the same every day, in hours. */
  datatype Window = Window(open: real, close: real) {
    predicate Valid() { 0.0 <= open < close < 24.0 }
  }

  /** One emitted schedule entry: labor on `task` from `start` to `finish`. */
  datatype Segment = Segment(task: string, start: Cursor, finish: Cursor)

  predicate ValidCursor(c: Cursor) { 0.0 <= c.tod < 24.0 }

  /** Strict chronological order of instants, as on date-times. */
  predicate Before(a: Cursor, b: Cursor)
  {
    a.day < b.day || (a.day == b.day && a.tod < b.tod)
  }

  predicate InWindow(c: Cursor, w: Window) { w.open <= c.tod < w.close }

  /** Where the next allocation starts when the cursor stands at `c`: snapped
      forward to the opening when early, rolled to the next day's opening when
      at or past the close, unchanged otherwise. It is the earliest working
      instant that is not before `c`. */
  function Advance(c: Cursor, w: Window): (r: Cursor)
    requires w.Valid()
    ensures InWindow(r, w) && !Before(r, c)
  {
    if c.tod < w.open then Cursor(c.day, w.open)
    else if c.tod >= w.close then Cursor(c.day + 1, w.open)
    else c
  }

  /** No working instant lies between `c` and `Advance(c, w)`. */
  lemma AdvanceEarliest(c: Cursor, p: Cursor, w: Window)
    requires w.Valid() && InWindow(p, w) && !Before(p, c)
    ensures !Before(p, Advance(c, w))
  {
  }

  /** A segment lies inside one day's window and has positive length. */
  predicate Contained(s: Segment, w: Window)
  {
    s.start.day == s.finish.day && w.open <= s.start.tod < s.finish.tod <= w.close
  }

  /** Wall-clock length of a segment, in hours. */
  function Duration(s: Segment): real
  {
    s.finish.tod - s.start.tod
  }

  /** Labor-hours a crew of `team` delivers in a segment. */
  function Load(s: Segment, team: real): real
  {
    Duration(s) * team
  }

  /** Labor-hours a crew of `team` delivers in a run of segments. */
  function Loads(segs: seq<Segment>, team: real): real
  {
    if segs == [] then 0.0 else Loads(segs[..|segs| - 1], team) + Load(segs[|segs| - 1], team)
  }

  function Flatten(blocks: seq<seq<Segment>>): seq<Segment>
  {
    if blocks == [] then [] else Flatten(blocks[..|blocks| - 1]) + blocks[|blocks| - 1]
  }

  /** The instant the cursor stands at after emitting `segs` from `start`. */
  function CursorAfter(segs: seq<Segment>, start: Cursor): Cursor
  {
    if segs == [] then start else segs[|segs| - 1].finish
  }

  /** Each segment starts where the cursor stood before it, advanced into the
      window: the first one at the advanced start, every later one at the
      previous finish, or at the next day's opening when that finish is the
      window's close. */
  predicate Chained(segs: seq<Segment>, start: Cursor, w: Window)
    requires w.Valid()
  {
    (segs != [] ==> segs[0].start == Advance(start, w))
    && forall k :: 0 < k < |segs| ==> segs[k].start == Advance(segs[k - 1].finish, w)
  }

  /** What the segments emitted for task `t` promise: they carry its name, all
      but the last end at the window's close (a partial allocation exhausts
      the day), and together they deliver exactly its hours; a task with no
      positive hours gets no segment. */
  predicate BlockFor(block: seq<Segment>, t: TaskDemand, w: Window, team: real)
  {
    (forall j :: 0 <= j < |block| ==> block[j].task == t.name)
    && (forall j :: 0 <= j < |block| - 1 ==> block[j].finish.tod == w.close)
    && (if t.hours > 0.0 then block != [] && Loads(block, team) == t.hours else block == [])
  }

  /** What a feasible run produces: one block of segments per task, in task
      order, each block as BlockFor says; every segment inside one day's
      window; the segments chained from `start` in output order. */
  predicate IsScheduleOf(schedule: seq<Segment>, blocks: seq<seq<Segment>>, tasks: seq<TaskDemand>,
                         start: Cursor, w: Window, team: real)
    requires w.Valid()
  {
    |blocks| == |tasks| && schedule == Flatten(blocks)
    && (forall j :: 0 <= j < |tasks| ==> BlockFor(blocks[j], tasks[j], w, team))
    && (forall k :: 0 <= k < |schedule| ==> Contained(schedule[k], w))
    && Chained(schedule, start, w)
  }

  /** Labor-hours a crew of `team` delivers in one full working day. */
  function DayCapacity(w: Window, team: real): real
  {
    (w.close - w.open) * team
  }

  /** Termination measure of the per-task loop: three steps per full day of
      remaining demand, plus where the cursor stands in the day. */
  ghost function StepsLeft(remaining: real, c: Cursor, w: Window, team: real): nat
    requires w.Valid()
  {
    if remaining <= 0.0 then 0
    else
      var days := if team <= 0.0 then 0 else DaysLeft(remaining, DayCapacity(w, team));
      var phase := if c.tod >= w.close then 2 else if c.tod <= w.open then 1 else 3;
      3 * days + phase + 1
  }

  /** Whole days of capacity `cap` contained in `remaining`. */
  ghost function DaysLeft(remaining: real, cap: real): nat
    requires remaining > 0.0
  {
    if cap <= 0.0 then 0 else DivPos(remaining, cap); (remaining / cap).Floor
  }

  /** The scheduler. `alertShown` is the infeasibility flag; `blocks` (ghost)
      splits the schedule into the segments of each task in turn, and
      `examined` (ghost) counts the tasks the outer loop looked at. The first
      infeasible task ends the run: the schedule built so far is discarded
      and no later task is examined. */
  method BuildSchedule(tasks: seq<TaskDemand>, start: Cursor, w: Window, team: real)
    returns (schedule: seq<Segment>, alertShown: bool, ghost blocks: seq<seq<Segment>>, ghost examined: nat)
    requires w.Valid() && ValidCursor(start) && team >= 0.0
    ensures alertShown <==> team == 0.0 && exists j :: 0 <= j < |tasks| && tasks[j].hours > 0.0
    ensures alertShown ==> schedule == []
    ensures alertShown ==> 0 < examined <= |tasks| && tasks[examined - 1].hours > 0.0
    ensures alertShown ==> forall j :: 0 <= j < examined - 1 ==> tasks[j].hours <= 0.0
    ensures !alertShown ==> examined == |tasks| && IsScheduleOf(schedule, blocks, tasks, start, w, team)
  {
    schedule := [];
    alertShown := false;
    blocks := [];
    examined := 0;
    var cur := start;
    var i := 0;
    while i < |tasks|
      invariant 0 <= i <= |tasks| && examined == i && !alertShown
      invariant team == 0.0 ==> forall j :: 0 <= j < i ==> tasks[j].hours <= 0.0
      invariant ValidCursor(cur) && SchedulePrefix(schedule, blocks, tasks, i, start, cur, w, team)
    {
      var segs, next, infeasible := ScheduleTask(tasks[i], cur, w, team);
      examined := i + 1;
      if infeasible {
        alertShown := true;
        schedule := [];
        break;
      }
      PrefixExtend(schedule, blocks, tasks, i, start, cur, w, team, segs, next);
      schedule := schedule + segs;
      blocks := blocks + [segs];
      cur := next;
      i := i + 1;
    }
  }

  /** The first i tasks are laid out as IsScheduleOf says, and the cursor
      stands where the last of their segments left it. */
  ghost predicate SchedulePrefix(schedule: seq<Segment>, blocks: seq<seq<Segment>>, tasks: seq<TaskDemand>, i: nat,
                                 start: Cursor, cur: Cursor, w: Window, team: real)
    requires w.Valid() && i <= |tasks|
  {
    |blocks| == i && schedule == Flatten(blocks)
    && (forall j :: 0 <= j < i ==> BlockFor(blocks[j], tasks[j], w, team))
    && (forall k :: 0 <= k < |schedule| ==> Contained(schedule[k], w))
    && Chained(schedule, start, w)
    && Advance(cur, w) == Advance(CursorAfter(schedule, start), w)
  }

  /** Appending the block of task i keeps the prefix laid out. */
  lemma PrefixExtend(schedule: seq<Segment>, blocks: seq<seq<Segment>>, tasks: seq<TaskDemand>, i: nat,
                     start: Cursor, cur: Cursor, w: Window, team: real, segs: seq<Segment>, next: Cursor)
    requires w.Valid() && i < |tasks| && SchedulePrefix(schedule, blocks, tasks, i, start, cur, w, team)
    requires BlockFor(segs, tasks[i], w, team) && Chained(segs, cur, w)
    requires forall k :: 0 <= k < |segs| ==> Contained(segs[k], w)
    requires Advance(next, w) == Advance(CursorAfter(segs, cur), w)
    ensures SchedulePrefix(schedule + segs, blocks + [segs], tasks, i + 1, start, next, w, team)
  {
    ChainedAppend(schedule, segs, start, cur, w);
    FlattenSnoc(blocks, segs);
    var bl := blocks + [segs];
    assert forall j :: 0 <= j < i ==> bl[j] == blocks[j];
    var all := schedule + segs;
    assert forall k :: 0 <= k < |all| ==> all[k] == if k < |schedule| then schedule[k] else segs[k - |schedule|];
  }

  /** The inner loop of the scheduler: lays out one task from cursor `cur0`.
      `infeasible` says the crew cannot deliver anything, in which case the
      caller discards the schedule built so far and stops. */
  method ScheduleTask(task: TaskDemand, cur0: Cursor, w: Window, team: real)
    returns (segs: seq<Segment>, cur: Cursor, infeasible: bool)
    requires w.Valid() && ValidCursor(cur0) && team >= 0.0
    ensures infeasible <==> team == 0.0 && task.hours > 0.0
    ensures infeasible ==> segs == []
    ensures !infeasible ==> BlockFor(segs, task, w, team)
    ensures forall k :: 0 <= k < |segs| ==> Contained(segs[k], w)
    ensures Chained(segs, cur0, w)
    ensures ValidCursor(cur) && Advance(cur, w) == Advance(CursorAfter(segs, cur0), w)
    ensures task.hours <= 0.0 ==> segs == [] && cur == cur0
  {
    segs := [];
    cur := cur0;
    infeasible := false;
    var remaining := task.hours;
    ProgressStart(task, cur0, w, team);
    while remaining > 0.0
      invariant TaskProgress(task, cur0, w, team, segs, remaining, cur)
      decreases StepsLeft(remaining, cur, w, team)
    {
      ghost var before := cur;
      var dayStart := Cursor(cur.day, w.open);
      var dayEnd := Cursor(cur.day, w.close);
      if Before(cur, dayStart) {
        cur := dayStart;
      }
      if !Before(cur, dayEnd) {
        cur := Cursor(cur.day + 1, w.open);
        ProgressRollover(task, cur0, w, team, segs, remaining, before, cur);
        continue;
      }
      var seg, alloc, infeasibleHere := Allocate(task.name, remaining, cur, w, team);
      if infeasibleHere {
        ProgressInfeasible(task, cur0, w, team, segs, remaining, cur);
        infeasible := true;
        segs := [];
        break;
      }
      ProgressAllocate(task, cur0, w, team, segs, remaining, before, cur, seg, alloc);
      segs := segs + [seg];
      remaining := remaining - alloc;
      cur := seg.finish;
    }
    if !infeasible {
      ProgressDone(task, cur0, w, team, segs, remaining, cur);
    }
  }

  /** The invariant of the per-task loop: the segments emitted so far carry
      the task's name, lie in the window, are chained from `cur0`, all end at
      the close except possibly the last (which does too while hours remain),
      and together with `remaining` make up the task's hours. */
  ghost predicate TaskProgress(task: TaskDemand, cur0: Cursor, w: Window, team: real,
                               segs: seq<Segment>, remaining: real, cur: Cursor)
    requires w.Valid()
  {
    (forall j :: 0 <= j < |segs| ==> segs[j].task == task.name)
    && (forall j :: 0 <= j < |segs| - 1 ==> segs[j].finish.tod == w.close)
    && (segs != [] && remaining > 0.0 ==> segs[|segs| - 1].finish.tod == w.close)
    && Loads(segs, team) + remaining == task.hours
    && (segs != [] ==> remaining >= 0.0 && task.hours > 0.0)
    && (team == 0.0 ==> segs == [])
    && (forall k :: 0 <= k < |segs| ==> Contained(segs[k], w))
    && Chained(segs, cur0, w)
    && ValidCursor(cur) && Advance(cur, w) == Advance(CursorAfter(segs, cur0), w)
    && (task.hours <= 0.0 ==> cur == cur0)
  }

  /** Before the first pass nothing is emitted and all hours remain. */
  lemma ProgressStart(task: TaskDemand, cur0: Cursor, w: Window, team: real)
    requires w.Valid() && ValidCursor(cur0)
    ensures TaskProgress(task, cur0, w, team, [], task.hours, cur0)
  {
  }

  /** A rollover keeps the invariant and lowers the termination measure. */
  lemma ProgressRollover(task: TaskDemand, cur0: Cursor, w: Window, team: real,
                         segs: seq<Segment>, remaining: real, before: Cursor, cur': Cursor)
    requires w.Valid() && remaining > 0.0 && TaskProgress(task, cur0, w, team, segs, remaining, before)
    requires before.tod >= w.close && cur' == Cursor(before.day + 1, w.open)
    ensures TaskProgress(task, cur0, w, team, segs, remaining, cur')
    ensures StepsLeft(remaining, cur', w, team) < StepsLeft(remaining, before, w, team)
  {
    StepsRollover(remaining, before, cur', w, team);
  }

  /** An allocation at the advanced cursor keeps the invariant and lowers
      the termination measure. */
  lemma ProgressAllocate(task: TaskDemand, cur0: Cursor, w: Window, team: real,
                         segs: seq<Segment>, remaining: real, before: Cursor, at: Cursor, seg: Segment, alloc: real)
    requires w.Valid() && remaining > 0.0 && team > 0.0
    requires TaskProgress(task, cur0, w, team, segs, remaining, before)
    requires before.tod < w.close && at == Advance(before, w)
    requires seg.task == task.name && seg.start == at && Contained(seg, w)
    requires 0.0 < alloc <= remaining && Load(seg, team) == alloc
    requires alloc < remaining ==> seg.finish.tod == w.close && alloc == (w.close - at.tod) * team
    ensures TaskProgress(task, cur0, w, team, segs + [seg], remaining - alloc, seg.finish)
    ensures StepsLeft(remaining - alloc, seg.finish, w, team) < StepsLeft(remaining, before, w, team)
  {
    ChainedSnoc(segs, seg, cur0, w);
    LoadsSnoc(segs, seg, team);
    StepsDecrease(remaining, remaining - alloc, alloc, before, at, seg.finish, w, team);
  }

  /** A crew of 0 meets a task that still has hours only before its first
      segment, so the task's hours are positive. */
  lemma ProgressInfeasible(task: TaskDemand, cur0: Cursor, w: Window, team: real,
                           segs: seq<Segment>, remaining: real, cur: Cursor)
    requires w.Valid() && remaining > 0.0 && team == 0.0
    requires TaskProgress(task, cur0, w, team, segs, remaining, cur)
    ensures segs == [] && task.hours > 0.0
    ensures Advance(cur, w) == Advance(cur0, w)
  {
  }

  /** When nothing remains, the segments are the task's block. */
  lemma ProgressDone(task: TaskDemand, cur0: Cursor, w: Window, team: real,
                     segs: seq<Segment>, remaining: real, cur: Cursor)
    requires w.Valid() && remaining <= 0.0
    requires TaskProgress(task, cur0, w, team, segs, remaining, cur)
    ensures BlockFor(segs, task, w, team)
    ensures team == 0.0 ==> task.hours <= 0.0
    ensures task.hours <= 0.0 ==> segs == [] && cur == cur0
  {
  }

  /** One allocation at cursor `cur`, which lies in today's window: the
      labor-hours today can still deliver are compared with zero (lines
      149-156) and, when positive, the smaller of them and `remaining` is
      emitted as one segment starting at `cur` (lines 158-163). */
  method Allocate(task: string, remaining: real, cur: Cursor, w: Window, team: real)
    returns (seg: Segment, alloc: real, infeasible: bool)
    requires w.Valid() && InWindow(cur, w) && remaining > 0.0 && team >= 0.0
    ensures infeasible <==> team == 0.0
    ensures !infeasible ==> seg.task == task && seg.start == cur && Contained(seg, w)
    ensures !infeasible ==> 0.0 < alloc <= remaining && Load(seg, team) == alloc
    ensures !infeasible && alloc < remaining ==>
      seg.finish.tod == w.close && alloc == (w.close - cur.tod) * team
  {
    var availWall := w.close - cur.tod;
    var possibleMan := availWall * team;
    NoCapacity(availWall, team);
    if possibleMan <= 0.0 {
      return Segment(task, cur, cur), 0.0, true;
    }
    alloc := if remaining < possibleMan then remaining else possibleMan;
    var wallH := alloc / team;
    seg := Segment(task, cur, Cursor(cur.day, cur.tod + wallH));
    infeasible := false;
    AllocationStep(remaining, availWall, possibleMan, team, alloc, seg, w);
  }

  lemma ChainedAppend(segs: seq<Segment>, more: seq<Segment>, start: Cursor, cur: Cursor, w: Window)
    requires w.Valid() && Chained(segs, start, w) && Chained(more, cur, w)
    requires Advance(cur, w) == Advance(CursorAfter(segs, start), w)
    ensures Chained(segs + more, start, w)
    ensures Advance(CursorAfter(segs + more, start), w) == Advance(CursorAfter(more, cur), w)
  {
    var all := segs + more;
    forall k | 0 < k < |all|
      ensures all[k].start == Advance(all[k - 1].finish, w)
    {
      if k >= |segs| && k - 1 < |segs| {
        assert all[k] == more[0];
      }
    }
  }

  /** Today's window can deliver nothing exactly when the crew is empty. */
  lemma NoCapacity(availWall: real, team: real)
    requires availWall > 0.0 && team >= 0.0
    ensures availWall * team <= 0.0 <==> team == 0.0
  {
  }

  /** The arithmetic of one allocation: the segment it emits lies in today's
      window, delivers exactly the allocation, and a partial allocation fills
      today's window up to its close. */
  lemma AllocationStep(remaining: real, availWall: real, possibleMan: real, team: real, alloc: real, seg: Segment, w: Window)
    requires w.Valid() && remaining > 0.0 && possibleMan > 0.0 && team >= 0.0
    requires InWindow(seg.start, w) && availWall == w.close - seg.start.tod && possibleMan == availWall * team
    requires alloc == (if remaining < possibleMan then remaining else possibleMan)
    requires seg.finish == Cursor(seg.start.day, seg.start.tod + alloc / team)
    ensures team > 0.0 && alloc > 0.0
    ensures Contained(seg, w) && Load(seg, team) == alloc
    ensures 0.0 <= remaining - alloc
    ensures remaining - alloc > 0.0 ==> seg.finish.tod == w.close && alloc == possibleMan
  {
    var t := team;
    var avail := availWall;
    assert t > 0.0;
    DivMul(alloc, t);
    DivPos(alloc, t);
    DivMono(alloc, possibleMan, t);
    MulDiv(avail, t);
  }

  lemma ChainedSnoc(segs: seq<Segment>, s: Segment, start: Cursor, w: Window)
    requires w.Valid() && Chained(segs, start, w)
    requires s.start == Advance(CursorAfter(segs, start), w)
    ensures Chained(segs + [s], start, w)
  {
  }

  lemma LoadsSnoc(segs: seq<Segment>, s: Segment, team: real)
    ensures Loads(segs + [s], team) == Loads(segs, team) + Load(s, team)
  {
    assert (segs + [s])[..|segs|] == segs;
  }

  lemma FlattenSnoc(blocks: seq<seq<Segment>>, b: seq<Segment>)
    ensures Flatten(blocks + [b]) == Flatten(blocks) + b
  {
    assert (blocks + [b])[..|blocks|] == blocks;
  }

  /** A rollover to the next day's opening lowers the termination measure. */
  lemma StepsRollover(remaining: real, c: Cursor, c': Cursor, w: Window, team: real)
    requires w.Valid() && remaining > 0.0 && c.tod >= w.close && c'.tod == w.open
    ensures StepsLeft(remaining, c', w, team) < StepsLeft(remaining, c, w, team)
  {
  }

  /** One allocation from `at`, the advanced position of `c`, lowers the
      termination measure. */
  lemma StepsDecrease(remaining: real, remaining': real, alloc: real, c: Cursor, at: Cursor, c': Cursor, w: Window, team: real)
    requires w.Valid() && team > 0.0 && remaining > 0.0 && alloc > 0.0
    requires c.tod < w.close && at == Advance(c, w)
    requires remaining' == remaining - alloc && remaining' >= 0.0
    requires remaining' > 0.0 ==> c'.tod == w.close && alloc == (w.close - at.tod) * team
    ensures StepsLeft(remaining', c', w, team) < StepsLeft(remaining, c, w, team)
  {
    if remaining' > 0.0 {
      var cap := DayCapacity(w, team);
      Product(w.close - w.open, team);
      if c.tod <= w.open {
        assert alloc == cap;
        FloorStep(remaining, cap);
      } else {
        FloorMono(remaining', remaining, cap);
      }
    }
  }

  lemma FloorStep(r: real, c: real)
    requires c > 0.0
    ensures ((r - c) / c).Floor == (r / c).Floor - 1
  {
    var q, y := r / c, (r - c) / c;
    DivMul(r, c);
    DivMul(r - c, c);
    assert (y - q + 1.0) * c == y * c - q * c + c;
    ZeroFactor(y - q + 1.0, c);
    FloorShift(q);
  }

  lemma ZeroFactor(x: real, c: real)
    requires c > 0.0 && x * c == 0.0
    ensures x == 0.0
  {
  }

  lemma FloorShift(x: real)
    ensures (x - 1.0).Floor == x.Floor - 1
  {
  }

  lemma FloorMono(a: real, b: real, c: real)
    requires c > 0.0 && a <= b
    ensures (a / c).Floor <= (b / c).Floor
  {
    DivMono(a, b, c);
  }

  lemma Product(x: real, y: real)
    requires x > 0.0 && y > 0.0
    ensures x * y > 0.0
  {
  }

  lemma DivMul(a: real, t: real)
    requires t > 0.0
    ensures (a / t) * t == a
  {
  }

  lemma MulDiv(a: real, t: real)
    requires t > 0.0
    ensures (a * t) / t == a
  {
  }

  lemma DivPos(a: real, t: real)
    requires t > 0.0 && a > 0.0
    ensures a / t > 0.0
  {
  }

  lemma DivMono(a: real, b: real, t: real)
    requires t > 0.0 && a <= b
    ensures a / t <= b / t
  {
  }
}
