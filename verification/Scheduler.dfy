/**
 The background scheduler: its job table, one evaluation of that table, and how often a job fires over
 whole runs.

 Instants are nanoseconds from Go's zero time, which is also the `lastFired` of a job that has not
 fired yet.
 */
module Scheduling {
  import opened Cron
  import opened CronSyntax
  import opened CronTime
  import opened Text
  import opened Wrappers

  datatype Job = Job(
    name: string, schedule: CronExpr, cronRaw: string, goal: string, enabled: bool, lastFired: int)

  type Jobs = map<string, Job>

  datatype SchedulerError = BadCron(error: CronError) | JobExists(name: string) | JobNotFound(name: string)

  datatype ModuleTask = ModuleTask(
    jobName: string, firedAt: int, input: string, cronExpr: string, scheduledMinute: int)

  /** `Truncate(time.Minute)` */
  function Minute(t: int): int {
    t / NANOS_PER_MINUTE
  }

  predicate Due(job: Job, now: int) {
    job.enabled && Minute(job.lastFired) != Minute(now) && Matches(job.schedule, Minute(now))
  }

  function TaskFor(job: Job, now: int): ModuleTask {
    ModuleTask(job.name, now, job.goal, job.cronRaw, Minute(now))
  }

  // ------------------------------------------------------- the state machine

  /** What happens to the job table, one critical section at a time. */
  datatype Event =
    | Add(name: string, schedule: CronExpr, cronRaw: string, goal: string)
    | Remove(name: string)
    | Enable(name: string)
    | Disable(name: string)
    | Tick(now: int)

  function NewJob(name: string, schedule: CronExpr, cronRaw: string, goal: string): Job {
    Job(name, schedule, cronRaw, goal, true, 0)
  }

  function Fire(job: Job, now: int): Job {
    if Due(job, now) then job.(lastFired := now) else job
  }

  function Step(jobs: Jobs, e: Event): Jobs {
    match e
    case Add(n, schedule, raw, goal) => if n in jobs then jobs else jobs[n := NewJob(n, schedule, raw, goal)]
    case Remove(n) => jobs - {n}
    case Enable(n) => if n in jobs then jobs[n := jobs[n].(enabled := true)] else jobs
    case Disable(n) => if n in jobs then jobs[n := jobs[n].(enabled := false)] else jobs
    case Tick(now) => map n | n in jobs :: Fire(jobs[n], now)
  }

  /** Does this event mark job `n` as fired in minute `m`? */
  predicate Marks(jobs: Jobs, e: Event, n: string, m: int) {
    e.Tick? && Minute(e.now) == m && n in jobs && Due(jobs[n], e.now)
  }

  /** How often a run marks job `n` in minute `m`. */
  function MarkCount(jobs: Jobs, es: seq<Event>, n: string, m: int): nat
    decreases |es|
  {
    if es == [] then 0
    else (if Marks(jobs, es[0], n, m) then 1 else 0) + MarkCount(Step(jobs, es[0]), es[1..], n, m)
  }

  /** Ticks never go back, and follow one another (and `last`) within `gap`. */
  predicate TicksWithin(es: seq<Event>, last: int, gap: Option<int>) {
    es == []
    || (if es[0].Tick? then
          && last <= es[0].now
          && (gap.Some? ==> es[0].now <= last + gap.value)
          && TicksWithin(es[1..], es[0].now, gap)
        else TicksWithin(es[1..], last, gap))
  }

  /** The run does not end the registration of `n`. */
  predicate Keeps(es: seq<Event>, n: string) {
    forall i :: 0 <= i < |es| ==> es[i] != Remove(n)
  }

  /** A tick of minute `m`. */
  predicate TicksIn(e: Event, m: int) {
    e.Tick? && Minute(e.now) == m
  }

  /** A tick of another minute. */
  predicate TicksOut(e: Event, m: int) {
    e.Tick? && Minute(e.now) != m
  }

  /** Minute `m` is over once another minute has been ticked. */
  predicate OverAfterLeaving(es: seq<Event>, m: int) {
    forall j, k :: 0 <= j < k < |es| && TicksOut(es[j], m) ==> !TicksIn(es[k], m)
  }

  /** Minute `m` does not recur after a different minute has been ticked. Steps back inside a minute are harmless. */
  predicate Orderly(es: seq<Event>, m: int) {
    forall i, j, k :: 0 <= i < j < k < |es| && TicksIn(es[i], m) && TicksOut(es[j], m) ==> !TicksIn(es[k], m)
  }

  lemma {:induction false} NoTicksNoMarks(jobs: Jobs, es: seq<Event>, n: string, m: int)
    requires forall k :: 0 <= k < |es| ==> !TicksIn(es[k], m)
    ensures MarkCount(jobs, es, n, m) == 0
    decreases |es|
  {
    hide Due, Minute;
    if es != [] {
      assert !TicksIn(es[0], m);
      NoTicksNoMarks(Step(jobs, es[0]), es[1..], n, m);
    }
  }

  /** A job that has fired in this minute is not marked in it again. */
  lemma {:induction false} NotMarkedAgain(jobs: Jobs, es: seq<Event>, n: string, m: int)
    requires OverAfterLeaving(es, m) && Keeps(es, n)
    requires n in jobs && Minute(jobs[n].lastFired) == m
    ensures MarkCount(jobs, es, n, m) == 0
    decreases |es|
  {
    hide Minute, Matches;
    if es != [] {
      assert es[0] != Remove(n);
      if TicksOut(es[0], m) {
        NoTicksNoMarks(Step(jobs, es[0]), es[1..], n, m);
      } else {
        NotMarkedAgain(Step(jobs, es[0]), es[1..], n, m);
      }
    }
  }

  /**
   Whatever is added, removed, enabled, disabled or ticked, a registration is marked at most once in a
   minute that does not recur.
   */
  lemma {:induction false} AtMostOnce(jobs: Jobs, es: seq<Event>, n: string, m: int)
    requires Orderly(es, m) && Keeps(es, n)
    ensures MarkCount(jobs, es, n, m) <= 1
    decreases |es|
  {
    hide Minute, Matches;
    if es != [] {
      if Marks(jobs, es[0], n, m) {
        assert TicksIn(es[0], m);
        NotMarkedAgain(Step(jobs, es[0]), es[1..], n, m);
      } else {
        AtMostOnce(Step(jobs, es[0]), es[1..], n, m);
      }
    }
  }

  ghost predicate MatchesAlways(c: CronExpr) {
    forall m :: Matches(c, m)
  }

  /** A job that matches every minute stands in the table, enabled. */
  ghost predicate HasEveryMinuteJob(jobs: Jobs, n: string) {
    n in jobs && jobs[n].enabled && MatchesAlways(jobs[n].schedule)
  }

  predicate AllTicks(es: seq<Event>) {
    forall i :: 0 <= i < |es| ==> es[i].Tick?
  }

  /** Such a job has fired in the minute of the last tick. */
  lemma FiresEveryMinute(jobs: Jobs, e: Event, n: string)
    requires HasEveryMinuteJob(jobs, n) && e.Tick?
    ensures HasEveryMinuteJob(Step(jobs, e), n) && Minute(Step(jobs, e)[n].lastFired) == Minute(e.now)
    ensures Marks(jobs, e, n, Minute(e.now)) <==> Minute(jobs[n].lastFired) != Minute(e.now)
  {
    hide Matches, Minute;
  }

  /** It is marked in `m` if a tick of `m` comes while it last fired in another minute. */
  lemma {:induction false} MarkedOnce(jobs: Jobs, es: seq<Event>, n: string, m: int, k: nat)
    requires HasEveryMinuteJob(jobs, n) && AllTicks(es) && k < |es| && TicksIn(es[k], m)
    requires Minute(jobs[n].lastFired) != m
    ensures MarkCount(jobs, es, n, m) >= 1
    decreases |es|
  {
    hide Minute, Step, HasEveryMinuteJob, Marks;
    FiresEveryMinute(jobs, es[0], n);
    if Minute(es[0].now) != m {
      MarkedOnce(Step(jobs, es[0]), es[1..], n, m, k - 1);
    }
  }

  lemma {:induction false} MarkedOnReturn(jobs: Jobs, es: seq<Event>, n: string, m: int, j: nat, k: nat)
    requires HasEveryMinuteJob(jobs, n) && AllTicks(es) && j < k < |es|
    requires TicksOut(es[j], m) && TicksIn(es[k], m)
    ensures MarkCount(jobs, es, n, m) >= 1
    decreases |es|
  {
    hide Minute, Step, HasEveryMinuteJob, Marks;
    FiresEveryMinute(jobs, es[0], n);
    if j == 0 {
      MarkedOnce(Step(jobs, es[0]), es[1..], n, m, k - 1);
    } else {
      MarkedOnReturn(Step(jobs, es[0]), es[1..], n, m, j - 1, k - 1);
    }
  }

  lemma {:induction false} MarkedAgainOnReturn(jobs: Jobs, es: seq<Event>, n: string, m: int, i: nat, j: nat, k: nat)
    requires HasEveryMinuteJob(jobs, n) && AllTicks(es) && i < j < k < |es|
    requires Minute(jobs[n].lastFired) != m
    requires TicksIn(es[i], m) && TicksOut(es[j], m) && TicksIn(es[k], m)
    ensures MarkCount(jobs, es, n, m) >= 2
    decreases |es|
  {
    hide Minute, Step, HasEveryMinuteJob, Marks;
    FiresEveryMinute(jobs, es[0], n);
    if Minute(es[0].now) == m {
      MarkedOnReturn(Step(jobs, es[0]), es[1..], n, m, j - 1, k - 1);
    } else {
      MarkedAgainOnReturn(Step(jobs, es[0]), es[1..], n, m, i - 1, j - 1, k - 1);
    }
  }

  lemma RecurrenceMarksTwice(jobs: Jobs, es: seq<Event>, n: string, m: int)
    requires HasEveryMinuteJob(jobs, n) && Minute(jobs[n].lastFired) != m
    requires AllTicks(es) && !Orderly(es, m)
    ensures MarkCount(jobs, es, n, m) >= 2
  {
    hide HasEveryMinuteJob, TicksIn, TicksOut;
    var i, j, k :| 0 <= i < j < k < |es| && TicksIn(es[i], m) && TicksOut(es[j], m) && TicksIn(es[k], m);
    MarkedAgainOnReturn(jobs, es, n, m, i, j, k);
  }

  lemma EveryMinuteMatchesAlways()
    ensures MatchesAlways(EVERY_MINUTE)
  {
    hide AllFrom, Matches;
    forall t
      ensures Matches(EVERY_MINUTE, t)
    {
      StarsMatchEveryMinute(t);
    }
  }

  /** A minute that recurs: a fresh job on "* * * * *" is marked twice in it. */
  lemma RecurringMinuteMarksTwice(es: seq<Event>, n: string, goal: string, m: int)
    requires AllTicks(es) && m != 0 && !Orderly(es, m)
    ensures Parses("* * * * *", Ok(EVERY_MINUTE))
    ensures MarkCount(map[n := NewJob(n, EVERY_MINUTE, "* * * * *", goal)], es, n, m) >= 2
  {
    StarsParse();
    EveryMinuteMatchesAlways();
    hide Parses, AllTicks, Orderly, AllFrom, MatchesAlways, MarkCount;
    RecurrenceMarksTwice(map[n := NewJob(n, EVERY_MINUTE, "* * * * *", goal)], es, n, m);
  }

  /**
   Exactly which clocks keep the promise: no job of any table is marked twice in minute `m` if and only
   if the clock does not come back to `m` after ticking another minute.
   */
  lemma AtMostOnceExactly(es: seq<Event>, m: int)
    requires AllTicks(es)
    ensures (forall jobs: Jobs, n: string :: MarkCount(jobs, es, n, m) <= 1) <==> Orderly(es, m)
  {
    hide Orderly, MarkCount, AllFrom, MatchesAlways;
    if Orderly(es, m) {
      forall jobs: Jobs, n: string
        ensures MarkCount(jobs, es, n, m) <= 1
      {
        assert Keeps(es, n);
        AtMostOnce(jobs, es, n, m);
      }
    } else {
      var fired := if m != 0 then 0 else NANOS_PER_MINUTE;
      var jobs := map["job" := Job("job", EVERY_MINUTE, "* * * * *", "", true, fired)];
      EveryMinuteMatchesAlways();
      RecurrenceMarksTwice(jobs, es, "job", m);
    }
  }

  lemma MinutesGrow(s: int, t: int)
    requires s <= t
    ensures Minute(s) <= Minute(t)
  {
  }

  lemma {:induction false} TicksGrow(es: seq<Event>, last: int, gap: Option<int>, k: nat)
    requires TicksWithin(es, last, gap) && k < |es| && es[k].Tick?
    ensures last <= es[k].now
    decreases |es|
  {
    if k > 0 { TicksGrow(es[1..], if es[0].Tick? then es[0].now else last, gap, k - 1); }
  }

  lemma {:induction false} TwoTicksGrow(es: seq<Event>, last: int, gap: Option<int>, j: nat, k: nat)
    requires TicksWithin(es, last, gap) && j < k < |es| && es[j].Tick? && es[k].Tick?
    ensures es[j].now <= es[k].now
    decreases |es|
  {
    if j == 0 {
      TicksGrow(es[1..], es[0].now, gap, k - 1);
    } else {
      TwoTicksGrow(es[1..], if es[0].Tick? then es[0].now else last, gap, j - 1, k - 1);
    }
  }

  /** A clock that never goes back leaves every minute for good. */
  lemma SteadyClockIsOrderly(es: seq<Event>, last: int, gap: Option<int>, m: int)
    requires TicksWithin(es, last, gap)
    ensures Orderly(es, m)
    ensures Minute(last) >= m ==> OverAfterLeaving(es, m)
  {
    forall j, k | 0 <= j < k < |es| && TicksOut(es[j], m) && TicksIn(es[k], m)
      ensures Minute(es[j].now) < m && Minute(last) <= Minute(es[j].now)
    {
      TwoTicksGrow(es, last, gap, j, k);
      TicksGrow(es, last, gap, j);
      MinutesGrow(es[j].now, es[k].now);
      MinutesGrow(last, es[j].now);
    }
    forall i, j | 0 <= i < j < |es| && TicksIn(es[i], m) && TicksOut(es[j], m)
      ensures Minute(es[j].now) >= m
    {
      TwoTicksGrow(es, last, gap, i, j);
      MinutesGrow(es[i].now, es[j].now);
    }
    hide TicksWithin, Minute;
  }

  /** The job stands in the table, enabled and matching, at every tick of minute `m`. */
  predicate LiveIn(jobs: Jobs, es: seq<Event>, n: string, m: int)
    decreases |es|
  {
    es == []
    || ((es[0].Tick? && Minute(es[0].now) == m ==>
           n in jobs && jobs[n].enabled && Matches(jobs[n].schedule, m))
        && LiveIn(Step(jobs, es[0]), es[1..], n, m))
  }

  predicate Reaches(es: seq<Event>, t: int) {
    es != [] && ((es[0].Tick? && es[0].now >= t) || Reaches(es[1..], t))
  }

  /**
   With ticks no more than a minute apart, a job that is registered and enabled throughout a minute
   its schedule matches is marked in that minute exactly once. The run goes from a tick before the
   minute to one after it. Minute 0, in which every fresh `lastFired` lies, is the one exception.
   */
  lemma {:induction false} ExactlyOnce(jobs: Jobs, es: seq<Event>, n: string, m: int, last: int)
    requires TicksWithin(es, last, Some(NANOS_PER_MINUTE)) && Keeps(es, n)
    requires last < m * NANOS_PER_MINUTE && Reaches(es, (m + 1) * NANOS_PER_MINUTE)
    requires LiveIn(jobs, es, n, m)
    requires m != 0 && (n in jobs ==> Minute(jobs[n].lastFired) != m)
    ensures MarkCount(jobs, es, n, m) == 1
    decreases |es|
  {
    hide Matches;
    var e := es[0];
    assert e != Remove(n);
    var next := Step(jobs, e);
    if !e.Tick? || Minute(e.now) < m {
      assert n in next ==> Minute(next[n].lastFired) != m;
      ExactlyOnce(next, es[1..], n, m, if e.Tick? then e.now else last);
    } else {
      assert Minute(e.now) == m;
      SteadyClockIsOrderly(es[1..], e.now, Some(NANOS_PER_MINUTE), m);
      NotMarkedAgain(next, es[1..], n, m);
    }
  }

  predicate NeverAdds(es: seq<Event>, n: string) {
    forall i :: 0 <= i < |es| ==> !(es[i].Add? && es[i].name == n)
  }

  /** Once disabled, a job is not marked again unless it is enabled, or removed and then added anew. */
  lemma {:induction false} DisabledIsNotMarked(jobs: Jobs, es: seq<Event>, n: string, m: int)
    requires n in jobs ==> !jobs[n].enabled
    requires forall i :: 0 <= i < |es| ==> es[i] != Enable(n)
    requires (n in jobs && Keeps(es, n)) || NeverAdds(es, n)
    ensures MarkCount(jobs, es, n, m) == 0
    decreases |es|
  {
    hide Minute, Matches;
    if es != [] {
      assert es[0] != Enable(n);
      var next := Step(jobs, es[0]);
      assert Keeps(es, n) ==> es[0] != Remove(n) && Keeps(es[1..], n);
      assert NeverAdds(es, n) ==> !(es[0].Add? && es[0].name == n) && NeverAdds(es[1..], n);
      DisabledIsNotMarked(next, es[1..], n, m);
    }
  }

  /** The table after the first `i` events. */
  function After(jobs: Jobs, es: seq<Event>, i: nat): Jobs
    requires i <= |es|
    decreases i
  {
    if i == 0 then jobs else After(Step(jobs, es[0]), es[1..], i - 1)
  }

  /** Whatever the run, a mark comes from a tick of that minute that finds the job enabled and matching. */
  lemma {:induction false} MarkedOnlyWhenLive(jobs: Jobs, es: seq<Event>, n: string, m: int) returns (i: nat)
    requires MarkCount(jobs, es, n, m) > 0
    ensures i < |es| && es[i].Tick? && Minute(es[i].now) == m
    ensures var table := After(jobs, es, i);
            && n in table && table[n].enabled && Matches(table[n].schedule, m)
            && Minute(table[n].lastFired) != m
    decreases |es|
  {
    hide Matches, Minute, Step;
    if Marks(jobs, es[0], n, m) {
      i := 0;
    } else {
      i := MarkedOnlyWhenLive(Step(jobs, es[0]), es[1..], n, m);
      i := i + 1;
    }
  }

  // ---------------------------------------------------------- the scheduler

  class Scheduler {
    var jobs: Jobs
    var hasDispatcher: bool
    /** The tasks handed to the dispatcher, in order. */
    var dispatched: seq<ModuleTask>

    ghost predicate Valid()
      reads this
    {
      forall n :: n in jobs ==> jobs[n].name == n
    }

    constructor ()
      ensures Valid() && jobs == map[] && !hasDispatcher && dispatched == []
    {
      jobs, hasDispatcher, dispatched := map[], false, [];
    }

    method SetDispatcher()
      requires Valid()
      modifies this`hasDispatcher
      ensures Valid() && hasDispatcher
    {
      hasDispatcher := true;
    }

    method AddJob(name: string, cronExpr: string, goal: string) returns (err: Option<SchedulerError>)
      requires Valid()
      modifies this`jobs
      ensures Valid()
      ensures match ReadCron(cronExpr)
              case Err(e) => err == Some(BadCron(e)) && jobs == old(jobs)
              case Ok(_) =>
                if name in old(jobs) then err == Some(JobExists(name)) && jobs == old(jobs)
                else
                  && err == None && name in jobs && Parses(cronExpr, Ok(jobs[name].schedule))
                  && jobs == old(jobs)[name := Job(name, jobs[name].schedule, cronExpr, goal, true, 0)]
                  && jobs == Step(old(jobs), Add(name, jobs[name].schedule, cronExpr, goal))
    {
      hide ReadCron, Holds;
      var parsed := ParseCron(cronExpr);
      if parsed.Err? { return Some(BadCron(parsed.error)); }
      if name in jobs { return Some(JobExists(name)); }
      jobs := jobs[name := Job(name, parsed.value, cronExpr, goal, true, 0)];
      err := None;
    }

    method RemoveJob(name: string) returns (err: Option<SchedulerError>)
      requires Valid()
      modifies this`jobs
      ensures Valid() && jobs == Step(old(jobs), Remove(name)) && jobs == old(jobs) - {name}
      ensures err == if name in old(jobs) then None else Some(JobNotFound(name))
    {
      if name !in jobs { return Some(JobNotFound(name)); }
      jobs := jobs - {name};
      err := None;
    }

    method EnableJob(name: string) returns (err: Option<SchedulerError>)
      requires Valid()
      modifies this`jobs
      ensures Valid() && jobs == Step(old(jobs), Enable(name))
      ensures name in old(jobs) ==> jobs == old(jobs)[name := old(jobs)[name].(enabled := true)]
      ensures name !in old(jobs) ==> jobs == old(jobs)
      ensures err == if name in old(jobs) then None else Some(JobNotFound(name))
    {
      if name !in jobs { return Some(JobNotFound(name)); }
      jobs := jobs[name := jobs[name].(enabled := true)];
      err := None;
    }

    method DisableJob(name: string) returns (err: Option<SchedulerError>)
      requires Valid()
      modifies this`jobs
      ensures Valid() && jobs == Step(old(jobs), Disable(name))
      ensures name in old(jobs) ==> jobs == old(jobs)[name := old(jobs)[name].(enabled := false)]
      ensures name !in old(jobs) ==> jobs == old(jobs)
      ensures err == if name in old(jobs) then None else Some(JobNotFound(name))
    {
      if name !in jobs { return Some(JobNotFound(name)); }
      jobs := jobs[name := jobs[name].(enabled := false)];
      err := None;
    }

    /**
     One evaluation. The map is walked in any order; exactly the due jobs are marked, and each is
     dispatched once, unless no dispatcher is set: then they are marked all the same.
     */
    method EvaluateAndDispatch(now: int)
      requires Valid()
      modifies this`jobs, this`dispatched
      ensures Valid() && jobs == Step(old(jobs), Tick(now))
      ensures exists due: seq<Job> ::
                && AreTheDue(old(jobs), due, now)
                && dispatched == old(dispatched) + if hasDispatcher then TasksFor(due, now) else []
      ensures jobs.Keys == old(jobs).Keys && forall n :: n in jobs ==>
                jobs[n] == if FiresAt(old(jobs)[n], now) then old(jobs)[n].(lastFired := now) else old(jobs)[n]
      ensures !hasDispatcher ==> dispatched == old(dispatched)
      ensures hasDispatcher ==>
                old(dispatched) <= dispatched && TellOfTheDue(old(jobs), dispatched[|old(dispatched)|..], now)
    {
      ghost var before := jobs;
      TickSpelledOut(jobs, now);
      hide Due, Fire, Step, FiresAt, AreTheDue, TasksFor, TellOfTheDue;
      var dueJobs := MarkDue(now);
      if hasDispatcher {
        TasksSpelledOut(before, dueJobs, now);
        Dispatch(dueJobs, now);
        assert dispatched[|old(dispatched)|..] == TasksFor(dueJobs, now);
      }
    }

    method Dispatch(dueJobs: seq<Job>, now: int)
      modifies this`dispatched
      ensures dispatched == old(dispatched) + TasksFor(dueJobs, now)
    {
      for i := 0 to |dueJobs|
        invariant dispatched == old(dispatched) + TasksFor(dueJobs[..i], now)
      {
        dispatched := dispatched + [TaskFor(dueJobs[i], now)];
      }
      assert dueJobs[..|dueJobs|] == dueJobs;
    }

    /** The part of the evaluation that runs under the lock. */
    method MarkDue(now: int) returns (dueJobs: seq<Job>)
      requires Valid()
      modifies this`jobs
      ensures Valid() && jobs == Step(old(jobs), Tick(now))
      ensures AreTheDue(old(jobs), dueJobs, now)
    {
      hide Due, Progress;
      var names := jobs.Keys;
      dueJobs := [];
      ProgressStarts(jobs, now);
      while names != {}
        invariant names <= jobs.Keys == old(jobs).Keys && Progress(old(jobs), jobs, dueJobs, names, now)
        decreases |names|
      {
        var n :| n in names;
        ProgressStep(old(jobs), jobs, dueJobs, names, n, now);
        names := names - {n};
        var job := jobs[n];
        if Due(job, now) {
          jobs := jobs[n := job.(lastFired := now)];
          dueJobs := dueJobs + [jobs[n]];
        } else {
          assert jobs == jobs[n := job];
        }
      }
      ProgressEnds(old(jobs), jobs, dueJobs, now);
    }
  }

  /** Enabled, matching this minute, and not yet fired in it. */
  predicate FiresAt(job: Job, now: int) {
    job.enabled && job.lastFired / 60_000_000_000 != now / 60_000_000_000
    && Matches(job.schedule, now / 60_000_000_000)
  }

  /** What a dispatched task says of its job. */
  predicate TellsOf(task: ModuleTask, job: Job, now: int) {
    && task.jobName == job.name && task.input == job.goal && task.cronExpr == job.cronRaw
    && task.firedAt == now && task.scheduledMinute == now / 60_000_000_000
  }

  lemma TickSpelledOut(jobs: Jobs, now: int)
    ensures var after := Step(jobs, Tick(now));
            after.Keys == jobs.Keys && forall n :: n in jobs ==>
              after[n] == if FiresAt(jobs[n], now) then jobs[n].(lastFired := now) else jobs[n]
  {
    hide Matches;
  }

  /** These tasks are for exactly the jobs that fire, and no two for the same job. */
  ghost predicate TellOfTheDue(jobs: Jobs, tasks: seq<ModuleTask>, now: int) {
    && (forall i :: 0 <= i < |tasks| ==>
          && tasks[i].jobName in jobs && FiresAt(jobs[tasks[i].jobName], now)
          && TellsOf(tasks[i], jobs[tasks[i].jobName], now))
    && (forall i, j :: 0 <= i < j < |tasks| ==> tasks[i].jobName != tasks[j].jobName)
    && (forall n :: n in jobs && FiresAt(jobs[n], now) ==> exists i :: 0 <= i < |tasks| && tasks[i].jobName == n)
  }

  lemma TasksSpelledOut(jobs: Jobs, due: seq<Job>, now: int)
    requires forall n :: n in jobs ==> jobs[n].name == n
    requires AreTheDue(jobs, due, now)
    ensures TellOfTheDue(jobs, TasksFor(due, now), now)
  {
    hide Matches;
    var tasks := TasksFor(due, now);
    forall i | 0 <= i < |tasks|
      ensures tasks[i].jobName in jobs && FiresAt(jobs[tasks[i].jobName], now)
      ensures TellsOf(tasks[i], jobs[tasks[i].jobName], now) && tasks[i].jobName == due[i].name
    {
      assert IsDue(jobs, due[i], now);
    }
    forall n | n in jobs && FiresAt(jobs[n], now)
      ensures exists i :: 0 <= i < |tasks| && tasks[i].jobName == n
    {
      assert Due(jobs[n], now);
      var i :| 0 <= i < |due| && due[i] == Fire(jobs[n], now);
      assert tasks[i].jobName == n;
    }
  }

  /** The evaluation so far: the jobs in `pending` are untouched, the others fired if they were due. */
  ghost predicate Progress(before: Jobs, jobs: Jobs, due: seq<Job>, pending: set<string>, now: int) {
    && jobs.Keys == before.Keys && pending <= jobs.Keys
    && (forall n :: n in jobs ==> jobs[n] == if n in pending then before[n] else Fire(before[n], now))
    && (forall i :: 0 <= i < |due| ==> IsDue(before, due[i], now) && due[i].name !in pending)
    && (forall i, j :: 0 <= i < j < |due| ==> due[i].name != due[j].name)
    && (forall n :: n in jobs && n !in pending && Due(before[n], now) ==> Fire(before[n], now) in due)
  }

  lemma ProgressStarts(jobs: Jobs, now: int)
    ensures Progress(jobs, jobs, [], jobs.Keys, now)
  {
  }

  lemma ProgressStep(before: Jobs, jobs: Jobs, due: seq<Job>, pending: set<string>, n: string, now: int)
    requires Progress(before, jobs, due, pending, now) && n in pending && before[n].name == n
    ensures jobs[n] == before[n]
    ensures Progress(before, jobs[n := Fire(jobs[n], now)],
                     if Due(jobs[n], now) then due + [Fire(jobs[n], now)] else due, pending - {n}, now)
  {
    hide Due;
  }

  lemma ProgressEnds(before: Jobs, jobs: Jobs, due: seq<Job>, now: int)
    requires Progress(before, jobs, due, {}, now)
    requires forall n :: n in before ==> before[n].name == n
    ensures jobs == Step(before, Tick(now)) && AreTheDue(before, due, now)
    ensures forall n :: n in jobs ==> jobs[n].name == n
  {
    hide Due;
    assert jobs == Step(before, Tick(now));
  }

  predicate IsDue(jobs: Jobs, job: Job, now: int) {
    job.name in jobs && Due(jobs[job.name], now) && job == Fire(jobs[job.name], now)
  }

  /** Every due job, each once, as it stands after it was marked. */
  ghost predicate AreTheDue(jobs: Jobs, due: seq<Job>, now: int) {
    && (forall i :: 0 <= i < |due| ==> IsDue(jobs, due[i], now))
    && (forall i, j :: 0 <= i < j < |due| ==> due[i].name != due[j].name)
    && (forall n :: n in jobs && Due(jobs[n], now) ==> Fire(jobs[n], now) in due)
  }

  /** The tasks for these jobs, in this order. */
  function TasksFor(due: seq<Job>, now: int): seq<ModuleTask> {
    seq(|due|, i requires 0 <= i < |due| => TaskFor(due[i], now))
  }
}
