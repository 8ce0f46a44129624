/**
 The round-robin scheduler of sched/task.c as a state machine: the tasks in the order they will run, the running one
 first. Its runs are interleavings of timer or yield interrupts, of a task giving up its slice, and of thread creation.
 */
module SchedRun {
  import opened Words
  import opened Links
  import opened TaskList

  const SLICE: uint32 := 50

  /** What perform_task_switch restores. */
  datatype Context = Context(eip: uint32, esp: uint32, ebp: uint32)

  datatype Sched = Sched(ring: seq<Task>, ticks: nat, saved: map<Task, Context>)

  datatype Event = GiveUp | Interrupt(here: Context) | Create(child: Task, start: Context)

  ghost predicate Ok(s: Sched) {
    s.ring != [] && s.ticks <= SLICE && NoDup(s.ring) && forall t :: t in s.ring ==> t in s.saved
  }

  ghost predicate Enabled(s: Sched, e: Event) {
    e.Create? ==> e.child !in s.ring
  }

  ghost function Step(s: Sched, e: Event): Sched
    requires s.ring != []
  {
    match e
    case GiveUp => s.(ticks := 0)
    case Interrupt(here) =>
      if s.ticks > 0 then s.(ticks := s.ticks - 1)
      else Sched(s.ring[1..] + [s.ring[0]], SLICE, s.saved[s.ring[0] := here])
    case Create(child, start) => Sched([s.ring[0], child] + s.ring[1..], s.ticks, s.saved[child := start])
  }

  lemma StepKeepsOk(s: Sched, e: Event)
    requires Ok(s) && Enabled(s, e)
    ensures Ok(Step(s, e))
    ensures forall t :: t in s.ring ==> t in Step(s, e).ring
  {
    var r := Step(s, e).ring;
    match e
    case GiveUp =>
    case Interrupt(_) => assert s.ring == [s.ring[0]] + s.ring[1..];
    case Create(child, _) =>
      assert s.ring == [s.ring[0]] + s.ring[1..];
      forall i, j | 0 <= i < j < |r|
        ensures r[i] != r[j]
      {
        if j == 1 {
          assert r[i] == s.ring[0];
        } else if i == 1 {
          assert r[j] == s.ring[j - 1];
        } else {
          assert r[j] == s.ring[j - 1] && r[i] == s.ring[if i == 0 then 0 else i - 1];
        }
      }
  }

  /** Every event of es is possible where it happens. */
  ghost predicate Legal(s: Sched, es: seq<Event>)
    requires Ok(s)
    decreases |es|
  {
    es == [] || (Enabled(s, es[0]) && (StepKeepsOk(s, es[0]); Legal(Step(s, es[0]), es[1..])))
  }

  /** t is the running task at some point of the run. */
  ghost predicate Runs(s: Sched, es: seq<Event>, t: Task)
    requires Ok(s) && Legal(s, es)
    decreases |es|
  {
    s.ring[0] == t || (es != [] && (StepKeepsOk(s, es[0]); Runs(Step(s, es[0]), es[1..], t)))
  }

  ghost function Final(s: Sched, es: seq<Event>): (f: Sched)
    requires Ok(s) && Legal(s, es)
    ensures Ok(f) && forall t :: t in s.ring ==> t in f.ring
    decreases |es|
  {
    if es == [] then s else (StepKeepsOk(s, es[0]); Final(Step(s, es[0]), es[1..]))
  }

  function Interrupts(es: seq<Event>): nat {
    if es == [] then 0 else (if es[0].Interrupt? then 1 else 0) + Interrupts(es[1..])
  }

  function Creates(es: seq<Event>): nat {
    if es == [] then 0 else (if es[0].Create? then 1 else 0) + Creates(es[1..])
  }

  /** The interrupts until the task at distance d runs, if nobody gives up a slice or creates a thread. */
  function Wait(s: Sched, d: nat): nat {
    if d == 0 then 0 else (SLICE + 1) * (d - 1) + s.ticks + 1
  }

  /** Where one event leaves the task at distance d, and how it changes the wait. */
  lemma WaitStep(s: Sched, e: Event, d: nat) returns (d': nat)
    requires Ok(s) && Enabled(s, e) && 0 < d < |s.ring|
    ensures d' < |Step(s, e).ring| && Step(s, e).ring[d'] == s.ring[d]
    ensures e.Interrupt? ==> Wait(Step(s, e), d') == Wait(s, d) - 1
    ensures e.GiveUp? ==> Wait(Step(s, e), d') == Wait(s, d) - s.ticks
    ensures e.Create? ==> Wait(Step(s, e), d') == Wait(s, d) + 51
  {
    d' := match e
      case GiveUp => d
      case Interrupt(_) => if s.ticks > 0 then d else d - 1
      case Create(_, _) => d + 1;
  }

  /** A task at distance d runs within 51 (d - 1) + ticks + 1 interrupts, and 51 more for every thread created meanwhile. */
  lemma {:induction false} Fairness(s: Sched, es: seq<Event>, d: nat)
    requires Ok(s) && Legal(s, es) && d < |s.ring|
    requires Interrupts(es) >= (if d == 0 then 0 else 51 * (d - 1) + s.ticks + 1) + 51 * Creates(es)
    ensures Runs(s, es, s.ring[d])
    decreases |es|
  {
    if d > 0 {
      StepKeepsOk(s, es[0]);
      var d' := WaitStep(s, es[0], d);
      Fairness(Step(s, es[0]), es[1..], d');
    }
  }

  /** Hence every task runs within 51 * (d + c) interrupts, where c threads are created. */
  lemma RunsWithin(s: Sched, es: seq<Event>, d: nat)
    requires Ok(s) && Legal(s, es) && d < |s.ring|
    requires Interrupts(es) >= 51 * (d + Creates(es))
    ensures Runs(s, es, s.ring[d])
  {
    Fairness(s, es, d);
  }

  /** With interrupts alone the bound is exact: the task's turn comes at that interrupt and not before. */
  lemma {:induction false} TurnIsExact(s: Sched, es: seq<Event>, d: nat)
    requires Ok(s) && Legal(s, es) && d < |s.ring| && forall e :: e in es ==> e.Interrupt?
    ensures Runs(s, es, s.ring[d]) <==> d == 0 || |es| >= 51 * (d - 1) + s.ticks + 1
    decreases |es|
  {
    if d > 0 && es != [] {
      StepKeepsOk(s, es[0]);
      var d' := WaitStep(s, es[0], d);
      TurnIsExact(Step(s, es[0]), es[1..], d');
    }
  }

  /** While a task is not running, its saved context stays. */
  lemma {:induction false} SavedIsKept(s: Sched, es: seq<Event>, t: Task)
    requires Ok(s) && Legal(s, es) && t in s.ring && !Runs(s, es, t)
    ensures Final(s, es).saved[t] == s.saved[t] && Final(s, es).ring[0] != t
    decreases |es|
  {
    if es != [] {
      StepKeepsOk(s, es[0]);
      SavedIsKept(Step(s, es[0]), es[1..], t);
    }
  }

  /** A task switched out at `here` is resumed at `here`, whatever the others do in between. */
  lemma ResumesWhereItLeft(s: Sched, here: Context, es: seq<Event>, e: Event)
    requires Ok(s) && s.ticks == 0 && |s.ring| > 1
    requires Ok(Step(s, Interrupt(here))) && Legal(Step(s, Interrupt(here)), es)
    requires !Runs(Step(s, Interrupt(here)), es, s.ring[0])
    requires Enabled(Final(Step(s, Interrupt(here)), es), e)
    requires Step(Final(Step(s, Interrupt(here)), es), e).ring[0] == s.ring[0]
    ensures Step(Final(Step(s, Interrupt(here)), es), e).saved[s.ring[0]] == here
  {
    StepKeepsOk(s, Interrupt(here));
    SavedIsKept(Step(s, Interrupt(here)), es, s.ring[0]);
  }

  /** A new thread is the next to run, and starts in the context prepared for it. */
  lemma ChildIsNext(s: Sched, child: Task, start: Context, es: seq<Event>)
    requires Ok(s) && child !in s.ring && Ok(Step(s, Create(child, start)))
    requires Legal(Step(s, Create(child, start)), es) && Creates(es) == 0 && Interrupts(es) > s.ticks
    ensures Runs(Step(s, Create(child, start)), es, child) && Step(s, Create(child, start)).saved[child] == start
  {
    var n := Step(s, Create(child, start));
    assert n.ring[1] == child;
    Fairness(n, es, 1);
  }
}
