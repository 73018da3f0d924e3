/** The timeout driver of src/timeout.c as transitions of one value: the
    driver's global variables, the two lists and the TCA0 registers it uses.
    Every routine of the driver is a function from the state before it to the
    state after it; the lemmas state what the routines promise and that every
    public routine and the overflow interrupt keep the driver's invariant. */
module Transitions {
  import opened Ticks
  import opened TimerLists

  /** The driver's state. */
  datatype Sched = Sched(
    deadline: map<Id, Word>,  // absolute_time of every timer
    pending: seq<Id>,         // TIMER_0_list_head and the chain behind it
    queue: seq<Id>,           // TIMER_0_execute_queue_head and the chain behind it
    watermark: Word,          // TIMER_0_absolute_time_of_last_timeout
    lastLoad: Word,           // TIMER_0_last_timer_load
    running: bool,            // TIMER_0_is_running
    ovfEnabled: bool,         // the OVF bit of TCA0.SINGLE.INTCTRL
    cnt: Counter)             // TCA0.SINGLE.CNT

  /** The driver's statics before any call: both lists empty, nothing loaded. */
  function Init(): Sched
  {
    Sched(map[Dummy := 0], [], [], 0, 0, false, false, 0)
  }

  /** Ticks from the watermark to the head's deadline. */
  function HeadPeriod(s: Sched): Word
    requires s.pending != [] && s.pending[0] in s.deadline
  {
    Sub(s.deadline[s.pending[0]], s.watermark)
  }

  /** The shape of the two lists: the pending list is sorted, no timer is
      linked twice or into both lists, the dummy can only be the head and
      never waits for its callback. */
  ghost predicate Linked(s: Sched)
  {
    && Sorted(s.pending, s.deadline)
    && Distinct(s.pending)
    && Distinct(s.queue)
    && (forall id :: id in s.pending ==> id !in s.queue)
    && (Dummy in s.pending ==> s.pending[0] == Dummy)
    && Dummy !in s.queue
  }

  /** The driver's invariant: the lists are well formed; the scheduler runs,
      with the overflow interrupt enabled, exactly when a timer is pending;
      with nothing pending the watermark is 0; and otherwise the last load is
      65535 less the duration from the watermark to the head, so that
      duration is at most one load. */
  ghost predicate Valid(s: Sched)
  {
    && Linked(s)
    && s.running == (s.pending != [])
    && s.ovfEnabled == s.running
    && (s.pending == [] ==> s.watermark == 0)
    && (s.pending != [] ==> s.lastLoad as int + HeadPeriod(s) == MaxLoad)
  }

  /** A timer its caller owns outright: not the dummy and in neither list. */
  predicate Idle(s: Sched, t: Id)
  {
    t.Caller? && t !in s.pending && t !in s.queue
  }

  lemma InitValid()
    ensures Valid(Init()) && Init().pending == [] && Init().queue == []
  {
  }

  /** The state TIMER_0_timeout_init leaves as written: the overflow interrupt
      is enabled and the counter started while both lists are still empty. */
  function InitAsWritten(): Sched
  {
    Init().(ovfEnabled := true)
  }

  /** As written, init arms the overflow handler on an empty pending list:
      the invariant fails, and the first overflow before any create would
      read the head of an empty list. */
  lemma InitAsWrittenArmsEmptyList()
    ensures InitAsWritten().ovfEnabled && InitAsWritten().pending == []
    ensures !Valid(InitAsWritten())
  {
  }

  // ---------------------------------------------------------------- hardware

  /** TIMER_0_stop_timeouts. */
  function StopTimeouts(s: Sched): Sched
  {
    s.(ovfEnabled := false, watermark := 0, running := false)
  }

  /** TIMER_0_set_timer_duration: the 32-bit load, truncated into the 16-bit counter. */
  function SetTimerDuration(s: Sched, duration: Word): Sched
  {
    var load := Sub(MaxLoad, duration);
    s.(lastLoad := load, cnt := load % CounterModulus)
  }

  /** Ticks counted since the last load while running, CNT - last_timer_load
      in absolutetime_t; 0 while stopped. */
  function Elapsed(s: Sched): Word
  {
    if s.running then Sub(s.cnt, s.lastLoad) else 0
  }

  /** TIMER_0_make_absolute: the deadline lies timeout plus the elapsed ticks
      after the watermark. */
  function MakeAbsolute(s: Sched, timeout: Word): (r: Word)
    ensures Sub(r, s.watermark) == Add(timeout, Elapsed(s))
    ensures !s.running ==> Sub(r, s.watermark) == timeout
  {
    var r := Add(Add(timeout, s.watermark), Elapsed(s));
    AddAssoc(s.watermark, timeout, Elapsed(s));
    SubAdd(s.watermark, Add(timeout, Elapsed(s)));
    r
  }

  /** A timeout of x ticks is x ticks after a timeout of 0. */
  lemma MakeAbsoluteShift(s: Sched, x: Word)
    ensures MakeAbsolute(s, x) == Add(x, MakeAbsolute(s, 0))
  {
    AddAssoc(x, s.watermark, Elapsed(s));
    Wrap(s.watermark);
    AddAssoc(0, s.watermark, Elapsed(s));
  }

  // ----------------------------------------------------------- pending list

  /** TIMER_0_rebase_list: subtract the head's deadline from every pending
      deadline and from the watermark.  The head is read, so the list must
      not be empty. */
  function Rebase(s: Sched): (r: Sched)
    requires s.pending != [] && Known(s.pending, s.deadline)
    ensures r.pending == s.pending && r.deadline.Keys == s.deadline.Keys
  {
    var base := s.deadline[s.pending[0]];
    s.(deadline := Shifted(s.deadline, s.pending, base), watermark := Sub(s.watermark, base))
  }

  /** Rebase keeps the list sorted, moves the head to 0, keeps every pairwise
      difference of pending deadlines and the distance from the watermark to
      the head. */
  lemma {:induction false} RebaseKeepsOrder(s: Sched)
    requires Sorted(s.pending, s.deadline) && s.pending != []
    ensures var r := Rebase(s);
      && Sorted(r.pending, r.deadline)
      && r.deadline[r.pending[0]] == 0
      && (forall i, j :: 0 <= i < |s.pending| && 0 <= j < |s.pending| ==>
            r.deadline[s.pending[j]] as int - r.deadline[s.pending[i]] == s.deadline[s.pending[j]] as int - s.deadline[s.pending[i]])
      && HeadPeriod(r) == HeadPeriod(s)
  {
    var base := s.deadline[s.pending[0]];
    ShiftedKeepsOrder(s.pending, s.deadline);
    SubRebased(base, s.watermark, base);
    Wrap(base - base);
  }

  /** Lines 151-154 once the list is rebased on its head: t's deadline becomes x. */
  function Rebased(s: Sched, t: Id, x: Word): (r: Sched)
    requires s.pending != [] && Known(s.pending, s.deadline)
    ensures r.pending == s.pending && r.deadline.Keys == s.deadline.Keys + {t}
  {
    var r := Rebase(s);
    r.(deadline := r.deadline[t := x])
  }

  /** The state sorted insert works on once a deadline below the watermark
      has been corrected (lines 145-154), as intended: the list is rebased on
      its head and the deadline with it, so it keeps its distance from the
      watermark. */
  function Corrected(s: Sched, t: Id): (r: Sched)
    requires t in s.deadline && Known(s.pending, s.deadline)
    requires s.deadline[t] < s.watermark ==> s.pending != []
    ensures r.pending == s.pending && r.deadline.Keys == s.deadline.Keys
  {
    if s.deadline[t] < s.watermark then Rebased(s, t, Sub(s.deadline[t], s.deadline[s.pending[0]]))
    else s
  }

  /** The same correction as line 152 writes it: the deadline is moved by
      65535 - base + 1, the rebase of a 16-bit time. */
  function CorrectedAsWritten(s: Sched, t: Id): (r: Sched)
    requires t in s.deadline && Known(s.pending, s.deadline)
    requires s.deadline[t] < s.watermark ==> s.pending != []
    ensures r.pending == s.pending && r.deadline.Keys == s.deadline.Keys
  {
    if s.deadline[t] < s.watermark then Rebased(s, t, WrapShift(s.deadline[t], s.deadline[s.pending[0]]))
    else s
  }

  /** The list behind a new head: a dummy at the head is dropped (line 170). */
  function DropDummy(ids: seq<Id>): seq<Id>
  {
    if ids != [] && ids[0] == Dummy then ids[1..] else ids
  }

  /** The walk and the link of TIMER_0_sorted_insert (lines 156-178): t goes
      behind every timer whose deadline is not later; at the head the counter
      is loaded for a full period and a dummy head is dropped. */
  function Link(s1: Sched, t: Id): (r: (Sched, bool))
    requires t in s1.deadline && Known(s1.pending, s1.deadline)
    ensures r.0.deadline == s1.deadline && Known(r.0.pending, r.0.deadline)
  {
    var k := InsertIndex(s1.pending, s1.deadline, s1.deadline[t]);
    if k == 0 then (SetTimerDuration(s1, MaxLoad).(pending := [t] + DropDummy(s1.pending)), true)
    else (s1.(pending := Splice(s1.pending, k, t)), false)
  }

  /** TIMER_0_sorted_insert: the new state and whether t became the head. */
  function SortedInsert(s: Sched, t: Id): (Sched, bool)
    requires t in s.deadline && Known(s.pending, s.deadline)
    requires s.deadline[t] < s.watermark ==> s.pending != []
  {
    Link(Corrected(s, t), t)
  }

  /** TIMER_0_sorted_insert with the correction of line 152 as written. */
  function SortedInsertAsWritten(s: Sched, t: Id): (Sched, bool)
    requires t in s.deadline && Known(s.pending, s.deadline)
    requires s.deadline[t] < s.watermark ==> s.pending != []
  {
    Link(CorrectedAsWritten(s, t), t)
  }

  /** Rebasing on the head and giving t the deadline x keeps the list sorted,
      moves the head to 0 and keeps its distance from the watermark. */
  lemma RebasedFacts(s: Sched, t: Id, x: Word)
    requires Sorted(s.pending, s.deadline) && t in s.deadline && t !in s.pending && s.pending != []
    ensures var s1 := Rebased(s, t, x);
      var base := s.deadline[s.pending[0]];
      && Sorted(s1.pending, s1.deadline)
      && s1 == s.(deadline := s1.deadline, watermark := s1.watermark)
      && s1.deadline.Keys == s.deadline.Keys
      && HeadPeriod(s1) == HeadPeriod(s)
      && s1.deadline[s1.pending[0]] == 0
      && s1.deadline[t] == x
      && s1.watermark == Sub(s.watermark, base)
  {
    RebaseKeepsOrder(s);
    SortedUpdate(s.pending, Rebase(s).deadline, t, x);
  }

  /** The correction keeps the list, the queue and the hardware; it keeps
      the list sorted and the distance from the watermark to the head. */
  lemma CorrectedFacts(s: Sched, t: Id)
    requires Sorted(s.pending, s.deadline) && t in s.deadline && t !in s.pending
    requires s.pending == [] ==> s.watermark == 0
    ensures var s1 := Corrected(s, t);
      && Sorted(s1.pending, s1.deadline)
      && s1 == s.(deadline := s1.deadline, watermark := s1.watermark)
      && s1.deadline.Keys == s.deadline.Keys
      && (s.pending != [] ==> HeadPeriod(s1) == HeadPeriod(s))
      && (s.deadline[t] < s.watermark ==>
            && s1.deadline[s1.pending[0]] == 0
            && s1.deadline[t] == Sub(s.deadline[t], s.deadline[s.pending[0]])
            && s1.watermark == Sub(s.watermark, s.deadline[s.pending[0]])
            && (forall id :: id in s.pending ==> s1.deadline[id] == Sub(s.deadline[id], s.deadline[s.pending[0]])))
      && (s.deadline[t] >= s.watermark ==> s1 == s)
  {
    if s.deadline[t] < s.watermark {
      RebasedFacts(s, t, Sub(s.deadline[t], s.deadline[s.pending[0]]));
    }
  }

  /** Dropping a leading dummy keeps a well-formed list well formed and
      leaves no dummy behind. */
  lemma DropDummyFacts(ids: seq<Id>, d: map<Id, Word>)
    requires Sorted(ids, d) && Distinct(ids) && (Dummy in ids ==> ids[0] == Dummy)
    ensures var rest := DropDummy(ids);
      && Sorted(rest, d) && Distinct(rest) && Dummy !in rest
      && (forall id :: id != Dummy ==> (id in rest <==> id in ids))
      && (rest != [] && ids != [] ==> d[ids[0]] <= d[rest[0]])
  {
    if ids != [] && ids[0] == Dummy {
      var rest := ids[1..];
      assert forall i :: 0 <= i < |rest| ==> rest[i] == ids[i + 1];
      assert Dummy !in rest by {
        forall i | 0 <= i < |rest| ensures rest[i] != Dummy { assert ids[i + 1] != ids[0]; }
      }
    }
  }

  /** Sorted insert at the head: t goes in front, a displaced dummy is dropped. */
  lemma InsertAtHeadFacts(ids: seq<Id>, d: map<Id, Word>, t: Id)
    requires Sorted(ids, d) && Distinct(ids) && (Dummy in ids ==> ids[0] == Dummy)
    requires t.Caller? && t !in ids && t in d
    requires InsertIndex(ids, d, d[t]) == 0
    ensures var r := [t] + DropDummy(ids);
      && Sorted(r, d) && Distinct(r) && Dummy !in r
      && (forall id :: id != Dummy ==> (id in r <==> id == t || id in ids))
  {
    DropDummyFacts(ids, d);
    var rest := DropDummy(ids);
    ConsSorted(t, rest, d);
    ConsDistinct(t, rest);
  }

  /** Sorted insert behind the head: t is linked where the walk stops and
      the head, the dummy's place and every other timer are kept. */
  lemma InsertBehindFacts(ids: seq<Id>, d: map<Id, Word>, t: Id)
    requires Sorted(ids, d) && Distinct(ids) && (Dummy in ids ==> ids[0] == Dummy)
    requires t.Caller? && t !in ids && t in d
    requires InsertIndex(ids, d, d[t]) > 0
    ensures var r := Splice(ids, InsertIndex(ids, d, d[t]), t);
      && Sorted(r, d) && Distinct(r) && r[0] == ids[0]
      && (Dummy in r ==> r[0] == Dummy)
      && (forall id :: id in r <==> id == t || id in ids)
  {
    var k := InsertIndex(ids, d, d[t]);
    SpliceSorted(ids, d, t);
    SpliceDistinct(ids, k, t);
  }

  /** What the walk and the link promise: the lists stay well formed; the
      pending list gains t and loses nothing but a dummy that t displaced; t
      becomes the head exactly when the old head is strictly later; at the
      head a full period is loaded, behind it the head and the hardware stay;
      deadlines and the watermark are untouched. */
  lemma LinkFacts(s1: Sched, t: Id)
    requires Linked(s1) && Idle(s1, t) && t in s1.deadline
    ensures var (r, atHead) := Link(s1, t);
      && Linked(r)
      && r == s1.(pending := r.pending, lastLoad := r.lastLoad, cnt := r.cnt)
      && r.pending != [] && t in r.pending
      && (forall id :: id != Dummy ==> (id in r.pending <==> id == t || id in s1.pending))
      && (atHead <==> r.pending[0] == t)
      && (atHead <==> s1.pending == [] || s1.deadline[s1.pending[0]] > s1.deadline[t])
      && (atHead ==> Dummy !in r.pending && r.lastLoad == 0 && r.cnt == 0)
      && (!atHead ==> r.pending[0] == s1.pending[0] && r.lastLoad == s1.lastLoad && r.cnt == s1.cnt)
  {
    var k := InsertIndex(s1.pending, s1.deadline, s1.deadline[t]);
    if k == 0 {
      InsertAtHeadFacts(s1.pending, s1.deadline, t);
      Wrap(MaxLoad - MaxLoad);
    } else {
      InsertBehindFacts(s1.pending, s1.deadline, t);
    }
  }

  /** What sorted insert promises: the lists stay well formed; the pending
      list gains t and loses nothing but a dummy that t displaced from the
      head; it reports true exactly when t became the head; a deadline below
      the watermark is rebased with the list and never lands at the
      head, any other leaves every deadline and the watermark alone; an
      insert at the head loads a full period and drops the dummy; any other
      keeps the head, its distance and the hardware. */
  lemma SortedInsertFacts(s: Sched, t: Id)
    requires Linked(s) && Idle(s, t) && t in s.deadline
    requires s.pending == [] ==> s.watermark == 0
    ensures var (r, atHead) := SortedInsert(s, t);
      && Linked(r)
      && r.queue == s.queue && r.running == s.running && r.ovfEnabled == s.ovfEnabled
      && r.deadline.Keys == s.deadline.Keys
      && r.pending != [] && t in r.pending
      && (forall id :: id != Dummy ==> (id in r.pending <==> id == t || id in s.pending))
      && (atHead <==> r.pending[0] == t)
      && (s.deadline[t] < s.watermark ==>
            && !atHead
            && r.deadline[t] == Sub(s.deadline[t], s.deadline[s.pending[0]])
            && r.watermark == Sub(s.watermark, s.deadline[s.pending[0]]))
      && (s.deadline[t] >= s.watermark ==> r.deadline == s.deadline && r.watermark == s.watermark)
      && (atHead ==> Dummy !in r.pending && r.lastLoad == 0 && r.cnt == 0)
      && (!atHead ==> && s.pending != [] && r.pending[0] == s.pending[0]
                      && HeadPeriod(r) == HeadPeriod(s)
                      && r.lastLoad == s.lastLoad && r.cnt == s.cnt)
  {
    CorrectedFacts(s, t);
    var s1 := Corrected(s, t);
    assert Linked(s1) && Idle(s1, t);
    LinkFacts(s1, t);
  }

  /** TIMER_0_start_timer_at_head: with nothing pending stop the scheduler;
      otherwise load the ticks to the head, and when that is more than one
      load put the dummy in front, one load after the watermark. */
  function StartTimerAtHead(s: Sched): (r: Sched)
    requires Known(s.pending, s.deadline)
    ensures Known(r.pending, r.deadline) && r.deadline.Keys >= s.deadline.Keys
  {
    var s0 := s.(ovfEnabled := false);
    if s0.pending == [] then StopTimeouts(s0)
    else
      var period := HeadPeriod(s0);
      var s1 := if period > MaxLoad
                then s0.(deadline := s0.deadline[Dummy := Add(s0.watermark, MaxLoad)], pending := [Dummy] + s0.pending)
                else s0;
      SetTimerDuration(s1, if period > MaxLoad then MaxLoad else period).(ovfEnabled := true, running := true)
  }

  /** What start-at-head promises: the invariant holds afterwards, the queue
      and every caller's timer keep their place, the counter is loaded with
      the ticks to the new head (so no tick has elapsed), and the dummy is the
      head exactly when the real head is more than one load away. */
  lemma StartTimerAtHeadFacts(s: Sched)
    requires Linked(s) && Dummy !in s.pending
    requires s.pending != [] && HeadPeriod(s) > MaxLoad ==> Add(s.watermark, MaxLoad) <= s.deadline[s.pending[0]]
    ensures var r := StartTimerAtHead(s);
      && Valid(r)
      && r.queue == s.queue
      && (s.pending == [] ==> r.pending == [] && !r.ovfEnabled && !r.running && r.watermark == 0)
      && (s.pending != [] ==> r.watermark == s.watermark && r.cnt == r.lastLoad && Elapsed(r) == 0)
      && (s.pending != [] ==> (r.pending[0] == Dummy <==> HeadPeriod(s) > MaxLoad))
      && (s.pending != [] && HeadPeriod(s) > MaxLoad ==>
            r.pending == [Dummy] + s.pending && r.deadline[Dummy] == Add(s.watermark, MaxLoad))
      && (s.pending != [] && HeadPeriod(s) <= MaxLoad ==> r.pending == s.pending)
      && (forall id :: id in s.deadline && id != Dummy ==> id in r.deadline && r.deadline[id] == s.deadline[id])
      && r.deadline.Keys >= s.deadline.Keys
  {
    if s.pending != [] {
      var period := HeadPeriod(s);
      if period > MaxLoad {
        var d := s.deadline[Dummy := Add(s.watermark, MaxLoad)];
        SortedUpdate(s.pending, s.deadline, Dummy, Add(s.watermark, MaxLoad));
        ConsSorted(Dummy, s.pending, d);
        SubAdd(s.watermark, MaxLoad);
        Wrap(MaxLoad - MaxLoad);
        ConsDistinct(Dummy, s.pending);
      } else {
        SubNoWrap(MaxLoad, period);
      }
      var r := StartTimerAtHead(s);
      Wrap(r.cnt - r.lastLoad);
    }
  }

  // ------------------------------------------------------------ public API

  /** TIMER_0_timeout_create, lines 286-288: the interrupt is masked and the
      timer gets its absolute deadline. */
  function Stamped(s: Sched, t: Id, timeout: Word): Sched
  {
    s.(ovfEnabled := false, deadline := s.deadline[t := MakeAbsolute(s, timeout)])
  }

  /** The end of TIMER_0_timeout_create (lines 291-296): restart the hardware
      if the timer went to the head, or else re-enable the interrupt if running. */
  function Restarted(s1: Sched, atHead: bool): (r: Sched)
    requires Known(s1.pending, s1.deadline)
    ensures Known(r.pending, r.deadline) && r.deadline.Keys >= s1.deadline.Keys
  {
    if atHead then StartTimerAtHead(s1)
    else if s1.running then s1.(ovfEnabled := true)
    else s1
  }

  /** TIMER_0_timeout_create: stamp, insert, then restart. */
  function Create(s: Sched, t: Id, timeout: Word): (r: Sched)
    requires Known(s.pending, s.deadline)
    requires s.pending == [] ==> s.watermark == 0
    ensures Known(r.pending, r.deadline) && t in r.deadline
  {
    var (s1, atHead) := SortedInsert(Stamped(s, t, timeout), t);
    Restarted(s1, atHead)
  }

  /** TIMER_0_timeout_create with the correction of line 152 as written. */
  function CreateAsWritten(s: Sched, t: Id, timeout: Word): (r: Sched)
    requires Known(s.pending, s.deadline)
    requires s.pending == [] ==> s.watermark == 0
    ensures Known(r.pending, r.deadline) && t in r.deadline
  {
    var (s1, atHead) := SortedInsertAsWritten(Stamped(s, t, timeout), t);
    Restarted(s1, atHead)
  }

  /** When t wraps, create rebases every pending timer onto the head. */
  lemma CreateRebasesPending(s: Sched, t: Id, timeout: Word)
    requires Valid(s) && Idle(s, t) && MakeAbsolute(s, timeout) < s.watermark
    ensures s.pending != []
    ensures forall id :: id in s.pending && id != Dummy ==>
      Create(s, t, timeout).deadline[id] == Sub(s.deadline[id], s.deadline[s.pending[0]])
  {
    var s0 := Stamped(s, t, timeout);
    CorrectedFacts(s0, t);
    LinkFacts(Corrected(s0, t), t);
  }

  /** What create promises: the invariant is kept, the queue is untouched,
      t becomes pending and no other caller's timer is added or lost; t lies
      timeout plus the elapsed ticks after the watermark, even when its
      deadline wrapped below the watermark and the list was rebased; every
      other timer keeps its deadline, or is rebased with the list; and only
      an insert at the head reloads the hardware, else it is left as it was. */
  lemma CreateFacts(s: Sched, t: Id, timeout: Word)
    requires Valid(s) && Idle(s, t)
    ensures var r := Create(s, t, timeout);
      var d := MakeAbsolute(s, timeout);
      var atHead := SortedInsert(Stamped(s, t, timeout), t).1;
      && Valid(r)
      && r.queue == s.queue
      && t in r.pending
      && (forall id :: id != Dummy ==> (id in r.pending <==> id == t || id in s.pending))
      && Sub(r.deadline[t], r.watermark) == Add(timeout, Elapsed(s))
      && (d >= s.watermark ==> r.deadline[t] == d && r.watermark == s.watermark)
      && (d >= s.watermark ==> forall id :: id in s.deadline && id != t && id != Dummy ==>
            id in r.deadline && r.deadline[id] == s.deadline[id])
      && (d < s.watermark ==>
            && !atHead && s.pending != []
            && r.deadline[t] == Sub(d, s.deadline[s.pending[0]])
            && r.watermark == Sub(s.watermark, s.deadline[s.pending[0]])
            && (forall id :: id in s.pending && id != Dummy ==> r.deadline[id] == Sub(s.deadline[id], s.deadline[s.pending[0]])))
      && (atHead ==> r.cnt == r.lastLoad && r.watermark == s.watermark)
      && (!atHead ==> && s.pending != [] && r.lastLoad == s.lastLoad && r.cnt == s.cnt
                      && r.pending[0] == s.pending[0])
  {
    var s0 := Stamped(s, t, timeout);
    var d := MakeAbsolute(s, timeout);
    SortedUpdate(s.pending, s.deadline, t, d);
    SortedInsertFacts(s0, t);
    var (s1, atHead) := SortedInsert(s0, t);
    if d < s.watermark {
      CreateRebasesPending(s, t, timeout);
    }
    if atHead {
      var h := s1.deadline[t];
      if HeadPeriod(s1) > MaxLoad {
        ChainFits(s1.watermark, h, h);
      }
      StartTimerAtHeadFacts(s1);
    }
    if d < s.watermark {
      SubRebased(d, s.watermark, s.deadline[s.pending[0]]);
    }
  }

  /** TIMER_0_timeout_flush_all: stop the scheduler and forget every pending timer. */
  function FlushAll(s: Sched): Sched
  {
    StopTimeouts(s).(pending := [])
  }

  /** Flushing keeps the invariant, empties the pending list and leaves the
      queue alone: callbacks already due still run. */
  lemma FlushAllFacts(s: Sched)
    requires Valid(s)
    ensures var r := FlushAll(s);
      Valid(r) && r.pending == [] && r.queue == s.queue && !r.running && !r.ovfEnabled && r.watermark == 0
  {
  }

  /** TIMER_0_timeout_delete. */
  function Delete(s: Sched, t: Id): Sched
    requires Known(s.pending, s.deadline)
  {
    if s.pending == [] then s
    else
      var s0 := s.(ovfEnabled := false);
      if t == s0.pending[0] then StartTimerAtHead(s0.(pending := s0.pending[1..]))
      else s0.(pending := Without(s0.pending, t), ovfEnabled := true)
  }

  /** Deleting the head restarts the hardware at the next timer. */
  lemma DeleteHeadFacts(s: Sched)
    requires Valid(s) && s.pending != []
    ensures var r := StartTimerAtHead(s.(ovfEnabled := false, pending := s.pending[1..]));
      && Valid(r) && r.queue == s.queue
      && (forall id :: id != Dummy ==> (id in r.pending <==> id in s.pending[1..]))
      && (forall id :: id in s.deadline && id != Dummy ==> id in r.deadline && r.deadline[id] == s.deadline[id])
      && (s.pending[1..] != [] ==> r.pending != [] && r.watermark == s.watermark && r.cnt == r.lastLoad)
  {
    var s1 := s.(ovfEnabled := false, pending := s.pending[1..]);
    assert forall i :: 0 <= i < |s1.pending| ==> s1.pending[i] == s.pending[i + 1];
    assert Linked(s1);
    assert Dummy !in s1.pending;
    if s1.pending != [] && HeadPeriod(s1) > MaxLoad {
      ChainFits(s.watermark, s.deadline[s.pending[0]], s.deadline[s1.pending[0]]);
    }
    StartTimerAtHeadFacts(s1);
  }

  /** Deleting a pending timer other than the head unlinks it and nothing else. */
  lemma DeleteBehindHeadFacts(s: Sched, t: Id)
    requires Valid(s) && t in s.pending && t != s.pending[0]
    ensures var r := s.(pending := Without(s.pending, t));
      && Valid(r) && r.pending[0] == s.pending[0] && t !in r.pending
  {
    WithoutSorted(s.pending, s.deadline, t);
    WithoutDistinct(s.pending, t);
    KeepsHead(s.pending, t);
  }

  /** What delete promises: the invariant is kept and the queue is untouched;
      a timer that is not pending, even one waiting in the queue, is left
      alone and nothing changes; a pending timer other than the head is
      unlinked with the rest kept in order and the hardware untouched; the
      head is unlinked and the hardware restarted at the new head. */
  lemma DeleteFacts(s: Sched, t: Id)
    requires Valid(s)
    ensures var r := Delete(s, t);
      && Valid(r)
      && r.queue == s.queue
      && (t !in s.pending ==> r == s)
      && (t in s.pending && t != s.pending[0] ==>
            r == s.(pending := Without(s.pending, t)) && r.pending[0] == s.pending[0])
      && (s.pending != [] && t == s.pending[0] ==> r == StartTimerAtHead(s.(ovfEnabled := false, pending := s.pending[1..])))
      && (t.Caller? ==> t !in r.pending)
      && (forall id :: id != t && id != Dummy ==> (id in r.pending <==> id in s.pending))
      && (forall id :: id in s.deadline && id != Dummy ==> id in r.deadline && r.deadline[id] == s.deadline[id])
  {
    if s.pending != [] {
      if t == s.pending[0] {
        DeleteHeadFacts(s);
        assert forall id :: id in s.pending <==> id == t || id in s.pending[1..];
        assert t !in s.pending[1..] by {
          forall i | 0 < i < |s.pending| ensures s.pending[i] != t { }
          assert forall i :: 0 <= i < |s.pending| - 1 ==> s.pending[1..][i] == s.pending[i + 1];
        }
      } else if t in s.pending {
        DeleteBehindHeadFacts(s, t);
      }
    }
  }

  // ------------------------------------------------- interrupt and dispatch

  /** TIMER_0_enqueue_callback: append to the tail of the queue. */
  function EnqueueCallback(s: Sched, t: Id): Sched
  {
    s.(queue := s.queue + [t])
  }

  /** The TCA0_OVF_vect handler: the head's deadline becomes the watermark,
      the head leaves the pending list and, unless it is the dummy, joins the
      tail of the queue; then the hardware restarts at the new head.  The
      head is read, so the list must not be empty. */
  function Overflow(s: Sched): Sched
    requires s.pending != [] && Known(s.pending, s.deadline)
  {
    StartTimerAtHead(Fired(s))
  }

  /** The state the handler hands to start-at-head: the fired head has left
      the pending list and, unless it is the dummy, joined the queue's tail. */
  function Fired(s: Sched): Sched
    requires s.pending != [] && Known(s.pending, s.deadline)
  {
    var head := s.pending[0];
    var s1 := s.(watermark := s.deadline[head], lastLoad := 0);
    var s2 := if head != Dummy then EnqueueCallback(s1, head) else s1;
    s2.(pending := s.pending[1..])
  }

  /** Firing the head keeps the lists well formed, leaves no dummy pending
      and puts the head into the queue only if it is not the dummy. */
  lemma FiredFacts(s: Sched)
    requires Linked(s) && s.pending != []
    ensures var r := Fired(s);
      && Linked(r) && Dummy !in r.pending && s.pending[0] !in r.pending
      && r.queue == s.queue + (if s.pending[0] == Dummy then [] else [s.pending[0]])
      && r.watermark == s.deadline[s.pending[0]]
      && (r.pending != [] ==> s.deadline[s.pending[0]] <= r.deadline[r.pending[0]])
  {
    var head := s.pending[0];
    TailFacts(s.pending, s.deadline);
    assert head !in s.queue;
    if head != Dummy {
      SnocDistinct(s.queue, head);
    }
  }

  /** What the overflow handler promises: it runs only while the interrupt is
      enabled, keeps the invariant, removes exactly the head, appends it to
      the queue unless it is the dummy (so the dummy never enters the queue),
      leaves the watermark at the fired deadline unless nothing is left, and
      keeps the rest of the list, in order and with its deadlines, behind at
      most a new dummy. */
  lemma OverflowFacts(s: Sched)
    requires Valid(s) && s.ovfEnabled
    ensures Valid(Overflow(s))
    ensures Overflow(s).queue == s.queue + (if s.pending[0] == Dummy then [] else [s.pending[0]])
    ensures s.pending[0] != Dummy ==> s.pending[0] !in Overflow(s).pending
    ensures forall id :: id != Dummy ==> (id in Overflow(s).pending <==> id in s.pending[1..])
    ensures Overflow(s).pending != [] ==> Overflow(s).watermark == s.deadline[s.pending[0]]
    ensures Overflow(s).pending == s.pending[1..] || Overflow(s).pending == [Dummy] + s.pending[1..]
    ensures forall id :: id in s.deadline && id != Dummy ==> id in Overflow(s).deadline && Overflow(s).deadline[id] == s.deadline[id]
  {
    var s3 := Fired(s);
    FiredFacts(s);
    assert Overflow(s) == StartTimerAtHead(s3);
    if s3.pending != [] && HeadPeriod(s3) > MaxLoad {
      ChainFits(s3.watermark, s3.watermark, s3.deadline[s3.pending[0]]);
    }
    StartTimerAtHeadFacts(s3);
  }

  /** TIMER_0_timeout_call_next_callback: take the queue's head, call its
      callback (here the oracle `callback`, which gives what callback_ptr
      returns for that timer's payload) and re-create the timer with the
      returned delay when it is not 0. */
  function CallNextCallback(s: Sched, callback: Id -> Word): Sched
    requires Known(s.pending, s.deadline)
    requires s.pending == [] ==> s.watermark == 0
  {
    if s.queue == [] then s
    else
      var t := s.queue[0];
      var s1 := s.(queue := s.queue[1..]);
      var reschedule := callback(t);
      if reschedule != 0 then Create(s1, t, reschedule) else s1
  }

  /** Taking the queue's head keeps the invariant and leaves that timer idle. */
  lemma DequeueFacts(s: Sched)
    requires Valid(s) && s.queue != []
    ensures Valid(s.(queue := s.queue[1..])) && Idle(s.(queue := s.queue[1..]), s.queue[0])
  {
    assert forall i :: 0 <= i < |s.queue| - 1 ==> s.queue[1..][i] == s.queue[i + 1];
  }

  /** What call-next-callback promises: nothing changes on an empty queue;
      otherwise exactly the queue's head leaves it (first in, first out), the
      rest keep their order, and that timer is pending again exactly when its
      callback returned a non-zero delay, then that delay plus the elapsed
      ticks after the watermark; no pending timer is lost. */
  lemma CallNextCallbackFacts(s: Sched, callback: Id -> Word)
    requires Valid(s)
    ensures var r := CallNextCallback(s, callback);
      && Valid(r)
      && (s.queue == [] ==> r == s)
      && (s.queue != [] ==> r.queue == s.queue[1..] && (s.queue[0] in r.pending <==> callback(s.queue[0]) != 0))
      && (s.queue != [] && callback(s.queue[0]) != 0 ==>
            Sub(r.deadline[s.queue[0]], r.watermark) == Add(callback(s.queue[0]), Elapsed(s)))
      && (forall id :: id != Dummy && id in s.pending ==> id in r.pending)
  {
    if s.queue != [] {
      DequeueFacts(s);
      var s1 := s.(queue := s.queue[1..]);
      if callback(s.queue[0]) != 0 {
        CreateFacts(s1, s.queue[0], callback(s.queue[0]));
      }
    }
  }

  // --------------------------------------------------------------- stopwatch

  /** TIMER_0_timeout_start_timer: a timer half the range away. */
  function StartTimer(s: Sched, t: Id): Sched
    requires Known(s.pending, s.deadline)
    requires s.pending == [] ==> s.watermark == 0
  {
    Create(s, t, Half)
  }

  /** TIMER_0_timeout_stop_timer: read the time, delete the timer and return
      half the range less the ticks its deadline was still away. */
  function StopTimer(s: Sched, t: Id): (Sched, Word)
    requires Known(s.pending, s.deadline) && t.Caller? && t in s.deadline
  {
    var now := MakeAbsolute(s, 0);
    var s1 := Delete(s, t);
    assert t in s1.deadline;
    (s1, Sub(Half, Sub(s1.deadline[t], now)))
  }

  /** A stopwatch whose deadline was set half the range after start reads the
      ticks from start to now. */
  lemma StopTimerReadsElapsed(s: Sched, t: Id, start: Word)
    requires Valid(s) && t.Caller? && t in s.deadline
    requires s.deadline[t] == Add(Half, start)
    ensures StopTimer(s, t).1 == Sub(MakeAbsolute(s, 0), start)
  {
    DeleteFacts(s, t);
    HalfLessRemaining(start, MakeAbsolute(s, 0));
  }

  /** A timer goes to the head of a running scheduler only when it is due
      before the head: its deadline did not wrap and lies closer to the
      watermark than the head's. */
  lemma HeadInsertCloser(s: Sched, t: Id, timeout: Word)
    requires Valid(s) && Idle(s, t)
    ensures SortedInsert(Stamped(s, t, timeout), t).1 && s.running ==>
      MakeAbsolute(s, timeout) >= s.watermark && Add(timeout, Elapsed(s)) < HeadPeriod(s)
  {
    var s0 := Stamped(s, t, timeout);
    var d := MakeAbsolute(s, timeout);
    SortedUpdate(s.pending, s.deadline, t, d);
    SortedInsertFacts(s0, t);
    if d >= s.watermark && s.pending != [] {
      CorrectedFacts(s0, t);
      assert Linked(s0) && Idle(s0, t);
      LinkFacts(s0, t);
      var h := s.deadline[s.pending[0]];
      assert s0.deadline[s0.pending[0]] == h;
      if h > d {
        SubNoWrap(h, s.watermark);
        SubNoWrap(d, s.watermark);
      }
    }
  }

  /** Started and stopped at once, a stopwatch reads 0, also when its
      deadline wrapped below the watermark and the list was rebased.  It
      never becomes the head of a running scheduler, whose head is at most
      one load away, so it never restarts the count. */
  lemma StopwatchReadsZero(s: Sched, t: Id)
    requires Valid(s) && Idle(s, t)
    ensures StopTimer(StartTimer(s, t), t).1 == 0
  {
    var atHead := SortedInsert(Stamped(s, t, Half), t).1;
    HeadInsertCloser(s, t, Half);
    if s.running {
      Wrap(s.cnt - s.lastLoad);
      Wrap(Half + Elapsed(s));
    }
    assert atHead ==> !s.running;
    CreateFacts(s, t, Half);
    var r := StartTimer(s, t);
    assert Elapsed(r) == Elapsed(s);
    Wrap(r.watermark);
    SubFromLater(r.deadline[t], r.watermark, Half, Elapsed(s));
    DeleteFacts(r, t);
    Wrap(0);
  }

  /** Right after the counter is loaded no tick has elapsed, so the time
      read is the watermark. */
  lemma NowAtReload(s: Sched)
    requires s.cnt == s.lastLoad
    ensures Elapsed(s) == 0 && MakeAbsolute(s, 0) == s.watermark
  {
    Wrap(s.watermark);
  }

  /** A timer created at the head of a running scheduler restarts the count:
      the counter is loaded with the timer's distance from the unchanged
      watermark, which already includes the ticks elapsed since the last
      load, so the timer fires that many ticks late, and the time read falls
      back by them. */
  lemma CreateAtHeadRestartsCount(s: Sched, t: Id, timeout: Word)
    requires Valid(s) && Idle(s, t) && s.running
    requires SortedInsert(Stamped(s, t, timeout), t).1
    ensures var r := Create(s, t, timeout);
      && r.pending[0] == t
      && HeadPeriod(r) == Add(timeout, Elapsed(s))
      && MakeAbsolute(r, 0) == s.watermark
      && Sub(MakeAbsolute(s, 0), MakeAbsolute(r, 0)) == Elapsed(s)
  {
    HeadInsertCloser(s, t, timeout);
    CreateFacts(s, t, timeout);
    var s0 := Stamped(s, t, timeout);
    SortedUpdate(s.pending, s.deadline, t, MakeAbsolute(s, timeout));
    SortedInsertFacts(s0, t);
    StartTimerAtHeadFacts(SortedInsert(s0, t).0);
    NowAtReload(Create(s, t, timeout));
    Wrap(Elapsed(s));
  }

  /** Deleting the head of a list that goes on restarts the count the same
      way: the next timer is loaded with its distance from the unchanged
      watermark and the time read falls back by the ticks elapsed. */
  lemma DeleteHeadRestartsCount(s: Sched)
    requires Valid(s) && |s.pending| >= 2
    ensures var r := Delete(s, s.pending[0]);
      && r.pending != [] && r.watermark == s.watermark
      && MakeAbsolute(r, 0) == s.watermark
      && Sub(MakeAbsolute(s, 0), MakeAbsolute(r, 0)) == Elapsed(s)
  {
    DeleteHeadFacts(s);
    DeleteFacts(s, s.pending[0]);
    NowAtReload(Delete(s, s.pending[0]));
    Wrap(Elapsed(s));
  }

  /** As written, a deadline that wrapped below the watermark lands 65536
      ticks further from the rebased watermark than timeout plus the elapsed
      ticks: the timer fires 65536 ticks late. */
  lemma CreateAsWrittenWrapFacts(s: Sched, t: Id, timeout: Word)
    requires Valid(s) && Idle(s, t)
    requires MakeAbsolute(s, timeout) < s.watermark
    ensures var r := CreateAsWritten(s, t, timeout);
      && Valid(r) && t in r.pending && r.pending[0] != t
      && r.lastLoad == s.lastLoad && r.cnt == s.cnt
      && Sub(r.deadline[t], r.watermark) == Add(Add(timeout, Elapsed(s)), 0x1_0000)
  {
    var d := MakeAbsolute(s, timeout);
    var s0 := Stamped(s, t, timeout);
    var base := s.deadline[s.pending[0]];
    SortedUpdate(s.pending, s.deadline, t, d);
    assert HeadPeriod(s0) == HeadPeriod(s);
    RebasedFacts(s0, t, WrapShift(d, base));
    var s1 := Rebased(s0, t, WrapShift(d, base));
    assert Linked(s1) && Idle(s1, t);
    LinkFacts(s1, t);
    WrapShiftDistance(d, s.watermark, base);
  }

  /** As written, a stopwatch whose deadline wrapped below the watermark,
      started and stopped at once, reads 0 - 65536 instead of 0. */
  lemma StopwatchWrapAsWritten(s: Sched, t: Id)
    requires Valid(s) && Idle(s, t)
    requires MakeAbsolute(s, Half) < s.watermark
    ensures StopTimer(CreateAsWritten(s, t, Half), t).1 == Sub(0, 0x1_0000)
  {
    CreateAsWrittenWrapFacts(s, t, Half);
    var r := CreateAsWritten(s, t, Half);
    assert Elapsed(r) == Elapsed(s);
    AddAssoc(Half, Elapsed(s), 0x1_0000);
    AddAssoc(Half, 0x1_0000, Elapsed(s));
    Wrap(r.watermark);
    SubFromLater(r.deadline[t], r.watermark, Add(Half, 0x1_0000), Elapsed(s));
    DeleteFacts(r, t);
    SubAfter(Half, 0x1_0000);
  }

  /** The wrap case is reached by a valid state: watermark 0xF000_0000 and
      one timer 16 ticks ahead, just loaded.  A stopwatch started there wraps
      below the watermark; as written it reads 0xFFFF_0000 when stopped at
      once, corrected it reads 0. */
  /** After a rebase the watermark is a wrapped distance before the head, so
      every pending deadline can lie numerically below it. A timer that then
      does not wrap is placed by its value alone (line 157) and is linked
      behind every pending timer, however soon it is due. */
  lemma ShortTimerLinkedLast(s: Sched, t: Id, timeout: Word)
    requires Valid(s) && Idle(s, t) && s.pending != []
    requires forall id :: id in s.pending ==> s.deadline[id] < s.watermark
    requires MakeAbsolute(s, timeout) >= s.watermark
    ensures Create(s, t, timeout).pending == s.pending + [t]
    ensures CreateAsWritten(s, t, timeout).pending == s.pending + [t]
  {
    var s0 := Stamped(s, t, timeout);
    var d := MakeAbsolute(s, timeout);
    CorrectedFacts(s0, t);
    assert Corrected(s0, t) == s0 == CorrectedAsWritten(s0, t);
    assert forall i :: 0 <= i < |s0.pending| ==> s0.deadline[s0.pending[i]] < d;
    var k := InsertIndex(s0.pending, s0.deadline, d);
    assert k == |s.pending|;
    var ids := Splice(s.pending, k, t);
    assert ids == s.pending + [t];
  }

  /** The state StartTimer leaves from the state of the stopwatch example:
      the new timer wrapped, so the list was rebased onto the old head, which
      now lies at 0 and 16 ticks after the watermark 0xFFFF_FFF0. */
  lemma RebasedExampleState()
    ensures var s := Sched(map[Dummy := 0, Caller(0) := 0xF000_0010], [Caller(0)], [], 0xF000_0000, 0xFFEF, true, true, 0xFFEF);
      var r := StartTimer(s, Caller(1));
      && r.pending == [Caller(0), Caller(1)] && r.queue == [] && r.watermark == 0xFFFF_FFF0
      && r.deadline[Caller(0)] == 0 && r.deadline[Caller(1)] == 0x7FFF_FFEF
      && r.running && r.ovfEnabled && r.lastLoad == 0xFFEF && r.cnt == 0xFFEF
  {
    var s := Sched(map[Dummy := 0, Caller(0) := 0xF000_0010], [Caller(0)], [], 0xF000_0000, 0xFFEF, true, true, 0xFFEF);
    assert Elapsed(s) == 0;
    assert MakeAbsolute(s, Half) == 0x6FFF_FFFF;
    var s0 := Stamped(s, Caller(1), Half);
    assert s0.deadline[Caller(1)] == 0x6FFF_FFFF;
    assert s0.deadline[Caller(1)] < s0.watermark;
    var c := Corrected(s0, Caller(1));
    assert c == Rebased(s0, Caller(1), 0x7FFF_FFEF);
    assert c.deadline[Caller(0)] == 0;
    assert c.pending == [Caller(0)] && c.deadline[Caller(1)] == 0x7FFF_FFEF && c.watermark == 0xFFFF_FFF0;
    assert InsertIndex(c.pending, c.deadline, 0x7FFF_FFEF) == 1;
    var r := StartTimer(s, Caller(1));
    assert r == c.(pending := Splice([Caller(0)], 1, Caller(1)), ovfEnabled := true);
    assert r.pending == [Caller(0), Caller(1)];
  }

  /** A state with the fields of the one above: a 5-tick timer is linked
      last, behind a head due 16 ticks on and behind a timer due about 2^31
      ticks on. */
  lemma ShortTimerLinkedLastAt(r: Sched)
    requires r.pending == [Caller(0), Caller(1)] && r.queue == [] && r.watermark == 0xFFFF_FFF0
    requires r.deadline.Keys >= {Caller(0), Caller(1)}
    requires r.deadline[Caller(0)] == 0 && r.deadline[Caller(1)] == 0x7FFF_FFEF
    requires r.running && r.ovfEnabled && r.lastLoad == 0xFFEF && r.cnt == 0xFFEF
    ensures Valid(r) && Add(5, Elapsed(r)) < HeadPeriod(r)
    ensures Create(r, Caller(2), 5).pending == [Caller(0), Caller(1), Caller(2)]
    ensures var c := Create(r, Caller(2), 5);
      && Valid(c) && c.deadline[Caller(1)] == 0x7FFF_FFEF && c.deadline[Caller(2)] == 0xFFFF_FFF5
  {
    assert Elapsed(r) == 0 && HeadPeriod(r) == 16;
    assert Valid(r);
    assert MakeAbsolute(r, 5) == 0xFFFF_FFF5;
    ShortTimerLinkedLast(r, Caller(2), 5);
    CreateFacts(r, Caller(2), 5);
  }

  /** Once the head of that list fires, the new watermark is 0, a dummy
      covers the 2^31 ticks to the next timer, and the 5-tick timer lies
      0xFFFF_FFF5 ticks after the watermark. */
  lemma ShortTimerFiresLateAt(c: Sched)
    requires Valid(c) && c.pending == [Caller(0), Caller(1), Caller(2)]
    requires c.deadline[Caller(0)] == 0 && c.deadline[Caller(1)] == 0x7FFF_FFEF && c.deadline[Caller(2)] == 0xFFFF_FFF5
    ensures var o := Overflow(c);
      && o.pending == [Dummy, Caller(1), Caller(2)] && o.watermark == 0
      && Sub(o.deadline[Caller(2)], o.watermark) == 0xFFFF_FFF5
  {
    var f := Fired(c);
    FiredFacts(c);
    assert f.pending == [Caller(1), Caller(2)] && f.watermark == 0;
    assert f.deadline[Caller(1)] == 0x7FFF_FFEF;
    assert HeadPeriod(f) > MaxLoad;
    StartTimerAtHeadFacts(f);
  }

  /** The case above, reached from the state of the stopwatch example. */
  lemma ShortTimerAfterRebaseExample()
    ensures var s := Sched(map[Dummy := 0, Caller(0) := 0xF000_0010], [Caller(0)], [], 0xF000_0000, 0xFFEF, true, true, 0xFFEF);
      var r := StartTimer(s, Caller(1));
      && Valid(r) && Add(5, Elapsed(r)) < HeadPeriod(r)
      && Create(r, Caller(2), 5).pending == [Caller(0), Caller(1), Caller(2)]
      && Overflow(Create(r, Caller(2), 5)).pending == [Dummy, Caller(1), Caller(2)]
      && Overflow(Create(r, Caller(2), 5)).watermark == 0
  {
    var s := Sched(map[Dummy := 0, Caller(0) := 0xF000_0010], [Caller(0)], [], 0xF000_0000, 0xFFEF, true, true, 0xFFEF);
    RebasedExampleState();
    ShortTimerLinkedLastAt(StartTimer(s, Caller(1)));
    ShortTimerFiresLateAt(Create(StartTimer(s, Caller(1)), Caller(2), 5));
  }

  lemma StopwatchWrapExample()
    ensures var s := Sched(map[Dummy := 0, Caller(0) := 0xF000_0010], [Caller(0)], [], 0xF000_0000, 0xFFEF, true, true, 0xFFEF);
      && Valid(s) && Idle(s, Caller(1)) && MakeAbsolute(s, Half) < s.watermark
      && StopTimer(CreateAsWritten(s, Caller(1), Half), Caller(1)).1 == 0xFFFF_0000
      && StopTimer(StartTimer(s, Caller(1)), Caller(1)).1 == 0
  {
    var s := Sched(map[Dummy := 0, Caller(0) := 0xF000_0010], [Caller(0)], [], 0xF000_0000, 0xFFEF, true, true, 0xFFEF);
    assert Valid(s);
    StopwatchWrapAsWritten(s, Caller(1));
    StopwatchReadsZero(s, Caller(1));
  }

  /** A rebase between start and stop does not change what the stopwatch
      reads: its deadline and the watermark move by the same base. */
  lemma StopTimerIgnoresRebase(s: Sched, t: Id)
    requires Valid(s) && s.pending != [] && t.Caller? && t in s.pending
    ensures StopTimer(Rebase(s), t).1 == StopTimer(s, t).1
  {
    var base := s.deadline[s.pending[0]];
    var r := Rebase(s);
    DeleteFacts(s, t);
    assert Delete(r, t).deadline[t] == r.deadline[t] == Sub(s.deadline[t], base);
    AddSubComm(s.watermark, Elapsed(s), base);
    assert Elapsed(r) == Elapsed(s);
    Wrap(s.watermark);
    Wrap(r.watermark);
    assert MakeAbsolute(r, 0) == Sub(MakeAbsolute(s, 0), base);
    SubRebased(s.deadline[t], MakeAbsolute(s, 0), base);
  }

  /** Deleting a timer just created behind the head restores the lists and
      the hardware: only the timer's own deadline field remembers it. */
  lemma DeleteUndoesCreate(s: Sched, t: Id, timeout: Word)
    requires Valid(s) && Idle(s, t)
    requires MakeAbsolute(s, timeout) >= s.watermark
    requires !SortedInsert(Stamped(s, t, timeout), t).1
    ensures Delete(Create(s, t, timeout), t) == s.(deadline := s.deadline[t := MakeAbsolute(s, timeout)])
  {
    CreateFacts(s, t, timeout);
    var s0 := Stamped(s, t, timeout);
    var k := InsertIndex(s0.pending, s0.deadline, s0.deadline[t]);
    WithoutSplice(s.pending, k, t);
    DeleteFacts(Create(s, t, timeout), t);
  }
}
