/** The timeout driver of src/timeout.c as it runs: one object holds the
    driver's globals, its two list heads (as the sequences of the timers they
    chain) and the TCA0 registers it touches, and every routine updates them
    in place.  Each method is proved to move the object exactly as the
    matching function of Transitions moves the state, and every public
    method and the overflow handler keep the driver's invariant. */
module Timeout {
  import opened Ticks
  import opened TimerLists
  import T = Transitions

  class Scheduler {
    var deadline: map<Id, Word>  // absolute_time of every timer
    var pending: seq<Id>         // TIMER_0_list_head and the chain behind it
    var queue: seq<Id>           // TIMER_0_execute_queue_head and the chain behind it
    var watermark: Word          // TIMER_0_absolute_time_of_last_timeout
    var lastLoad: Word           // TIMER_0_last_timer_load
    var running: bool            // TIMER_0_is_running
    var ovfEnabled: bool         // the OVF bit of TCA0.SINGLE.INTCTRL
    var cnt: Counter             // TCA0.SINGLE.CNT

    /** The driver's state as a value. */
    function State(): T.Sched
      reads this
    {
      T.Sched(deadline, pending, queue, watermark, lastLoad, running, ovfEnabled, cnt)
    }

    ghost predicate Valid()
      reads this
    {
      T.Valid(State())
    }

    /** The statics of the driver before its first call. */
    constructor ()
      ensures State() == T.Init() && Valid()
    {
      deadline := map[Dummy := 0];
      pending := [];
      queue := [];
      watermark := 0;
      lastLoad := 0;
      running := false;
      ovfEnabled := false;
      cnt := 0;
      T.InitValid();
    }

    /** The environment: TCA0 has counted on to c. */
    method CounterAdvanced(c: Counter)
      requires Valid()
      modifies this
      ensures State() == old(State()).(cnt := c) && Valid()
    {
      cnt := c;
    }

    /** TIMER_0_stop_timeouts. */
    method StopTimeouts()
      modifies this
      ensures State() == T.StopTimeouts(old(State()))
    {
      ovfEnabled := false;
      watermark := 0;
      running := false;
    }

    /** TIMER_0_set_timer_duration. */
    method SetTimerDuration(duration: Word)
      modifies this
      ensures State() == T.SetTimerDuration(old(State()), duration)
    {
      lastLoad := Sub(MaxLoad, duration);
      cnt := lastLoad % CounterModulus;
    }

    /** TIMER_0_rebase_list: walk the pending list subtracting the head's deadline. */
    method Rebase() returns (base: Word)
      requires pending != [] && Known(pending, deadline) && Distinct(pending)
      modifies this
      ensures base == old(deadline[pending[0]])
      ensures State() == T.Rebase(old(State()))
    {
      base := deadline[pending[0]];
      var i := 0;
      while i < |pending|
        modifies this`deadline
        invariant 0 <= i <= |pending|
        invariant deadline == Shifted(old(deadline), pending[..i], base)
      {
        var id := pending[i];
        assert id !in pending[..i];
        assert pending[..i + 1] == pending[..i] + [id];
        ShiftedStep(old(deadline), pending[..i], id, base);
        deadline := deadline[id := Sub(deadline[id], base)];
        i := i + 1;
      }
      assert pending[..i] == pending;
      watermark := Sub(watermark, base);
    }

    /** The walk of TIMER_0_sorted_insert: the position before the first
        pending timer whose deadline is later than x. */
    method InsertPosition(x: Word) returns (k: nat)
      requires Known(pending, deadline)
      ensures k == InsertIndex(pending, deadline, x)
    {
      k := 0;
      while k < |pending| && deadline[pending[k]] <= x
        invariant 0 <= k <= |pending|
        invariant forall j :: 0 <= j < k ==> deadline[pending[j]] <= x
      {
        k := k + 1;
      }
      InsertIndexUnique(pending, deadline, x, k);
    }

    /** The correction of TIMER_0_sorted_insert: a deadline below the
        watermark has wrapped, so the list is rebased and the deadline is
        rebased with it (line 152 as written moves it by 65535 - base + 1
        instead, see Transitions.CorrectedAsWritten). Returns the deadline
        to insert by. */
    method CorrectDeadline(t: Id) returns (x: Word)
      requires Known(pending, deadline) && Distinct(pending) && t in deadline
      requires deadline[t] < watermark ==> pending != []
      modifies this
      ensures State() == T.Corrected(old(State()), t) && x == deadline[t]
    {
      ghost var s0 := State();
      x := deadline[t];
      if x < watermark {
        var base := Rebase();
        ghost var rebased := State();
        x := Sub(x, base);
        assert x == Sub(s0.deadline[t], s0.deadline[s0.pending[0]]);
        deadline := deadline[t := x];
        assert State() == rebased.(deadline := rebased.deadline[t := x]);
      }
    }

    /** TIMER_0_sorted_insert: correct a deadline below the watermark, walk to
        the first later deadline and link t there; at the head, reload the
        counter for a full period and drop a dummy head. */
    method SortedInsert(t: Id) returns (atHead: bool)
      requires Known(pending, deadline) && Distinct(pending) && t in deadline
      requires deadline[t] < watermark ==> pending != []
      modifies this
      ensures (State(), atHead) == T.SortedInsert(old(State()), t)
    {
      var x := CorrectDeadline(t);
      ghost var s1 := State();
      var k := InsertPosition(x);
      if k == 0 {
        SetTimerDuration(MaxLoad);
        pending := [t] + (if pending != [] && pending[0] == Dummy then pending[1..] else pending);
        atHead := true;
        assert State() == T.SetTimerDuration(s1, MaxLoad).(pending := [t] + T.DropDummy(s1.pending));
      } else {
        pending := pending[..k] + [t] + pending[k..];
        atHead := false;
        assert State() == s1.(pending := Splice(s1.pending, k, t));
      }
    }

    /** TIMER_0_start_timer_at_head. */
    method StartTimerAtHead()
      requires Known(pending, deadline)
      modifies this
      ensures State() == T.StartTimerAtHead(old(State()))
    {
      ovfEnabled := false;
      if pending == [] {
        StopTimeouts();
        return;
      }
      var period := Sub(deadline[pending[0]], watermark);
      if period > MaxLoad {
        deadline := deadline[Dummy := Add(watermark, MaxLoad)];
        pending := [Dummy] + pending;
        period := MaxLoad;
      }
      SetTimerDuration(period);
      ovfEnabled := true;
      running := true;
    }

    /** TIMER_0_timeout_flush_all. */
    method FlushAll()
      requires Valid()
      modifies this
      ensures State() == T.FlushAll(old(State())) && Valid()
    {
      StopTimeouts();
      pending := [];
      T.FlushAllFacts(old(State()));
    }

    /** TIMER_0_timeout_delete: unlink the head and restart, or search the
        rest of the list with the interrupt masked and unlink t if found. */
    method Delete(t: Id)
      requires Valid()
      modifies this
      ensures State() == T.Delete(old(State()), t) && Valid()
    {
      if pending == [] {
        return;
      }
      ovfEnabled := false;
      if t == pending[0] {
        pending := pending[1..];
        StartTimerAtHead();
      } else {
        var i := 0;
        while i < |pending| && pending[i] != t
          invariant 0 <= i <= |pending|
          invariant t !in pending[..i]
        {
          i := i + 1;
        }
        if i < |pending| {
          WithoutAt(pending, t, i);
          pending := pending[..i] + pending[i + 1..];
        } else {
          assert pending[..i] == pending;
        }
        ovfEnabled := true;
      }
      T.DeleteFacts(old(State()), t);
    }

    /** TIMER_0_enqueue_callback: walk to the tail of the queue and link t behind it. */
    method EnqueueCallback(t: Id)
      modifies this
      ensures State() == T.EnqueueCallback(old(State()), t)
    {
      if queue == [] {
        queue := [t];
        return;
      }
      var tail := 0;
      while tail + 1 < |queue|
        invariant 0 <= tail < |queue|  // tmp is a node of the queue, never NULL
      {
        tail := tail + 1;
      }
      assert queue[..tail + 1] == queue;
      queue := queue[..tail + 1] + [t];
    }

    /** TIMER_0_timeout_create. */
    method Create(t: Id, timeout: Word)
      requires Valid() && T.Idle(State(), t)
      modifies this
      ensures State() == T.Create(old(State()), t, timeout) && Valid()
    {
      ovfEnabled := false;
      deadline := deadline[t := T.MakeAbsolute(State(), timeout)];
      SortedUpdate(pending, old(deadline), t, deadline[t]);
      T.SortedInsertFacts(State(), t);
      var atHead := SortedInsert(t);
      if atHead {
        StartTimerAtHead();
      } else if running {
        ovfEnabled := true;
      }
      T.CreateFacts(old(State()), t, timeout);
    }

    /** The TCA0_OVF_vect handler, run atomically while the interrupt is enabled. */
    method Overflow()
      requires Valid() && ovfEnabled
      modifies this
      ensures State() == T.Overflow(old(State())) && Valid()
    {
      var head := pending[0];
      var next := pending[1..];
      watermark := deadline[head];
      lastLoad := 0;
      if head != Dummy {
        EnqueueCallback(head);
      }
      pending := next;
      StartTimerAtHead();
      T.OverflowFacts(old(State()));
    }

    /** TIMER_0_timeout_call_next_callback; callback gives what the timer's
        callback returns for its payload. */
    method CallNextCallback(callback: Id -> Word)
      requires Valid()
      modifies this
      ensures State() == T.CallNextCallback(old(State()), callback) && Valid()
    {
      if queue == [] {
        return;
      }
      T.DequeueFacts(State());
      var t := queue[0];
      queue := queue[1..];
      var reschedule := callback(t);
      if reschedule != 0 {
        Create(t, reschedule);
      }
    }

    /** TIMER_0_timeout_start_timer. */
    method StartTimer(t: Id)
      requires Valid() && T.Idle(State(), t)
      modifies this
      ensures State() == T.StartTimer(old(State()), t) && Valid()
    {
      Create(t, Half);
    }

    /** TIMER_0_timeout_stop_timer. */
    method StopTimer(t: Id) returns (elapsed: Word)
      requires Valid() && t.Caller? && t in deadline
      modifies this
      ensures (State(), elapsed) == T.StopTimer(old(State()), t) && Valid()
    {
      var now := T.MakeAbsolute(State(), 0);
      T.DeleteFacts(State(), t);
      Delete(t);
      var diff := Sub(deadline[t], now);
      elapsed := Sub(Half, diff);
    }
  }
}
