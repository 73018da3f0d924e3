/** The two intrusive lists of the timeout driver, seen as sequences of timer
    identities.  A timer's `next` field links it into at most one list; here a
    list is the sequence of the timers it links, in order, and a timer's
    absolute_time field is its entry in a deadline map. */
module TimerLists {
  import opened Ticks

  /** A timer: the driver's own dummy (TIMER_0_dummy) or one a caller owns. */
  datatype Id = Dummy | Caller(slot: nat)

  /** Every timer of the list has a deadline. */
  predicate Known(ids: seq<Id>, d: map<Id, Word>)
  {
    forall id :: id in ids ==> id in d
  }

  /** The list is non-decreasing by deadline. */
  predicate Sorted(ids: seq<Id>, d: map<Id, Word>)
  {
    Known(ids, d) && forall i, j :: 0 <= i < j < |ids| ==> d[ids[i]] <= d[ids[j]]
  }

  /** No timer is linked twice. */
  predicate Distinct(ids: seq<Id>)
  {
    forall i, j :: 0 <= i < j < |ids| ==> ids[i] != ids[j]
  }

  /** The walk of TIMER_0_sorted_insert: the position before the first timer
      whose deadline exceeds x, so a new timer goes after every timer with an
      equal deadline. */
  function InsertIndex(ids: seq<Id>, d: map<Id, Word>, x: Word): (k: nat)
    requires Known(ids, d)
    ensures k <= |ids|
    ensures forall i :: 0 <= i < k ==> d[ids[i]] <= x
    ensures k < |ids| ==> d[ids[k]] > x
  {
    if ids == [] || d[ids[0]] > x then 0 else 1 + InsertIndex(ids[1..], d, x)
  }

  /** The contract of InsertIndex determines it. */
  lemma InsertIndexUnique(ids: seq<Id>, d: map<Id, Word>, x: Word, k: nat)
    requires Known(ids, d) && k <= |ids|
    requires forall i :: 0 <= i < k ==> d[ids[i]] <= x
    requires k < |ids| ==> d[ids[k]] > x
    ensures k == InsertIndex(ids, d, x)
  {
  }

  /** TIMER_0_rebase_list's effect on deadlines: every listed timer's deadline
      less base, every other timer's deadline as it was. */
  function Shifted(d: map<Id, Word>, ids: seq<Id>, base: Word): (r: map<Id, Word>)
    ensures r.Keys == d.Keys
    ensures forall id :: id in d && id !in ids ==> r[id] == d[id]
    ensures forall id :: id in d && id in ids ==> r[id] == Sub(d[id], base)
  {
    map id | id in d :: if id in ids then Sub(d[id], base) else d[id]
  }

  /** Rebasing a sorted list on its head's deadline moves the head to 0 and
      keeps the order and every pairwise difference of the listed deadlines:
      the head is the least deadline, so no subtraction wraps. */
  lemma {:induction false} ShiftedKeepsOrder(ids: seq<Id>, d: map<Id, Word>)
    requires Sorted(ids, d) && ids != []
    ensures Sorted(ids, Shifted(d, ids, d[ids[0]]))
    ensures Shifted(d, ids, d[ids[0]])[ids[0]] == 0
    ensures forall i, j :: 0 <= i < |ids| && 0 <= j < |ids| ==>
      Shifted(d, ids, d[ids[0]])[ids[j]] as int - Shifted(d, ids, d[ids[0]])[ids[i]] == d[ids[j]] as int - d[ids[i]]
  {
    var base := d[ids[0]];
    var r := Shifted(d, ids, base);
    forall i | 0 <= i < |ids|
      ensures r[ids[i]] == d[ids[i]] as int - base
    {
      SubNoWrap(d[ids[i]], base);
    }
  }

  /** One step of the rebase walk: shifting one more, not yet shifted, timer. */
  lemma ShiftedStep(d: map<Id, Word>, ids: seq<Id>, x: Id, base: Word)
    requires x in d && x !in ids
    ensures Shifted(d, ids + [x], base) == Shifted(d, ids, base)[x := Sub(d[x], base)]
  {
    var l := Shifted(d, ids + [x], base);
    var r := Shifted(d, ids, base)[x := Sub(d[x], base)];
    assert l.Keys == r.Keys;
    forall id | id in l ensures l[id] == r[id] {
      assert id in ids + [x] <==> id in ids || id == x;
    }
  }

  /** A list with a timer placed at position k. */
  function Splice(ids: seq<Id>, k: nat, t: Id): (r: seq<Id>)
    requires k <= |ids|
    ensures |r| == |ids| + 1 && r[k] == t
    ensures forall i :: 0 <= i < k ==> r[i] == ids[i]
    ensures forall i :: k < i < |r| ==> r[i] == ids[i - 1]
  {
    ids[..k] + [t] + ids[k..]
  }

  /** A timer placed where InsertIndex says keeps the list sorted. */
  lemma SpliceSorted(ids: seq<Id>, d: map<Id, Word>, t: Id)
    requires Sorted(ids, d) && t in d
    ensures Sorted(Splice(ids, InsertIndex(ids, d, d[t]), t), d)
  {
    var k := InsertIndex(ids, d, d[t]);
    var r := Splice(ids, k, t);
    SpliceMembers(ids, k, t);
    forall i, j | 0 <= i < j < |r| ensures d[r[i]] <= d[r[j]] {
      if j < k {
        assert r[i] == ids[i] && r[j] == ids[j];
      } else if j == k {
        assert r[i] == ids[i];
      } else if i == k {
        assert r[j] == ids[j - 1] && d[ids[k]] > d[t];
        assert k == j - 1 || d[ids[k]] <= d[ids[j - 1]];
      } else if i < k {
        assert r[i] == ids[i] && r[j] == ids[j - 1];
      } else {
        assert r[i] == ids[i - 1] && r[j] == ids[j - 1];
      }
    }
  }

  /** Splicing in a timer adds exactly that timer. */
  lemma SpliceMembers(ids: seq<Id>, k: nat, t: Id)
    requires k <= |ids|
    ensures forall x :: x in Splice(ids, k, t) <==> x == t || x in ids
  {
    var r := Splice(ids, k, t);
    forall x | x in r ensures x == t || x in ids {
      var i :| 0 <= i < |r| && r[i] == x;
      if i < k { assert x == ids[i]; } else if i > k { assert x == ids[i - 1]; }
    }
    forall x | x in ids ensures x in r {
      var i :| 0 <= i < |ids| && ids[i] == x;
      if i < k { assert r[i] == x; } else { assert r[i + 1] == x; }
    }
  }

  /** Splicing in a timer that is not listed keeps the list free of repeats
      and adds exactly that timer. */
  lemma SpliceDistinct(ids: seq<Id>, k: nat, t: Id)
    requires Distinct(ids) && t !in ids && k <= |ids|
    ensures Distinct(Splice(ids, k, t))
    ensures forall x :: x in Splice(ids, k, t) <==> x == t || x in ids
  {
    var r := Splice(ids, k, t);
    SpliceMembers(ids, k, t);
    forall i, j | 0 <= i < j < |r| ensures r[i] != r[j] {
      if i != k && j != k {
        var i' := if i < k then i else i - 1;
        var j' := if j < k then j else j - 1;
        assert r[i] == ids[i'] && r[j] == ids[j'];
      } else if i == k {
        assert r[j] == ids[j - 1];
      } else {
        assert r[i] == ids[i];
      }
    }
  }

  /** Giving an unlisted timer a deadline leaves the list's order alone. */
  lemma SortedUpdate(ids: seq<Id>, d: map<Id, Word>, x: Id, v: Word)
    requires Sorted(ids, d) && x !in ids
    ensures Sorted(ids, d[x := v])
  {
  }

  /** A timer no later than the head of a sorted list may go in front of it. */
  lemma ConsSorted(t: Id, ids: seq<Id>, d: map<Id, Word>)
    requires Sorted(ids, d) && t in d
    requires ids != [] ==> d[t] <= d[ids[0]]
    ensures Sorted([t] + ids, d)
  {
    var r := [t] + ids;
    forall i, j | 0 <= i < j < |r| ensures d[r[i]] <= d[r[j]] {
      assert r[j] == ids[j - 1];
      if i == 0 {
        assert j - 1 == 0 || d[ids[0]] <= d[ids[j - 1]];
      } else {
        assert r[i] == ids[i - 1];
      }
    }
  }

  /** Linking an unlisted timer in front keeps the list free of repeats. */
  lemma ConsDistinct(t: Id, ids: seq<Id>)
    requires Distinct(ids) && t !in ids
    ensures Distinct([t] + ids)
  {
    var r := [t] + ids;
    forall i, j | 0 <= i < j < |r| ensures r[i] != r[j] {
      assert r[j] == ids[j - 1];
      if i > 0 { assert r[i] == ids[i - 1]; }
    }
  }

  /** Unlinking the head leaves a sorted list without repeats that no longer holds the head. */
  lemma TailFacts(ids: seq<Id>, d: map<Id, Word>)
    requires Sorted(ids, d) && Distinct(ids) && ids != []
    ensures Sorted(ids[1..], d) && Distinct(ids[1..]) && ids[0] !in ids[1..]
    ensures forall x :: x in ids[1..] <==> x in ids && x != ids[0]
  {
    assert forall i :: 0 <= i < |ids| - 1 ==> ids[1..][i] == ids[i + 1];
    assert forall x :: x in ids ==> x == ids[0] || x in ids[1..];
  }

  /** Linking an unlisted timer at the tail keeps the list free of repeats. */
  lemma SnocDistinct(ids: seq<Id>, t: Id)
    requires Distinct(ids) && t !in ids
    ensures Distinct(ids + [t])
  {
    var r := ids + [t];
    assert forall i :: 0 <= i < |ids| ==> r[i] == ids[i];
  }

  /** The list with the first occurrence of t unlinked (TIMER_0_timeout_delete's search). */
  function Without(ids: seq<Id>, t: Id): (r: seq<Id>)
    ensures forall x :: x in r ==> x in ids
    ensures forall x :: x in ids && x != t ==> x in r
    ensures t !in ids ==> r == ids
  {
    if ids == [] then []
    else if ids[0] == t then ids[1..]
    else [ids[0]] + Without(ids[1..], t)
  }

  /** Unlinking at the first index holding t is Without. */
  lemma {:induction false} WithoutAt(ids: seq<Id>, t: Id, i: nat)
    requires i < |ids| && ids[i] == t && t !in ids[..i]
    ensures Without(ids, t) == ids[..i] + ids[i + 1..]
  {
    if i > 0 {
      assert ids[1..][..i - 1] == ids[1..i];
      WithoutAt(ids[1..], t, i - 1);
      assert ids[1..][i..] == ids[i + 1..];
    }
  }

  /** Unlinking a timer keeps the rest sorted. */
  lemma {:induction false} WithoutSorted(ids: seq<Id>, d: map<Id, Word>, t: Id)
    requires Sorted(ids, d)
    ensures Sorted(Without(ids, t), d)
  {
    if ids != [] {
      assert Sorted(ids[1..], d);
      if ids[0] != t {
        var rest := Without(ids[1..], t);
        WithoutSorted(ids[1..], d, t);
        if rest != [] {
          assert rest[0] in ids[1..];
          var j :| 0 <= j < |ids[1..]| && ids[1..][j] == rest[0];
          assert ids[1..][j] == ids[j + 1];
        }
        ConsSorted(ids[0], rest, d);
      }
    }
  }

  /** Unlinking a timer from a list without repeats leaves no repeats and no t. */
  lemma {:induction false} WithoutDistinct(ids: seq<Id>, t: Id)
    requires Distinct(ids)
    ensures Distinct(Without(ids, t)) && t !in Without(ids, t)
  {
    if ids != [] {
      assert Distinct(ids[1..]);
      if ids[0] == t {
        assert t !in ids[1..] by {
          forall j | 0 <= j < |ids[1..]| ensures ids[1..][j] != t { assert ids[1..][j] == ids[j + 1]; }
        }
      } else {
        WithoutDistinct(ids[1..], t);
        var rest := Without(ids[1..], t);
        assert ids[0] !in ids[1..] by {
          forall j | 0 <= j < |ids[1..]| ensures ids[1..][j] != ids[0] { assert ids[1..][j] == ids[j + 1]; }
        }
        var r := [ids[0]] + rest;
        forall i, j | 0 <= i < j < |r| ensures r[i] != r[j] {
          assert r[j] == rest[j - 1];
          if i > 0 { assert r[i] == rest[i - 1]; }
        }
      }
    }
  }

  /** Unlinking a timer that is not the head keeps the head. */
  lemma KeepsHead(ids: seq<Id>, t: Id)
    requires ids != [] && ids[0] != t
    ensures Without(ids, t) != [] && Without(ids, t)[0] == ids[0]
  {
  }

  /** Unlinking a timer that was just spliced in restores the list: delete undoes insert. */
  lemma {:induction false} WithoutSplice(ids: seq<Id>, k: nat, t: Id)
    requires k <= |ids| && t !in ids
    ensures Without(Splice(ids, k, t), t) == ids
  {
    var r := Splice(ids, k, t);
    assert t !in r[..k] by {
      forall i | 0 <= i < k ensures r[..k][i] != t { assert r[i] == ids[i]; }
    }
    WithoutAt(r, t, k);
    assert r[..k] == ids[..k];
    assert r[k + 1..] == ids[k..];
    assert ids[..k] + ids[k..] == ids;
  }
}
