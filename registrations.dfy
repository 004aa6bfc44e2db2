/** The records an event's Set holds, and the operations `off` and `emit`
    perform on the records of one event. */
module Registrations {

  datatype Option<T> = None | Some(value: T)

  /** A listener function. The emitter never inspects a listener; it only
      compares listeners by identity (`===`), which this number stands for. */
  type ListenerRef = nat

  /** The record `{listener, once}` that `on` stores in an event's Set.
      `id` stands for the record's object identity: every call of `on` makes
      a new record, so ids are fresh and grow in insertion order. */
  datatype Registration = Registration(id: nat, listener: ListenerRef, once: bool)

  /** Ids strictly increase along `s`: `s` lists distinct records in the
      order they were inserted. */
  ghost predicate Ordered(s: seq<Registration>) {
    forall i, j :: 0 <= i < j < |s| ==> s[i].id < s[j].id
  }

  /** Every record of `s` was created before the id counter reached `bound`. */
  ghost predicate Below(s: seq<Registration>, bound: nat) {
    forall i :: 0 <= i < |s| ==> s[i].id < bound
  }

  /** `t` is what remains at the end of `s`. */
  ghost predicate EndsWith(s: seq<Registration>, t: seq<Registration>) {
    |t| <= |s| && s[|s| - |t|..] == t
  }

  /** No listener has two records in `s`. */
  ghost predicate DistinctListeners(s: seq<Registration>) {
    forall i, j :: 0 <= i < j < |s| ==> s[i].listener != s[j].listener
  }

  /** The listeners of `s`, one per record, in order. */
  function Listeners(s: seq<Registration>): (r: seq<ListenerRef>) {
    seq(|s|, i requires 0 <= i < |s| => s[i].listener)
  }

  /** The listeners of the one-shot records of `s`, in order. */
  function OnceListeners(s: seq<Registration>): (r: seq<ListenerRef>) {
    if s == [] then []
    else OnceListeners(s[..|s| - 1]) + (if s[|s| - 1].once then [s[|s| - 1].listener] else [])
  }

  /** The persistent (not one-shot) records of `s`, in order. */
  function Persistent(s: seq<Registration>): (r: seq<Registration>) {
    if s == [] then []
    else Persistent(s[..|s| - 1]) + (if s[|s| - 1].once then [] else [s[|s| - 1]])
  }

  /** The position of the first record of `l`, scanning in insertion order. */
  function FirstIndex(s: seq<Registration>, l: ListenerRef): (r: Option<nat>)
    ensures r.Some? ==> r.value < |s| && s[r.value].listener == l
    ensures r.Some? ==> forall j :: 0 <= j < r.value ==> s[j].listener != l
    ensures r.None? ==> forall j :: 0 <= j < |s| ==> s[j].listener != l
  {
    if s == [] then None
    else if s[0].listener == l then Some(0)
    else
      var rest := FirstIndex(s[1..], l);
      if rest.None? then None else Some(rest.value + 1)
  }

  /** The scan in `off`: walks the Set in order and stops (`break`) at the
      first record whose listener is `l`. */
  method FindTarget(s: seq<Registration>, l: ListenerRef) returns (target: Option<nat>)
    ensures target == FirstIndex(s, l)
  {
    var i := 0;
    while i < |s|
      invariant 0 <= i <= |s|
      invariant forall j :: 0 <= j < i ==> s[j].listener != l
    {
      if s[i].listener == l {
        target := Some(i);
        return;
      }
      i := i + 1;
    }
    target := None;
  }

  /** `s` after deleting the first record of `l`; `s` itself when `l` has no record. */
  function RemoveFirst(s: seq<Registration>, l: ListenerRef): (r: seq<Registration>)
    ensures |r| == |s| - (if FirstIndex(s, l).Some? then 1 else 0)
    ensures FirstIndex(s, l).None? ==> r == s
  {
    match FirstIndex(s, l)
    case None => s
    case Some(k) => s[..k] + s[k + 1..]
  }

  /** `s` after RemoveFirst for each listener of `ls` in turn. */
  function RemoveEach(s: seq<Registration>, ls: seq<ListenerRef>): (r: seq<Registration>)
    ensures |s| - |ls| <= |r| <= |s|
  {
    if ls == [] then s
    else RemoveFirst(RemoveEach(s, ls[..|ls| - 1]), ls[|ls| - 1])
  }

  /** One step of a Set iterator whose last visited record has id `cursor`
      (-1 before the first step): the position of the first record inserted
      after it, if any. Records deleted meanwhile are simply not there. */
  function NextAfter(s: seq<Registration>, cursor: int): (r: Option<nat>)
    ensures r.Some? ==> r.value < |s| && s[r.value].id > cursor
    ensures r.Some? ==> forall j :: 0 <= j < r.value ==> s[j].id <= cursor
    ensures r.None? ==> forall j :: 0 <= j < |s| ==> s[j].id <= cursor
  {
    if s == [] then None
    else if s[0].id > cursor then Some(0)
    else
      var rest := NextAfter(s[1..], cursor);
      if rest.None? then None else Some(rest.value + 1)
  }

  /** The iterator's cursor after visiting the first `i` records of `snapshot`. */
  function Cursor(snapshot: seq<Registration>, i: nat): (c: int)
    requires i <= |snapshot|
  {
    if i == 0 then -1 else snapshot[i - 1].id
  }

  /** Deleting by listener removes exactly one occurrence of that listener,
      or nothing when the listener has no record. */
  lemma RemoveFirstListeners(s: seq<Registration>, l: ListenerRef)
    ensures multiset(Listeners(RemoveFirst(s, l))) == multiset(Listeners(s)) - multiset{l}
  {
    match FirstIndex(s, l)
    case None =>
      assert l !in Listeners(s);
    case Some(k) =>
      assert Listeners(s) == Listeners(s[..k]) + [l] + Listeners(s[k + 1..]);
      assert Listeners(s[..k] + s[k + 1..]) == Listeners(s[..k]) + Listeners(s[k + 1..]);
  }

  /** Deleting by listener changes the Set exactly when the listener has a
      record in it, and then deletes one record. */
  lemma RemoveFirstChanges(s: seq<Registration>, l: ListenerRef)
    ensures RemoveFirst(s, l) == s <==> forall j :: 0 <= j < |s| ==> s[j].listener != l
    ensures RemoveFirst(s, l) != s ==> |RemoveFirst(s, l)| == |s| - 1
  {
    match FirstIndex(s, l)
    case None =>
    case Some(k) =>
      assert |RemoveFirst(s, l)| == |s| - 1;
  }

  /** `off(evt, l1, ..., ln)`: each listener given loses one record if it has
      one; no other listener loses any. */
  lemma {:induction false} RemoveEachListeners(s: seq<Registration>, ls: seq<ListenerRef>)
    ensures multiset(Listeners(RemoveEach(s, ls))) == multiset(Listeners(s)) - multiset(ls)
  {
    if ls != [] {
      var init := ls[..|ls| - 1];
      var x := ls[|ls| - 1];
      var a := multiset(Listeners(s));
      var r := RemoveEach(s, init);
      RemoveEachListeners(s, init);
      RemoveFirstListeners(r, x);
      assert ls == init + [x];
      assert multiset(ls) == multiset(init) + multiset{x};
      assert RemoveEach(s, ls) == RemoveFirst(r, x);
      assert multiset(Listeners(RemoveFirst(r, x))) == (a - multiset(init)) - multiset{x};
      assert (a - multiset(init)) - multiset{x} == a - (multiset(init) + multiset{x});
    }
  }

  /** Deleting by listener keeps only records of `s`, in their order. */
  lemma RemoveFirstSublist(s: seq<Registration>, l: ListenerRef)
    ensures multiset(RemoveFirst(s, l)) <= multiset(s)
    ensures Ordered(s) ==> Ordered(RemoveFirst(s, l))
  {
    match FirstIndex(s, l)
    case None =>
    case Some(k) =>
      var r := s[..k] + s[k + 1..];
      assert s == s[..k] + [s[k]] + s[k + 1..];
      assert forall i :: 0 <= i < |r| ==> r[i] == s[if i < k then i else i + 1];
  }

  /** The records surviving `off(evt, l1, ..., ln)` are records of the
      original Set, still in insertion order. */
  lemma {:induction false} RemoveEachSublist(s: seq<Registration>, ls: seq<ListenerRef>)
    ensures multiset(RemoveEach(s, ls)) <= multiset(s)
    ensures Ordered(s) ==> Ordered(RemoveEach(s, ls))
  {
    if ls != [] {
      RemoveEachSublist(s, ls[..|ls| - 1]);
      RemoveFirstSublist(RemoveEach(s, ls[..|ls| - 1]), ls[|ls| - 1]);
    }
  }

  /** Every one-shot listener of `s` has a record in `s`. */
  lemma {:induction false} OnceListenersWithin(s: seq<Registration>)
    ensures multiset(OnceListeners(s)) <= multiset(Listeners(s))
  {
    if s != [] {
      var init := s[..|s| - 1];
      OnceListenersWithin(init);
      assert Listeners(s) == Listeners(init) + [s[|s| - 1].listener];
    }
  }

  /** When the record just visited by the iterator is the first pending one
      and its listener is deleted by `off`, the record deleted is at or before
      it: every record after it is still there, at the end of the Set. */
  lemma RemovalBehindCursor(kept: seq<Registration>, pending: seq<Registration>)
    requires pending != []
    ensures EndsWith(RemoveFirst(kept + pending, pending[0].listener), pending[1..])
  {
    var s := kept + pending;
    assert s[|kept|] == pending[0];
    var k := FirstIndex(s, pending[0].listener).value;
    var r := s[..k] + s[k + 1..];
    assert forall p :: |kept| <= p < |r| ==> r[p] == s[p + 1];
  }

  /** After `emit` has visited the first `i` records of the Set it started
      from, and has pruned the one-shot ones among them, the records it has
      not visited yet are all still in the Set, at its end. */
  lemma {:induction false} PendingSurvives(snapshot: seq<Registration>, i: nat)
    requires i <= |snapshot|
    ensures EndsWith(RemoveEach(snapshot, OnceListeners(snapshot[..i])), snapshot[i..])
  {
    if i == 0 {
      assert snapshot[..0] == [];
    } else {
      var j := i - 1;
      PendingSurvives(snapshot, j);
      PruneStep(snapshot, j);
      assert j + 1 == i;
      var live := RemoveEach(snapshot, OnceListeners(snapshot[..j]));
      var now := RemoveEach(snapshot, OnceListeners(snapshot[..i]));
      var pending := snapshot[j..];
      assert pending[1..] == snapshot[i..];
      if pending[0].once {
        var kept := live[..|live| - |pending|];
        assert live == kept + pending;
        assert [pending[0].listener][..0] == [];
        assert now == RemoveFirst(kept + pending, pending[0].listener);
        RemovalBehindCursor(kept, pending);
      } else {
        assert now == live;
        assert EndsWith(now, pending[1..]);
      }
    }
  }

  /** A record of the live Set ahead of the snapshot's pending records was
      visited already: its id is at most the cursor. */
  lemma KeptIsVisited(snapshot: seq<Registration>, live: seq<Registration>, i: nat, k: nat)
    requires i <= |snapshot| && Ordered(snapshot) && Ordered(live)
    requires multiset(live) <= multiset(snapshot)
    requires EndsWith(live, snapshot[i..])
    requires i == 0 ==> live == snapshot
    requires k < |live| - (|snapshot| - i)
    ensures live[k].id <= Cursor(snapshot, i)
  {
    assert live[k] in multiset(live);
    var j :| 0 <= j < |snapshot| && snapshot[j] == live[k];
    if i < |snapshot| {
      var n := |live| - (|snapshot| - i);
      assert live[n] == snapshot[i];
      assert snapshot[j].id < snapshot[i].id;
    }
    assert j <= i - 1;
  }

  /** Iterating the live Set visits what iterating a snapshot does: with the
      not yet visited records of the snapshot at the end of the live Set, the
      next record the iterator yields is the snapshot's next one, and when the
      snapshot is done so is the iterator. */
  lemma LiveIterationMatchesSnapshot(snapshot: seq<Registration>, live: seq<Registration>, i: nat)
    requires i <= |snapshot| && Ordered(snapshot) && Ordered(live)
    requires multiset(live) <= multiset(snapshot)
    requires EndsWith(live, snapshot[i..])
    requires i == 0 ==> live == snapshot
    ensures NextAfter(live, Cursor(snapshot, i))
            == if i < |snapshot| then Some(|live| - (|snapshot| - i)) else None
  {
    var c := Cursor(snapshot, i);
    var n := |live| - (|snapshot| - i);
    forall k | 0 <= k < n
      ensures live[k].id <= c
    {
      KeptIsVisited(snapshot, live, i, k);
    }
    if i < |snapshot| {
      assert live[n] == snapshot[i];
    }
  }

  /** When no listener has two records, pruning the one-shot records by
      listener removes exactly those records: the persistent ones remain. */
  lemma {:induction false} DistinctPrefix(snapshot: seq<Registration>, i: nat)
    requires i <= |snapshot| && DistinctListeners(snapshot)
    ensures RemoveEach(snapshot, OnceListeners(snapshot[..i])) == Persistent(snapshot[..i]) + snapshot[i..]
  {
    if i == 0 {
      assert snapshot[..0] == [];
    } else {
      var j := i - 1;
      DistinctPrefix(snapshot, j);
      PruneStep(snapshot, j);
      PersistentStep(snapshot, j);
      assert j + 1 == i;
      var r := snapshot[j];
      var p := Persistent(snapshot[..j]);
      var before := RemoveEach(snapshot, OnceListeners(snapshot[..j]));
      var now := RemoveEach(snapshot, OnceListeners(snapshot[..i]));
      assert before == p + snapshot[j..];
      if r.once {
        assert [r.listener][..0] == [];
        assert now == RemoveFirst(before, r.listener);
        OneShotPastPersistent(snapshot, j);
        assert now == p + snapshot[i..];
        assert Persistent(snapshot[..i]) == p;
      } else {
        ShiftFirst(p, snapshot[j..]);
        assert snapshot[j..][1..] == snapshot[i..];
        assert now == (p + [r]) + snapshot[i..];
        assert Persistent(snapshot[..i]) == p + [r];
      }
    }
  }

  /** Moving the first element of `t` to the end of `p`. */
  lemma ShiftFirst(p: seq<Registration>, t: seq<Registration>)
    requires t != []
    ensures p + t == (p + [t[0]]) + t[1..]
  {
    assert t == [t[0]] + t[1..];
  }

  /** Visiting one more record adds it to the persistent ones unless it is
      a one-shot record. */
  lemma PersistentStep(s: seq<Registration>, i: nat)
    requires i < |s|
    ensures Persistent(s[..i + 1]) == Persistent(s[..i]) + (if s[i].once then [] else [s[i]])
  {
    assert s[..i + 1][..i] == s[..i];
  }

  /** With distinct listeners, no persistent record before position `i` has
      the listener of record `i`, so deleting that listener's first record
      deletes record `i` itself. */
  lemma OneShotPastPersistent(snapshot: seq<Registration>, i: nat)
    requires i < |snapshot| && DistinctListeners(snapshot)
    ensures RemoveFirst(Persistent(snapshot[..i]) + snapshot[i..], snapshot[i].listener)
            == Persistent(snapshot[..i]) + snapshot[i + 1..]
  {
    var p := Persistent(snapshot[..i]);
    PersistentWithin(snapshot[..i]);
    forall j | 0 <= j < |p|
      ensures p[j].listener != snapshot[i].listener
    {
      assert p[j] in snapshot[..i];
      var j' :| 0 <= j' < i && snapshot[j'] == p[j];
    }
    RemoveFirstPastPrefix(p, snapshot[i..]);
    assert snapshot[i..][1..] == snapshot[i + 1..];
  }

  /** Visiting one more record of the snapshot: a one-shot record adds its
      listener to the ones deleted, a persistent record changes nothing. */
  lemma PruneStep(snapshot: seq<Registration>, i: nat)
    requires i < |snapshot|
    ensures var before := RemoveEach(snapshot, OnceListeners(snapshot[..i]));
            RemoveEach(snapshot, OnceListeners(snapshot[..i + 1]))
            == if snapshot[i].once then RemoveEach(before, [snapshot[i].listener]) else before
    ensures OnceListeners(snapshot[..i + 1]) == [] <==> OnceListeners(snapshot[..i]) == [] && !snapshot[i].once
  {
    var prev := OnceListeners(snapshot[..i]);
    var r := snapshot[i];
    var before := RemoveEach(snapshot, prev);
    var t := snapshot[..i + 1];
    assert t[..|t| - 1] == snapshot[..i] && t[|t| - 1] == r;
    if r.once {
      var ls := prev + [r.listener];
      assert OnceListeners(t) == ls;
      assert ls[..|ls| - 1] == prev && ls[|ls| - 1] == r.listener;
      assert RemoveEach(snapshot, ls) == RemoveFirst(before, r.listener);
      assert [r.listener][..0] == [];
      assert RemoveEach(before, [r.listener]) == RemoveFirst(before, r.listener);
    } else {
      assert OnceListeners(t) == prev;
    }
  }

  /** Deleting the first record of `t[0]`'s listener when no record of `p`
      has that listener deletes `t[0]`. */
  lemma RemoveFirstPastPrefix(p: seq<Registration>, t: seq<Registration>)
    requires t != []
    requires forall j :: 0 <= j < |p| ==> p[j].listener != t[0].listener
    ensures RemoveFirst(p + t, t[0].listener) == p + t[1..]
  {
    var s := p + t;
    assert s[|p|] == t[0];
    assert FirstIndex(s, t[0].listener) == Some(|p|);
    assert s[..|p|] == p && s[|p| + 1..] == t[1..];
  }

  /** Every persistent record of `s` is a record of `s`. */
  lemma {:induction false} PersistentWithin(s: seq<Registration>)
    ensures forall r :: r in Persistent(s) ==> r in s
  {
    if s != [] {
      PersistentWithin(s[..|s| - 1]);
    }
  }

  /** A one-shot record deletes itself when no listener has two records. */
  lemma OneShotsRemovedWhenListenersDistinct(snapshot: seq<Registration>)
    requires DistinctListeners(snapshot)
    ensures RemoveEach(snapshot, OnceListeners(snapshot)) == Persistent(snapshot)
  {
    DistinctPrefix(snapshot, |snapshot|);
    assert snapshot[..|snapshot|] == snapshot;
  }
}
