/** The `EventEmitter` class: a Map from event name to the Set of
    `{listener, once}` records of that event. */
module Emitter {
  import opened Registrations
  import opened Registry

  /** How a call to `off` ends: normally, or with the TypeError that
      `for...of` over `undefined` throws. */
  datatype Outcome = Done | TypeError

  class EventEmitter {
    /** `this.listeners`: event name to the records of that event's Set. */
    var listeners: ListenerMap
    /** The id the next record gets; stands for allocating a fresh object. */
    var nextId: nat

    /** No event maps to an empty Set; each Set holds distinct records in
      insertion order, all allocated before now. */
    ghost predicate Valid()
      reads this
    {
      WellFormed(listeners, nextId)
    }

    constructor ()
      ensures Valid() && listeners == map[] && nextId == 0
    {
      listeners := map[];
      nextId := 0;
    }

    /** `checkExist`: whether `evt` has any record. */
    function CheckExist(evt: EventName): (b: bool)
      reads this
      requires Valid()
      ensures b <==> Registered(listeners, evt) != []
    {
      evt in listeners
    }

    /** `on`: appends a fresh record for `listener` to the Set of `evt`,
      creating the Set when `evt` has none. Nothing else changes. */
    method On(evt: EventName, listener: ListenerRef, once: bool)
      requires Valid()
      modifies this
      ensures Valid() && nextId == old(nextId) + 1
      ensures listeners == old(listeners)[evt := Registered(old(listeners), evt) + [Registration(old(nextId), listener, once)]]
    {
      var data := Registration(nextId, listener, once);
      if !CheckExist(evt) {
        listeners := listeners[evt := []];
      }
      listeners := listeners[evt := listeners[evt] + [data]];
      AppendWellFormed(old(listeners), evt, data, nextId);
      nextId := nextId + 1;
    }

    /** `once`: `on` with the one-shot flag set. */
    method Once(evt: EventName, listener: ListenerRef)
      requires Valid()
      modifies this
      ensures Valid() && nextId == old(nextId) + 1
      ensures listeners == old(listeners)[evt := Registered(old(listeners), evt) + [Registration(old(nextId), listener, true)]]
    {
      On(evt, listener, true);
    }

    /** `off(evt, ...list)`, with `None` for a call without arguments.
      A falsy name clears the registry; a name alone deletes its key; a name
      with listeners deletes, for each listener in turn, its first record,
      and then the key if the Set is left empty. */
    method Off(evt: Option<EventName>, list: seq<ListenerRef>) returns (outcome: Outcome)
      requires Valid()
      modifies this
      ensures Valid() && nextId == old(nextId)
      ensures Falsy(evt) ==> outcome == Done && listeners == map[]
      ensures !Falsy(evt) && list == [] ==>
                outcome == Done && listeners == old(listeners) - {evt.value}
      ensures !Falsy(evt) && list != [] && evt.value !in old(listeners) ==>
                outcome == TypeError && listeners == old(listeners)
      ensures !Falsy(evt) && list != [] && evt.value in old(listeners) ==>
                outcome == Done
                && listeners == Install(old(listeners), evt.value, RemoveEach(old(listeners)[evt.value], list))
    {
      outcome := Done;
      if Falsy(evt) {
        listeners := map[];
      } else if list == [] {
        listeners := listeners - {evt.value};
      } else if evt.value !in listeners {
        // `listeners` is `undefined`: the first `for...of` throws before any change.
        outcome := TypeError;
      } else {
        RemoveListenersWellFormed(listeners, evt.value, list, nextId);
        var rest := DeleteEach(listeners[evt.value], list);
        listeners := listeners[evt.value := rest];
        if rest == [] {
          listeners := listeners - {evt.value};
        }
      }
    }

    /** `emit(evt)`: iterates the live Set of `evt` and returns the records
      whose listeners it calls, in order; after calling a one-shot record's
      listener it calls `off(evt, listener)`. Every record present at the
      start is visited once, in insertion order, as if a snapshot had been
      iterated. */
    method Emit(evt: EventName) returns (trace: seq<Registration>)
      requires Valid()
      modifies this
      ensures Valid() && nextId == old(nextId)
      ensures trace == Registered(old(listeners), evt)
      ensures listeners == AfterEmit(old(listeners), evt)
    {
      trace := [];
      if CheckExist(evt) {
        // The Set object the `for...of` iterates, and its entries as they change.
        var live := listeners[evt];
        ghost var snapshot := live;
        var cursor: int := -1;
        var next := NextAfter(live, cursor);
        assert snapshot[..0] == [];
        while next.Some?
          invariant Valid() && nextId == old(nextId) && snapshot == Registered(old(listeners), evt)
          invariant Iterating(old(listeners), evt, trace, cursor, live, listeners)
          invariant next == NextAfter(live, cursor)
          decreases |snapshot| - |trace|
        {
          ghost var (trace0, cursor0, live0, before) := (trace, cursor, live, listeners);
          IteratingNext(old(listeners), evt, trace, cursor, live, listeners);
          var target := live[next.value];
          trace := trace + [target];
          cursor := target.id;
          live := Visit(evt, target, live, old(listeners), |trace0|);
          Advance(old(listeners), evt, trace0, cursor0, live0, before, live, listeners);
          next := NextAfter(live, cursor);
        }
        IteratingDone(old(listeners), evt, trace, cursor, live, listeners);
      }
    }

    /** One step of `emit`'s loop, once the listener of `target`, the
      `i`-th record of the Set `m0` gave `evt`, has been called: a one-shot
      record calls `off(evt, listener)`. Returns the live Set afterwards:
      `off` deleted from it under a name other than `""`, and under `""`
      cleared the Map instead, leaving the Set as it was. */
    method Visit(evt: EventName, target: Registration, live: seq<Registration>,
                 ghost m0: ListenerMap, ghost i: nat) returns (live2: seq<Registration>)
      requires Valid() && Visited(m0, evt, i, live, listeners)
      requires Ordered(m0[evt]) && i < |m0[evt]| && target == m0[evt][i]
      modifies this
      ensures Valid() && nextId == old(nextId)
      ensures Visited(m0, evt, i + 1, live2, listeners)
    {
      ghost var before := listeners;
      live2 := live;
      if target.once {
        IteratorAtPending(m0[evt], live, i);
        var outcome := Off(Some(evt), [target.listener]);
        // The Set of `evt` still holds `target`, so `off` does not throw here.
        assert outcome == Done;
        if evt != "" {
          live2 := Registered(listeners, evt);
        }
      }
      VisitStep(m0, evt, i, live, before, live2, listeners);
    }
  }

  /** The `list.map(...)` loop of `off`: for each listener in turn, the scan
    finds its first record and `delete` removes that record from the Set. */
  method DeleteEach(entries: seq<Registration>, list: seq<ListenerRef>) returns (rest: seq<Registration>)
    ensures rest == RemoveEach(entries, list)
  {
    rest := entries;
    var j := 0;
    while j < |list|
      invariant 0 <= j <= |list|
      invariant rest == RemoveEach(entries, list[..j])
    {
      var target := FindTarget(rest, list[j]);
      if target.Some? {
        rest := rest[..target.value] + rest[target.value + 1..];
      }
      assert list[..j + 1][..j] == list[..j];
      j := j + 1;
    }
    assert list[..|list|] == list;
  }

  /** The facts about the live Set that `emit`'s loop reads off
    LiveIterationMatchesSnapshot: the iterator's next record is the
    snapshot's `i`-th, or there is none when the snapshot is done. */
  lemma IteratorAtPending(snapshot: seq<Registration>, live: seq<Registration>, i: nat)
    requires Ordered(snapshot) && i <= |snapshot|
    requires live == RemoveEach(snapshot, OnceListeners(snapshot[..i])) || live == snapshot
    ensures NextAfter(live, Cursor(snapshot, i))
            == if i < |snapshot| then Some(|live| - (|snapshot| - i)) else None
    ensures i < |snapshot| ==> live[|live| - (|snapshot| - i)] == snapshot[i]
  {
    RemoveEachSublist(snapshot, OnceListeners(snapshot[..i]));
    PendingSurvives(snapshot, i);
    if live == snapshot {
      assert EndsWith(live, snapshot[i..]);
    }
    if i == 0 {
      assert snapshot[..0] == [];
    }
    LiveIterationMatchesSnapshot(snapshot, live, i);
    if i < |snapshot| {
      assert live[|live| - (|snapshot| - i)..][0] == snapshot[i..][0];
    }
  }

  /** Where `emit(evt)` stands once the first `i` records of the Set `m0`
    gave `evt` have been visited: `live` is the Set being iterated and `m`
    the Map. Under a name other than `""` each one-shot record visited so far
    has deleted the first record of its listener from `live`; under `""` the
    Set is untouched and the Map is cleared from the first one-shot record on. */
  ghost predicate Visited(m0: ListenerMap, evt: EventName, i: nat, live: seq<Registration>, m: ListenerMap)
  {
    evt in m0 && i <= |m0[evt]| &&
    var snapshot := m0[evt];
    if evt != "" then
      live == RemoveEach(snapshot, OnceListeners(snapshot[..i])) && m == Install(m0, evt, live)
    else
      live == snapshot && m == (if OnceListeners(snapshot[..i]) == [] then m0 else map[])
  }

  /** Visiting record `i`, and calling `off(evt, listener)` when it is a
    one-shot record, takes `emit` from `Visited(.., i, ..)` to
    `Visited(.., i + 1, ..)`. The requires on `m2` are those `Off` ensures. */
  lemma VisitStep(m0: ListenerMap, evt: EventName, i: nat, live: seq<Registration>, m: ListenerMap,
                  live2: seq<Registration>, m2: ListenerMap)
    requires Visited(m0, evt, i, live, m) && i < |m0[evt]| && Ordered(m0[evt])
    requires !m0[evt][i].once ==> live2 == live && m2 == m
    requires m0[evt][i].once && evt == "" ==> live2 == live && m2 == map[]
    requires m0[evt][i].once && evt != "" ==> live2 == Registered(m2, evt)
    requires m0[evt][i].once && evt != "" && evt in m ==>
               m2 == Install(m, evt, RemoveEach(m[evt], [m0[evt][i].listener]))
    requires m0[evt][i].once && evt != "" && evt !in m ==> m2 == m
    ensures Visited(m0, evt, i + 1, live2, m2)
  {
    var snapshot := m0[evt];
    PruneStep(snapshot, i);
    if evt != "" && snapshot[i].once {
      IteratorAtPending(snapshot, live, i);
      assert live != [] && m[evt] == live;
      var rest := RemoveEach(live, [snapshot[i].listener]);
      InstallTwice(m0, evt, live, rest);
      assert Registered(Install(m0, evt, rest), evt) == rest;
    }
  }

  /** Where the loop of `emit(evt)` stands: `trace` holds the records
    visited so far, the first ones of the Set `m0` gave `evt`, and the cursor
    is the id of the last of them. */
  ghost predicate Iterating(m0: ListenerMap, evt: EventName, trace: seq<Registration>, cursor: int,
                            live: seq<Registration>, m: ListenerMap)
  {
    evt in m0 && Ordered(m0[evt]) && |trace| <= |m0[evt]| && trace == m0[evt][..|trace|]
    && cursor == Cursor(m0[evt], |trace|) && Visited(m0, evt, |trace|, live, m)
  }

  /** While records remain, the iterator of the live Set is at the next one
    of the snapshot; when none remain, it is done. */
  lemma IteratingNext(m0: ListenerMap, evt: EventName, trace: seq<Registration>, cursor: int,
                      live: seq<Registration>, m: ListenerMap)
    requires Iterating(m0, evt, trace, cursor, live, m)
    ensures NextAfter(live, cursor)
            == if |trace| < |m0[evt]| then Some(|live| - (|m0[evt]| - |trace|)) else None
    ensures |trace| < |m0[evt]| ==> live[|live| - (|m0[evt]| - |trace|)] == m0[evt][|trace|]
  {
    IteratorAtPending(m0[evt], live, |trace|);
  }

  /** Visiting the next record of the snapshot, with `live2` and `m2` the
    Set and Map that `Visit` leaves, takes the loop one step on. */
  lemma Advance(m0: ListenerMap, evt: EventName, trace: seq<Registration>, cursor: int,
                live: seq<Registration>, m: ListenerMap, live2: seq<Registration>, m2: ListenerMap)
    requires Iterating(m0, evt, trace, cursor, live, m) && |trace| < |m0[evt]|
    requires Visited(m0, evt, |trace| + 1, live2, m2)
    ensures Iterating(m0, evt, trace + [m0[evt][|trace|]], m0[evt][|trace|].id, live2, m2)
  {
    PrefixStep(m0[evt], |trace|);
  }

  /** When the iterator is done, every record of the snapshot has been
    visited and the Map is the registry `AfterEmit` describes. */
  lemma IteratingDone(m0: ListenerMap, evt: EventName, trace: seq<Registration>, cursor: int,
                      live: seq<Registration>, m: ListenerMap)
    requires Iterating(m0, evt, trace, cursor, live, m)
    requires NextAfter(live, cursor).None?
    ensures trace == m0[evt] && m == AfterEmit(m0, evt)
  {
    IteratingNext(m0, evt, trace, cursor, live, m);
    assert m0[evt][..|m0[evt]|] == m0[evt];
  }

  /** Extending a prefix of `s` by the next element. */
  lemma PrefixStep(s: seq<Registration>, i: nat)
    requires i < |s|
    ensures s[..i + 1] == s[..i] + [s[i]]
  {
  }
}
