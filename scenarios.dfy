/** Uses of the emitter, stated as methods on a given emitter. */
module Scenarios {
  import opened Registrations
  import opened Registry
  import opened Emitter

  /** Subscribing the same listener twice under one name makes two distinct
      records, and one `emit` calls the listener once for each. */
  method SubscribeTwiceEmitsTwice(e: EventEmitter, evt: EventName, l: ListenerRef)
    returns (trace: seq<Registration>)
    requires e.Valid()
    modifies e
    ensures |trace| >= 2 && trace[..|trace| - 2] == Registered(old(e.listeners), evt)
    ensures trace[|trace| - 2].listener == l && trace[|trace| - 1].listener == l
    ensures trace[|trace| - 2] != trace[|trace| - 1]
  {
    e.On(evt, l, false);
    e.On(evt, l, false);
    trace := e.Emit(evt);
    assert trace == Registered(old(e.listeners), evt) + [Registration(old(e.nextId), l, false)]
                    + [Registration(old(e.nextId) + 1, l, false)];
  }

  /** `once(evt, l)` then `emit(evt)` twice, on a name with no records:
      the first `emit` calls `l` once, the second calls nothing, and the
      name is gone afterwards. */
  method OnceFiresOnce(e: EventEmitter, evt: EventName, l: ListenerRef)
    returns (first: seq<Registration>, second: seq<Registration>)
    requires e.Valid() && !e.CheckExist(evt)
    modifies e
    ensures |first| == 1 && first[0].listener == l && first[0].once
    ensures e.Valid() && second == [] && !e.CheckExist(evt)
  {
    e.Once(evt, l);
    first := e.Emit(evt);
    assert OnceListeners([first[0]]) == [l];
    assert FirstIndex([first[0]], l) == Some(0);
    assert RemoveEach([first[0]], [l]) == RemoveFirst([first[0]], l) == [];
    assert !e.CheckExist(evt);
    second := e.Emit(evt);
  }

  /** A one-shot record prunes the first record of its listener: with a
      persistent record of `l` ahead of it, `emit` calls `l` twice and
      deletes the persistent record, keeping the one-shot one. */
  method OneShotPrunesEarlierRecord(e: EventEmitter, evt: EventName, l: ListenerRef)
    returns (trace: seq<Registration>)
    requires e.Valid() && !e.CheckExist(evt) && evt != ""
    modifies e
    ensures |trace| == 2 && !trace[0].once && trace[1].once
    ensures e.Valid() && e.CheckExist(evt) && e.listeners[evt] == [trace[1]]
  {
    e.On(evt, l, false);
    e.Once(evt, l);
    trace := e.Emit(evt);
    var s := [Registration(old(e.nextId), l, false), Registration(old(e.nextId) + 1, l, true)];
    assert trace == s;
    assert s[..1] == [s[0]] && OnceListeners([s[0]]) == [];
    assert OnceListeners(s) == [l];
    assert FirstIndex(s, l) == Some(0);
    assert RemoveEach(s, [l]) == RemoveFirst(s, l) == [s[1]];
  }

  /** `emit("")` with a one-shot record calls `off("", l)`, and `""` is a
      falsy name: every event loses its records, not only `""`. */
  method EmptyNameOneShotClearsAll(e: EventEmitter, other: EventName, l: ListenerRef)
    returns (trace: seq<Registration>)
    requires e.Valid() && !e.CheckExist("") && other != ""
    modifies e
    ensures |trace| == 1 && trace[0].once
    ensures e.listeners == map[]
  {
    e.On(other, l, false);
    e.Once("", l);
    trace := e.Emit("");
    assert OnceListeners(trace) == [l];
  }
}
