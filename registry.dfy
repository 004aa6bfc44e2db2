/** The emitter's registry as a value: event name to the records of its Set,
    and the registry each mutating operation leaves behind. */
module Registry {
  import opened Registrations

  type EventName = string

  /** Event name to the records of its Set, in insertion order. */
  type ListenerMap = map<EventName, seq<Registration>>

  /** The registry invariant: no event name maps to an empty Set, and each
      Set holds distinct records, in insertion order, all created before the
      id counter reached `bound`. */
  ghost predicate WellFormed(m: ListenerMap, bound: nat) {
    forall e :: e in m ==> m[e] != [] && Ordered(m[e]) && Below(m[e], bound)
  }

  /** The records of `e`; none when `e` is not a key. */
  function Registered(m: ListenerMap, e: EventName): (s: seq<Registration>) {
    if e in m then m[e] else []
  }

  /** The registry with `s` as the records of `e`, the key deleted when `s`
      is empty (the `if(!listeners.size)` step of `off`). */
  function Install(m: ListenerMap, e: EventName, s: seq<Registration>): (r: ListenerMap)
    ensures Registered(r, e) == s && (e in r <==> s != [])
    ensures forall e' :: e' != e ==> Registered(r, e') == Registered(m, e')
  {
    if s == [] then m - {e} else m[e := s]
  }

  /** JavaScript's `!evt` for an event-name argument: missing or `""`. */
  predicate Falsy(evt: Option<EventName>) {
    evt.None? || evt.value == ""
  }

  /** The registry after `emit(e)`. Each one-shot record visited calls
      `off(e, listener)`: for a name other than `""` that deletes the first
      record of that listener; for `""`, a falsy name, it clears the whole
      registry. */
  function AfterEmit(m: ListenerMap, e: EventName): (r: ListenerMap)
    ensures e != "" ==> forall e' :: e' != e ==> Registered(r, e') == Registered(m, e')
  {
    if e !in m then m
    else if e == "" then (if OnceListeners(m[e]) == [] then m else map[])
    else Install(m, e, RemoveEach(m[e], OnceListeners(m[e])))
  }

  /** `on(e, l, once)` keeps the registry invariant: the new record, created
      with the counter's current value, goes to the end of the Set of `e`. */
  lemma AppendWellFormed(m: ListenerMap, e: EventName, r: Registration, bound: nat)
    requires WellFormed(m, bound) && r.id == bound
    ensures WellFormed(m[e := Registered(m, e) + [r]], bound + 1)
  {
    var s := Registered(m, e) + [r];
    assert forall x :: x in s ==> x in Registered(m, e) || x == r;
    assert forall i :: 0 <= i < |s| - 1 ==> s[i] in Registered(m, e);
  }

  /** Storing records for a present key twice is storing the second ones. */
  lemma InstallTwice(m: ListenerMap, e: EventName, a: seq<Registration>, b: seq<Registration>)
    requires a != []
    ensures Install(Install(m, e, a), e, b) == Install(m, e, b)
  {
  }

  /** `off(e, l1, ..., ln)` on a present name keeps the registry invariant:
      the key goes away with its last record, and the surviving records stay
      in insertion order. */
  lemma RemoveListenersWellFormed(m: ListenerMap, e: EventName, ls: seq<ListenerRef>, bound: nat)
    requires WellFormed(m, bound) && e in m
    ensures WellFormed(Install(m, e, RemoveEach(m[e], ls)), bound)
  {
    var s := RemoveEach(m[e], ls);
    RemoveEachSublist(m[e], ls);
    forall r | r in s
      ensures r.id < bound
    {
      assert r in multiset(s);
    }
  }

  /** `emit` keeps the registry invariant. */
  lemma AfterEmitWellFormed(m: ListenerMap, e: EventName, bound: nat)
    requires WellFormed(m, bound)
    ensures WellFormed(AfterEmit(m, e), bound)
  {
    if e in m && e != "" {
      RemoveListenersWellFormed(m, e, OnceListeners(m[e]), bound);
    }
  }

  /** Under a name other than `""`, each one-shot record visited by `emit`
      deletes exactly one record of its listener (not necessarily itself):
      the number of records a listener keeps is the number it had less the
      number of its one-shot records. */
  lemma EmitPrunesOnePerOneShot(m: ListenerMap, e: EventName)
    requires e in m && e != ""
    ensures multiset(Listeners(Registered(AfterEmit(m, e), e))) + multiset(OnceListeners(m[e]))
            == multiset(Listeners(m[e]))
  {
    RemoveEachListeners(m[e], OnceListeners(m[e]));
    OnceListenersWithin(m[e]);
  }

  /** Under a name other than `""`, when no listener of `e` is registered
      twice, `emit` leaves exactly the persistent records of `e`. */
  lemma EmitKeepsPersistentWhenDistinct(m: ListenerMap, e: EventName)
    requires e in m && e != "" && DistinctListeners(m[e])
    ensures Registered(AfterEmit(m, e), e) == Persistent(m[e])
  {
    OneShotsRemovedWhenListenersDistinct(m[e]);
  }
}
