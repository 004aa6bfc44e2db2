# EventEmitter, modelled and verified in Dafny

This project models the `EventEmitter` class in `index.js`. The class is an
in-memory publish/subscribe registry. Its field `listeners` is a `Map` from
an event name to a `Set` of records `{listener, once}`.

- `on` appends a new record to an event's Set.
- `once` does the same with the one-shot flag set.
- `off` either clears the Map, deletes one name, or deletes records by
  listener.
- `emit` walks the live Set of a name. After each one-shot record it
  calls `off(evt, listener)`.

The model is one Dafny class, `Emitter.EventEmitter`.

- Its field `listeners` is a `ListenerMap`, a `map<string, seq<Registration>>`. Each sequence
  holds a Set's records in insertion order.
- Its field `nextId` is a counter. Each `on` gives its new record the next
  id. The id stands for the object identity of the record that `on`
  creates.
- Listeners are opaque numbers. They are compared only for identity, as
  `===` does.
- `emit` does not call anything. It returns the records whose listeners it
  would call, in order.

The modules follow that split.

- `Registrations` covers the records of one Set:
  - the listener scan of `off` as a method with a loop, specified by
    `FirstIndex`;
  - deletion by listener;
  - one step of a Set iterator;
  - the lemmas that iterating the live Set while `off` deletes from it
    visits exactly the records a snapshot would.
- `Registry` covers the whole Map as a value:
  - its invariant: no name maps to an empty Set, and ids increase along
    each Set;
  - `AfterEmit`, the registry that `emit` leaves behind;
  - the lemmas about it.
- `Emitter` is the class. Its methods change `listeners` and `nextId` in
  place, and their contracts state the new state in terms of the old one.
- `Scenarios` holds uses of the emitter, stated as methods on a given
  emitter. Each has a contract.

How `emit` iterates: JavaScript Set iteration visits entries in insertion
order. Entries deleted before they are reached are skipped. The model
iterates the live Set with a cursor, which is the id of the record it
visited last. The next record is the first one whose id is larger
(`NextAfter`). The proof shows two things:

- the record `off` deletes is never one that has not been visited yet;
- the loop therefore visits every record present at the start, once each,
  in insertion order.

Four behaviours of the code that are easy to miss:

- **`off(evt, l1, …)` on a name with no Set.** `this.listeners.get(evt)` is
  `undefined` there, so the first `for...of` over it throws a `TypeError`
  before anything changes. The model returns `Outcome.TypeError` and leaves
  the state unchanged.
- **Which record a one-shot record removes.** After calling a one-shot
  record, `emit` calls `off(evt, target.listener)`. That deletes the FIRST
  record of the listener, which may be an earlier persistent record of the
  same listener. The one-shot record then stays
  (`OneShotPrunesEarlierRecord`). A one-shot record deletes itself when no
  listener of the event has two records
  (`OneShotsRemovedWhenListenersDistinct`).
- **Live Set versus snapshot.** `emit` iterates the live Set while `off`
  deletes from it. Iterating the live Set is proved equal to iterating a
  snapshot taken at the start (`LiveIterationMatchesSnapshot`,
  `PendingSurvives`).
- **The name `""`.** `""` is falsy. `emit("")` with a one-shot record calls
  `off("", listener)`, and that clears the whole Map. Every event loses its
  records. The Set being iterated is detached from the Map but keeps its
  entries, so the loop still visits all of them
  (`EmptyNameOneShotClearsAll`). Inside `emit`, `off` never throws: `Visit`
  asserts that its outcome is `Done`.

## Model

| member | source | states |
|---|---|---|
| Emitter.EventEmitter.constructor | index.js:10-12 | a new emitter has an empty registry, which meets the registry invariant |
| Emitter.EventEmitter.CheckExist | index.js:18-20 | true exactly when the name has records; it reads the state and changes nothing |
| Emitter.EventEmitter.On | index.js:27-39 | appends exactly one new record `{listener, once}` with a fresh id at the end of the name's Set, creating the Set when the name has none; every other name is unchanged; the registry invariant is kept |
| Emitter.EventEmitter.Once | index.js:46-49 | has the same effect as `on` with the one-shot flag set |
| Emitter.EventEmitter.Off | index.js:65-93 | a missing or falsy name empties the registry; a name without listeners deletes only that name's key, and changes nothing if it is absent; with listeners, a name without a Set gives TypeError and no change; otherwise each listener in turn loses its first record, and the key goes when its Set empties; the invariant is kept |
| Emitter.DeleteEach | index.js:74-85 | the `list.map` loop of `off` leaves exactly the Set that deleting the first record of each listener in turn describes |
| Registrations.FindTarget | index.js:75-81 | the `for...of`/`break` scan returns the position of the first record whose listener is the given one, or none |
| Registrations.RemoveFirst | index.js:75-84 | deleting by listener shortens the Set by one record exactly when the scan finds a record of the listener, and otherwise returns the Set unchanged |
| Registrations.RemoveEach | index.js:74-85 | `list.map` over the listeners given: the Set loses at most one record per listener given, and never grows |
| Registry.Install | index.js:87-89 | storing a name's remaining records: the name reads back exactly those records, its key exists exactly when they are not empty, and every other name is unchanged |
| Registrations.FirstIndex | index.js:75-81 | the position found holds the listener and no earlier record does; none means no record holds it |
| Registrations.RemoveFirstChanges | index.js:82-84 | deleting by listener changes the Set exactly when the listener has a record, and then deletes one record |
| Registrations.RemoveFirstListeners | index.js:75-84 | deleting by listener takes exactly one occurrence of that listener away, or nothing if it has none |
| Registrations.RemoveEachListeners | index.js:74-85 | `off(evt, l1..ln)` removes one record per listener given that has one, and no record of any other listener |
| Registrations.RemoveEachSublist | index.js:74-85 | the records left are records of the original Set, still in insertion order |
| Registry.RemoveListenersWellFormed | index.js:72-89 | deleting by listener and then dropping an emptied key keeps the invariant: no key maps to an empty Set, and ids stay ordered |
| Registry.AppendWellFormed | index.js:34-37 | appending a record with the counter's id keeps the invariant with the counter advanced |
| Registrations.NextAfter | index.js:104 | a Set iterator's step yields the first record inserted after the last one visited, or nothing if there is none |
| Registrations.RemovalBehindCursor | index.js:104-108 | when the record just visited is the first pending one, deleting its listener's first record deletes a record at or before it, so every later record stays at the end of the Set |
| Registrations.PendingSurvives | index.js:104-108 | after the first `i` records are visited and their one-shot records are pruned, every record not yet visited is still in the live Set, at its end |
| Registrations.LiveIterationMatchesSnapshot | index.js:104 | with the pending records at the end of the live Set, the iterator's next record is the snapshot's next one, and the iterator is done exactly when the snapshot is |
| Emitter.EventEmitter.Visit | index.js:105-108 | one loop step: a one-shot record's call to `off(evt, listener)` moves the Map and the live Set to the state that visiting one more record describes |
| Emitter.EventEmitter.Emit | index.js:102-112 | an absent name gives no calls and no change; otherwise each record present at the start is visited exactly once, in insertion order, and the registry ends as `AfterEmit` describes; the invariant is kept |
| Registry.AfterEmit | index.js:102-112 | for a name other than `""`, `emit` changes no other event's records |
| Registry.AfterEmitWellFormed | index.js:102-112 | the registry after `emit` meets the invariant |
| Registry.EmitPrunesOnePerOneShot | index.js:104-108 | under a name other than `""`, the listeners left are the original ones minus one occurrence per one-shot record visited |
| Registrations.OnceListenersWithin | index.js:106-107 | every listener that `emit` passes to `off` has a record in the Set |
| Registry.EmitKeepsPersistentWhenDistinct | index.js:104-108 | under a name other than `""`, when no listener is registered twice, `emit` leaves exactly the persistent records, in order |
| Registrations.OneShotsRemovedWhenListenersDistinct | index.js:104-108 | with distinct listeners, pruning by listener deletes exactly the one-shot records |
| Scenarios.SubscribeTwiceEmitsTwice | index.js:27-37 | subscribing one listener twice makes two distinct records, and one `emit` visits both |
| Scenarios.OnceFiresOnce | index.js:102-109 | on a name with no records, `once` followed by two `emit`s visits the listener once in total, and the name is gone afterwards |
| Scenarios.OneShotPrunesEarlierRecord | index.js:106-107 | a persistent record followed by a one-shot record of the same listener: `emit` visits both and deletes the persistent one, keeping the one-shot one |
| Scenarios.EmptyNameOneShotClearsAll | index.js:106-107 | `emit("")` with a one-shot record clears every event's records |

## Left out

- Calling listeners is not modelled, and neither are their arguments
  `...args`, their return values or the exceptions they throw. `emit`
  returns the trace of records it would call. An exception that aborts
  `emit` part-way is an effect of foreign code, so it is left out.
- Re-entrancy is not modelled. A listener could call `on`, `off` or `emit`
  on the same emitter during dispatch. The listeners are opaque, so their
  effects cannot be modelled. Entries added to a Set during its own
  iteration therefore never arise in the model.
- The `return this` chaining of `on`, `once`, `off` and `emit` is left out.
  It returns this same emitter and carries no state of its own.
- JavaScript truthiness is reduced to these cases:
  - the `once` argument of `on` is a `bool`;
  - the name given to `off` is `Option<string>`, with `None` for a call
    without arguments;
  - only `None` and `""` count as falsy.

  Other falsy or non-string names (`0`, `null`, `false`, `NaN`) are not
  modelled, and neither are non-string `Map` keys.
- Object identity is modelled by numbers:
  - records get ids from the `nextId` counter;
  - listeners are opaque numbers.
- Each `Set` object is modelled as a value, the sequence stored under its
  name. `Emitter.EventEmitter.Emit` keeps its own copy `live` of the Set it
  iterates. After `off`, it rereads that copy from the Map: a Set that `off`
  emptied, and whose key it deleted, reads as empty. Under the falsy name
  `""`, `off` cleared the Map, and the copy is kept unchanged. That is how
  the Set object's aliasing is captured.
