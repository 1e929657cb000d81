/**
 * The listener registry of `util/event/EventHandler.kt`: a map from id to
 * listener, a shared id counter, registration, removal, lookup and the
 * dispatch pass `run`.
 *
 * The source's counter `idCount` lives in a companion object and is never
 * written, so every registration is keyed `idCount + 1 == 1` and replaces the
 * previous entry.  The model keeps that behaviour (`Numbering.AsWritten`) and,
 * beside it, the evidently intended numbering (`Numbering.Incrementing`), in
 * which each registration advances the counter.
 */
module EventHandler {
  import opened Wrappers

  /** `EventListener` or its Kotlin-lambda subclass `KEventListener`. */
  datatype Kind = Plain | KotlinLambda

  /**
   * What a listener's callback does to the handler it is registered with
   * while it runs (registering and removing from inside a callback is allowed).
   */
  datatype Op =
    | DoOnce(listener: Listener)
    | DoPersistent(listener: Listener)
    | RemoveListener(id: int)

  /**
   * A listener.  `tag` tells callbacks apart; `body` is what its callback does
   * to the handler, and `throws` says whether it then raises an exception.
   */
  datatype Listener = Listener(tag: nat, kind: Kind, id: int, persistent: bool, body: seq<Op>, throws: bool)

  /** How ids are handed out: as the source does it, or with the counter advanced. */
  datatype Numbering = AsWritten | Incrementing

  /**
   * The listener map `internalListeners` together with the counter `idCount`.
   * In the source the counter is a companion field that every handler shares;
   * here each handler carries its own.  As written nothing ever writes it, so
   * the difference is invisible; under `Incrementing` numbering the facts that
   * the counter advances once per registration assume no other handler
   * registers in between.
   */
  datatype Handler = Handler(listeners: map<int, Listener>, idCount: int)

  /** What a dispatch pass records: a listener invoked, or its exception logged. */
  datatype Event = Invoked(listener: Listener) | ErrorLogged(id: int)

  /** A freshly constructed handler (`idCount` starts at 0). */
  const Fresh: Handler := Handler(map[], 0)

  /** Every entry is stored under its own id. */
  ghost predicate WellKeyed(h: Handler) {
    forall k :: k in h.listeners ==> h.listeners[k].id == k
  }

  /** The shape every as-written handler keeps: the only possible key is `idCount + 1`. */
  ghost predicate SingleSlot(h: Handler) {
    WellKeyed(h) && forall k :: k in h.listeners ==> k == h.idCount + 1
  }

  /** The shape every incrementing handler keeps: each key was already handed out. */
  ghost predicate Issued(h: Handler) {
    WellKeyed(h) && forall k :: k in h.listeners ==> k <= h.idCount
  }

  // ---------------------------------------------------------------------------
  // Registration, removal and lookup
  // ---------------------------------------------------------------------------

  /**
   * `doOnce(listener)`: store the listener under `idCount + 1`, set its id to
   * that key and return it.  Only the incrementing numbering writes the counter.
   */
  function Register(h: Handler, l: Listener, n: Numbering): (r: (Handler, int))
    ensures r.1 == h.idCount + 1
    ensures r.1 in r.0.listeners && r.0.listeners[r.1] == l.(id := r.1)
    ensures forall k :: k != r.1 ==> (k in r.0.listeners <==> k in h.listeners)
    ensures forall k :: k != r.1 && k in h.listeners ==> r.0.listeners[k] == h.listeners[k]
    ensures n == AsWritten ==> r.0.idCount == h.idCount
    ensures n == Incrementing ==> r.0.idCount == r.1
  {
    var id := h.idCount + 1;
    var count := if n == Incrementing then id else h.idCount;
    (Handler(h.listeners[id := l.(id := id)], count), id)
  }

  /** Registration stores the new entry under its own id, so a well-keyed registry stays well keyed. */
  lemma RegisterKeepsKeys(h: Handler, l: Listener, n: Numbering)
    requires WellKeyed(h)
    ensures WellKeyed(Register(h, l, n).0)
  {
  }

  /**
   * `doPersistent(listener)`: register exactly as `doOnce` does, then mark the
   * stored listener persistent.  It yields no id.
   */
  function RegisterPersistent(h: Handler, l: Listener, n: Numbering): (r: Handler)
    ensures r == Register(h, l.(persistent := true), n).0
  {
    var (h1, id) := Register(h, l, n);
    h1.(listeners := h1.listeners[id := h1.listeners[id].(persistent := true)])
  }

  /** `doOnce(runnable)` / `doOnce(lambda)`: wrap a callback in a `KEventListener` and register it. */
  function RegisterCallback(h: Handler, tag: nat, body: seq<Op>, throws: bool, n: Numbering): (r: (Handler, int))
    ensures r.1 in r.0.listeners && r.0.listeners[r.1].kind == KotlinLambda
    ensures r.0.listeners[r.1].tag == tag && !r.0.listeners[r.1].persistent
  {
    Register(h, Listener(tag, KotlinLambda, 0, false, body, throws), n)
  }

  /**
   * `removeListener(id)`: drop the entry for `id`, returning what was stored
   * there (Kotlin's `HashMap.remove`).  An absent id changes nothing.
   */
  function Remove(h: Handler, id: int): (r: (Handler, Option<Listener>))
    ensures r.0.listeners.Keys == h.listeners.Keys - {id}
    ensures forall k :: k in r.0.listeners ==> r.0.listeners[k] == h.listeners[k]
    ensures r.0.idCount == h.idCount
    ensures r.1 == (if id in h.listeners then Some(h.listeners[id]) else None)
    ensures id !in h.listeners ==> r.0 == h
  {
    (h.(listeners := h.listeners - {id}), if id in h.listeners then Some(h.listeners[id]) else None)
  }

  /** Removing the same id twice has the effect of removing it once. */
  lemma RemoveIdempotent(h: Handler, id: int)
    ensures Remove(Remove(h, id).0, id).0 == Remove(h, id).0
    ensures Remove(Remove(h, id).0, id).1 == None
  {
    var once := Remove(h, id).0;
    assert id !in once.listeners;
  }

  /** `getListener(id)`. */
  function GetListener(h: Handler, id: int): (r: Option<Listener>)
    ensures r.Some? <==> id in h.listeners
    ensures r.Some? ==> r.value == h.listeners[id]
  {
    if id in h.listeners then Some(h.listeners[id]) else None
  }

  /** `getKListener(id)`: the entry, but only when it is a `KEventListener`. */
  function GetKListener(h: Handler, id: int): (r: Option<Listener>)
    ensures r.Some? <==> id in h.listeners && h.listeners[id].kind == KotlinLambda
    ensures r.Some? ==> r == GetListener(h, id)
  {
    match GetListener(h, id)
    case None => None
    case Some(l) => if l.kind == KotlinLambda then Some(l) else None
  }

  /** A callback registered through the lambda overload is found again by `getKListener`. */
  lemma CallbackIsKListener(h: Handler, tag: nat, body: seq<Op>, throws: bool, n: Numbering)
    ensures var (h', id) := RegisterCallback(h, tag, body, throws, n);
            GetKListener(h', id).Some? && GetKListener(h', id).value.tag == tag
  {
  }

  /** A plain `EventListener` is found by `getListener` but never by `getKListener`. */
  lemma PlainIsNotKListener(h: Handler, l: Listener, n: Numbering)
    requires l.kind == Plain
    ensures var (h', id) := Register(h, l, n);
            GetListener(h', id) == Some(l.(id := id)) && GetKListener(h', id) == None
  {
  }

  // ---------------------------------------------------------------------------
  // The `listeners` snapshot
  // ---------------------------------------------------------------------------

  lemma NoMemberMeansEmpty(s: set<int>)
    ensures (forall k :: k !in s) ==> s == {}
  {
    if forall k :: k !in s {
      assert s == {};
    }
  }

  lemma {:induction false} MinExists(s: set<int>)
    requires s != {}
    ensures exists m :: m in s && forall k :: k in s ==> m <= k
    decreases |s|
  {
    NoMemberMeansEmpty(s);
    var x :| x in s;
    var rest := s - {x};
    if rest == {} {
      assert s == {x};
      assert forall k :: k in s ==> x <= k;
    } else {
      MinExists(rest);
      var m :| m in rest && forall k :: k in rest ==> m <= k;
      var least := if x < m then x else m;
      forall k | k in s
        ensures least <= k
      {
        if k != x {
          assert k in rest;
        }
      }
      assert least in s;
    }
  }

  /** The least key of a non-empty key set. */
  function MinKey(s: set<int>): (m: int)
    requires s != {}
    ensures m in s && forall k :: k in s ==> m <= k
  {
    MinExists(s);
    var m :| m in s && forall k :: k in s ==> m <= k; m
  }

  /** The keys in ascending order. */
  function SortedKeys(s: set<int>): seq<int>
    decreases |s|
  {
    if s == {} then [] else var m := MinKey(s); [m] + SortedKeys(s - {m})
  }

  /** `SortedKeys` lists every key exactly once, in ascending order. */
  lemma SortedKeysSpec(s: set<int>)
    ensures |SortedKeys(s)| == |s|
    ensures forall i :: 0 <= i < |SortedKeys(s)| ==> SortedKeys(s)[i] in s
    ensures forall k :: k in s ==> k in SortedKeys(s)
    ensures forall i :: 0 < i < |SortedKeys(s)| ==> SortedKeys(s)[i - 1] < SortedKeys(s)[i]
  {
    SortedKeysMembers(s);
    SortedKeysCover(s);
    SortedKeysAscending(s);
  }

  lemma {:induction false} SortedKeysMembers(s: set<int>)
    ensures |SortedKeys(s)| == |s|
    ensures forall i :: 0 <= i < |SortedKeys(s)| ==> SortedKeys(s)[i] in s
    decreases |s|
  {
    if s != {} {
      var m := MinKey(s);
      SortedKeysMembers(s - {m});
      var rest := SortedKeys(s - {m});
      assert forall i :: 1 <= i < |SortedKeys(s)| ==> SortedKeys(s)[i] == rest[i - 1];
    }
  }

  lemma {:induction false} SortedKeysCover(s: set<int>)
    ensures forall k :: k in s ==> k in SortedKeys(s)
    decreases |s|
  {
    if s != {} {
      var m := MinKey(s);
      SortedKeysCover(s - {m});
      var rest := SortedKeys(s - {m});
      forall k | k in s
        ensures k in SortedKeys(s)
      {
        if k != m {
          assert k in rest;
        }
      }
    }
  }

  lemma {:induction false} SortedKeysAscending(s: set<int>)
    ensures forall i :: 0 < i < |SortedKeys(s)| ==> SortedKeys(s)[i - 1] < SortedKeys(s)[i]
    decreases |s|
  {
    if s != {} {
      var m := MinKey(s);
      SortedKeysAscending(s - {m});
      SortedKeysMembers(s - {m});
      var rest := SortedKeys(s - {m});
      assert forall i :: 1 <= i < |SortedKeys(s)| ==> SortedKeys(s)[i] == rest[i - 1];
    }
  }

  /**
   * The `listeners` property: the values of the map, copied into an array
   * under the lock.  `HashMap` yields small integer keys in ascending order.
   */
  function Listeners(h: Handler): (r: seq<Listener>)
    ensures |r| == |SortedKeys(h.listeners.Keys)| == |h.listeners|
    ensures forall i :: 0 <= i < |r| ==> SortedKeys(h.listeners.Keys)[i] in h.listeners
    ensures forall i :: 0 <= i < |r| ==> r[i] == h.listeners[SortedKeys(h.listeners.Keys)[i]]
  {
    SortedKeysSpec(h.listeners.Keys);
    var ks := SortedKeys(h.listeners.Keys);
    seq(|ks|, i requires 0 <= i < |ks| => h.listeners[ks[i]])
  }

  /** Every registered listener is in the snapshot. */
  lemma SnapshotIsRegistry(h: Handler)
    ensures forall k :: k in h.listeners ==> exists i :: 0 <= i < |Listeners(h)| && Listeners(h)[i] == h.listeners[k]
  {
    SortedKeysSpec(h.listeners.Keys);
    var ks := SortedKeys(h.listeners.Keys);
    forall k | k in h.listeners
      ensures exists i :: 0 <= i < |Listeners(h)| && Listeners(h)[i] == h.listeners[k]
    {
      var i :| 0 <= i < |ks| && ks[i] == k;
      assert Listeners(h)[i] == h.listeners[k];
    }
  }

  /** In a well-keyed registry the snapshot lists each entry under its id, ids ascending. */
  lemma SnapshotById(h: Handler)
    requires WellKeyed(h)
    ensures forall i :: 0 <= i < |Listeners(h)| ==>
              Listeners(h)[i].id in h.listeners && h.listeners[Listeners(h)[i].id] == Listeners(h)[i]
    ensures forall i :: 0 < i < |Listeners(h)| ==> Listeners(h)[i - 1].id < Listeners(h)[i].id
  {
    SortedKeysSpec(h.listeners.Keys);
  }

  // ---------------------------------------------------------------------------
  // Dispatch: `run`
  // ---------------------------------------------------------------------------

  /** One registry call made from inside a callback. */
  function Apply(h: Handler, op: Op, n: Numbering): Handler {
    match op
    case DoOnce(l) => Register(h, l, n).0
    case DoPersistent(l) => RegisterPersistent(h, l, n)
    case RemoveListener(id) => Remove(h, id).0
  }

  /** The registry calls a callback makes, in order. */
  function ApplyOps(h: Handler, ops: seq<Op>, n: Numbering): Handler
    decreases |ops|
  {
    if |ops| == 0 then h else ApplyOps(Apply(h, ops[0], n), ops[1..], n)
  }

  /**
   * One turn of `run`'s loop: run the callback, log its exception if it threw,
   * then remove it by its id unless it is persistent.
   */
  function Fire(h: Handler, l: Listener, n: Numbering): (Handler, seq<Event>) {
    var h1 := ApplyOps(h, l.body, n);
    var events := [Invoked(l)] + (if l.throws then [ErrorLogged(l.id)] else []);
    (if l.persistent then h1 else Remove(h1, l.id).0, events)
  }

  /** The listeners a dispatch invoked, in order. */
  function Invocations(es: seq<Event>): seq<Listener> {
    if |es| == 0 then []
    else (if es[0].Invoked? then [es[0].listener] else []) + Invocations(es[1..])
  }

  /** The ids whose exceptions a dispatch logged, in order. */
  function ErrorIds(es: seq<Event>): seq<int> {
    if |es| == 0 then []
    else (if es[0].ErrorLogged? then [es[0].id] else []) + ErrorIds(es[1..])
  }

  /** The ids of the listeners in `s` whose callbacks throw, in order. */
  function ThrowingIds(s: seq<Listener>): seq<int> {
    if |s| == 0 then []
    else (if s[0].throws then [s[0].id] else []) + ThrowingIds(s[1..])
  }

  lemma EventsAppend(a: seq<Event>, b: seq<Event>)
    ensures Invocations(a + b) == Invocations(a) + Invocations(b)
    ensures ErrorIds(a + b) == ErrorIds(a) + ErrorIds(b)
  {
    InvocationsAppend(a, b);
    ErrorIdsAppend(a, b);
  }

  lemma {:induction false} InvocationsAppend(a: seq<Event>, b: seq<Event>)
    ensures Invocations(a + b) == Invocations(a) + Invocations(b)
    decreases |a|
  {
    if |a| == 0 {
      assert a + b == b;
    } else {
      assert (a + b)[0] == a[0];
      assert (a + b)[1..] == a[1..] + b;
      InvocationsAppend(a[1..], b);
    }
  }

  lemma {:induction false} ErrorIdsAppend(a: seq<Event>, b: seq<Event>)
    ensures ErrorIds(a + b) == ErrorIds(a) + ErrorIds(b)
    decreases |a|
  {
    if |a| == 0 {
      assert a + b == b;
    } else {
      assert (a + b)[0] == a[0];
      assert (a + b)[1..] == a[1..] + b;
      ErrorIdsAppend(a[1..], b);
    }
  }

  /**
   * The loop of `run` over a snapshot.  Every snapshot listener is invoked
   * exactly once and in order, whatever the callbacks do to the map meanwhile,
   * and an exception is logged for exactly the listeners that throw.
   */
  function RunOver(h: Handler, snapshot: seq<Listener>, n: Numbering): (r: (Handler, seq<Event>))
    ensures Invocations(r.1) == snapshot
    ensures ErrorIds(r.1) == ThrowingIds(snapshot)
    decreases |snapshot|
  {
    if |snapshot| == 0 then (h, [])
    else
      var (h1, e1) := Fire(h, snapshot[0], n);
      var (h2, e2) := RunOver(h1, snapshot[1..], n);
      EventsAppend(e1, e2);
      assert Invocations(e1) == [snapshot[0]] by {
        assert e1[1..] == (if snapshot[0].throws then [ErrorLogged(snapshot[0].id)] else []);
      }
      assert ErrorIds(e1) == (if snapshot[0].throws then [snapshot[0].id] else []) by {
        assert e1[1..] == (if snapshot[0].throws then [ErrorLogged(snapshot[0].id)] else []);
        if snapshot[0].throws {
          assert e1[1..][1..] == [];
        }
      }
      assert snapshot == [snapshot[0]] + snapshot[1..];
      (h2, e1 + e2)
  }

  /** `run()`: iterate over the snapshot taken under the lock. */
  function Run(h: Handler, n: Numbering): (r: (Handler, seq<Event>))
    ensures Invocations(r.1) == Listeners(h)
    ensures ErrorIds(r.1) == ThrowingIds(Listeners(h))
  {
    RunOver(h, Listeners(h), n)
  }

  /** `times` dispatches in a row. */
  function Dispatches(h: Handler, n: Numbering, times: nat): (Handler, seq<Event>)
    decreases times
  {
    if times == 0 then (h, [])
    else
      var first := Run(h, n);
      var rest := Dispatches(first.0, n, times - 1);
      (rest.0, first.1 + rest.1)
  }

  /** `s` repeated `times` times. */
  function Repeat<T>(s: seq<T>, times: nat): seq<T>
    decreases times
  {
    if times == 0 then [] else s + Repeat(s, times - 1)
  }

  // ---------------------------------------------------------------------------
  // The registry as written: one slot
  // ---------------------------------------------------------------------------

  /** The registry never holds more than one listener. */
  lemma SingleSlotAtMostOne(h: Handler)
    requires SingleSlot(h)
    ensures |h.listeners| <= 1
  {
    if h.listeners.Keys != {} {
      var k := MinKey(h.listeners.Keys);
      assert h.listeners.Keys == {k};
    }
  }

  /** Callbacks never move the counter, and the handler keeps its single slot. */
  lemma {:induction false} AsWrittenOpsKeepSlot(h: Handler, ops: seq<Op>)
    requires SingleSlot(h)
    ensures SingleSlot(ApplyOps(h, ops, AsWritten))
    ensures ApplyOps(h, ops, AsWritten).idCount == h.idCount
    decreases |ops|
  {
    if |ops| > 0 {
      var h1 := Apply(h, ops[0], AsWritten);
      assert SingleSlot(h1) && h1.idCount == h.idCount by {
        match ops[0]
        case DoOnce(l) =>
        case DoPersistent(l) =>
          assert h1 == Register(h, l.(persistent := true), AsWritten).0;
        case RemoveListener(id) =>
      }
      AsWrittenOpsKeepSlot(h1, ops[1..]);
    }
  }

  /** A dispatch never moves the counter, and the handler keeps its single slot. */
  lemma RunKeepsSlot(h: Handler)
    requires SingleSlot(h)
    ensures SingleSlot(Run(h, AsWritten).0) && Run(h, AsWritten).0.idCount == h.idCount
  {
    var s := Listeners(h);
    SingleSlotAtMostOne(h);
    if |s| == 1 {
      RunOverSingle(h, s, AsWritten);
      AsWrittenOpsKeepSlot(h, s[0].body);
    }
  }

  /** What the program does with a handler: one registry call, or one dispatch. */
  datatype Use = Call(op: Op) | Dispatch

  /** A handler after the uses `us`, in order. */
  function Drive(h: Handler, us: seq<Use>, n: Numbering): Handler
    decreases |us|
  {
    if |us| == 0 then h
    else
      var h1 := match us[0]
        case Call(op) => Apply(h, op, n)
        case Dispatch => Run(h, n).0;
      Drive(h1, us[1..], n)
  }

  /** Registry calls and dispatches in any order keep the single slot and the counter. */
  lemma {:induction false} DriveKeepsSlot(h: Handler, us: seq<Use>)
    requires SingleSlot(h)
    ensures SingleSlot(Drive(h, us, AsWritten)) && Drive(h, us, AsWritten).idCount == h.idCount
    decreases |us|
  {
    if |us| > 0 {
      var h1 := match us[0]
        case Call(op) => Apply(h, op, AsWritten)
        case Dispatch => Run(h, AsWritten).0;
      if us[0].Call? {
        AsWrittenOpsKeepSlot(h, [us[0].op]);
        assert ApplyOps(h, [us[0].op], AsWritten) == ApplyOps(h1, [], AsWritten);
      } else {
        RunKeepsSlot(h);
      }
      DriveKeepsSlot(h1, us[1..]);
    }
  }

  /**
   * Whatever a fresh handler has been through (registry calls and dispatches
   * in any order), it holds at most one listener and the next registration
   * is handed id 1: the counter is never written.
   */
  lemma EveryIdIsOne(us: seq<Use>, l: Listener)
    ensures |Drive(Fresh, us, AsWritten).listeners| <= 1
    ensures Register(Drive(Fresh, us, AsWritten), l, AsWritten).1 == 1
  {
    DriveKeepsSlot(Fresh, us);
    SingleSlotAtMostOne(Drive(Fresh, us, AsWritten));
  }

  /** A registration replaces whatever was registered before. */
  lemma RegisterReplaces(h: Handler, l: Listener)
    requires SingleSlot(h)
    ensures var (h', id) := Register(h, l, AsWritten);
            SingleSlot(h') && h'.listeners == map[id := l.(id := id)]
  {
    var (h', id) := Register(h, l, AsWritten);
    assert h'.listeners.Keys == {id};
  }

  /**
   * A dispatch over one-shot listeners leaves the registry empty, including
   * whatever the callback registered while it ran: the callback's own
   * registration takes id 1, the id removed after it fires.
   */
  lemma OneShotDispatchEmpties(h: Handler)
    requires SingleSlot(h)
    requires forall k :: k in h.listeners ==> !h.listeners[k].persistent
    ensures Run(h, AsWritten).0.listeners == map[]
  {
    var s := Listeners(h);
    SingleSlotAtMostOne(h);
    SnapshotById(h);
    if |s| == 0 {
      assert h.listeners.Keys == {};
    } else {
      var l := s[0];
      assert l.id == h.idCount + 1 && !l.persistent;
      OneShotFireEmpties(h, l);
      RunOverSingle(h, s, AsWritten);
    }
  }

  /** Firing the one-shot listener in the slot empties the registry, whatever its callback registered. */
  lemma OneShotFireEmpties(h: Handler, l: Listener)
    requires SingleSlot(h) && l.id == h.idCount + 1 && !l.persistent
    ensures Fire(h, l, AsWritten).0.listeners == map[]
  {
    var h1 := ApplyOps(h, l.body, AsWritten);
    AsWrittenOpsKeepSlot(h, l.body);
    RemovingTheSlotEmpties(h1);
  }

  /** Removing id `idCount + 1` leaves a one-slot registry empty. */
  lemma RemovingTheSlotEmpties(h: Handler)
    requires SingleSlot(h)
    ensures Remove(h, h.idCount + 1).0.listeners == map[]
  {
    var h' := Remove(h, h.idCount + 1).0;
    assert forall k :: k !in h'.listeners;
    assert h'.listeners.Keys == {};
  }

  /**
   * As written, `doOnce` calls on an empty registry each overwrite the single
   * slot: afterwards only the last listener posted is registered, under
   * `idCount + 1`, and the earlier ones are gone.
   */
  lemma {:induction false} AsWrittenPostsKeepLast(h: Handler, ops: seq<Op>)
    requires SingleSlot(h)
    requires forall i :: 0 <= i < |ops| ==> ops[i].DoOnce?
    ensures ApplyOps(h, ops, AsWritten) ==
            if |ops| == 0 then h
            else Handler(map[h.idCount + 1 := ops[|ops| - 1].listener.(id := h.idCount + 1)], h.idCount)
    decreases |ops|
  {
    if |ops| > 0 {
      var k := h.idCount + 1;
      var h1 := Apply(h, ops[0], AsWritten);
      assert h1 == Handler(map[k := ops[0].listener.(id := k)], h.idCount) by {
        assert h1.listeners.Keys == {k};
      }
      assert SingleSlot(h1);
      AsWrittenPostsKeepLast(h1, ops[1..]);
      if |ops| > 1 {
        assert ops[1..][|ops[1..]| - 1] == ops[|ops| - 1];
      }
    }
  }

  /** A registry with one entry has a one-element snapshot. */
  lemma SingleSnapshot(k: int, l: Listener, c: int)
    ensures Listeners(Handler(map[k := l], c)) == [l]
  {
    var h := Handler(map[k := l], c);
    assert |h.listeners| == 1 by {
      assert h.listeners.Keys == {k};
    }
  }

  /** The last listener posted by `ops`, stored under `c + 1`, or nothing when nothing was posted. */
  function LastPosted(ops: seq<Op>, c: int): seq<Listener>
    requires forall i :: 0 <= i < |ops| ==> ops[i].DoOnce?
  {
    if |ops| == 0 then [] else [ops[|ops| - 1].listener.(id := c + 1)]
  }

  /**
   * As written, after `doOnce` posts into an empty registry the snapshot is
   * the last listener posted alone, or nothing when nothing was posted.
   */
  lemma AsWrittenPostsSnapshot(h: Handler, ops: seq<Op>)
    requires h.listeners == map[] && QuietPosts(ops)
    ensures Listeners(ApplyOps(h, ops, AsWritten)) == LastPosted(ops, h.idCount)
  {
    AsWrittenPostsKeepLast(h, ops);
    if |ops| > 0 {
      SingleSnapshot(h.idCount + 1, ops[|ops| - 1].listener.(id := h.idCount + 1), h.idCount);
    }
  }

  /** As written, a dispatch after `doOnce` posts into an empty registry invokes only the last listener posted. */
  lemma AsWrittenRunAfterPosts(h: Handler, ops: seq<Op>)
    requires h.listeners == map[] && QuietPosts(ops)
    ensures Invocations(Run(ApplyOps(h, ops, AsWritten), AsWritten).1) == LastPosted(ops, h.idCount)
  {
    AsWrittenPostsSnapshot(h, ops);
  }

  /** A pass over a one-listener snapshot is one turn of the loop. */
  lemma RunOverSingle(h: Handler, s: seq<Listener>, n: Numbering)
    requires |s| == 1
    ensures RunOver(h, s, n).0 == Fire(h, s[0], n).0
  {
    assert s[1..] == [];
  }

  /** Two registrations in a row: only the second listener is ever run. */
  lemma SecondRegistrationDropsFirst(a: Listener, b: Listener)
    ensures var (h1, ia) := Register(Fresh, a, AsWritten);
            var (h2, ib) := Register(h1, b, AsWritten);
            ia == 1 && ib == 1 && Invocations(Run(h2, AsWritten).1) == [b.(id := 1)]
  {
    var (h1, ia) := Register(Fresh, a, AsWritten);
    var (h2, ib) := Register(h1, b, AsWritten);
    RegisterReplaces(h1, b);
    var s := Listeners(h2);
    assert |s| == 1;
  }

  // ---------------------------------------------------------------------------
  // Persistent and one-shot listeners whose callbacks leave the registry alone
  // ---------------------------------------------------------------------------

  /** The ids of the one-shot listeners of a snapshot. */
  function OneShotIds(s: seq<Listener>): set<int> {
    if |s| == 0 then {} else (if s[0].persistent then {} else {s[0].id}) + OneShotIds(s[1..])
  }

  lemma {:induction false} OneShotIdsNone(s: seq<Listener>)
    requires forall i :: 0 <= i < |s| ==> s[i].persistent
    ensures OneShotIds(s) == {}
    decreases |s|
  {
    if |s| > 0 {
      OneShotIdsNone(s[1..]);
    }
  }

  lemma {:induction false} OneShotIdsCover(s: seq<Listener>)
    ensures forall i :: 0 <= i < |s| && !s[i].persistent ==> s[i].id in OneShotIds(s)
    decreases |s|
  {
    if |s| > 0 {
      OneShotIdsCover(s[1..]);
      assert forall i :: 1 <= i < |s| ==> s[i] == s[1..][i - 1];
    }
  }

  /** With callbacks that touch nothing, a pass removes exactly the one-shot ids. */
  lemma {:induction false} QuietRunOver(h: Handler, s: seq<Listener>, n: Numbering)
    requires forall i :: 0 <= i < |s| ==> s[i].body == []
    ensures RunOver(h, s, n).0 == h.(listeners := h.listeners - OneShotIds(s))
    decreases |s|
  {
    if |s| == 0 {
      assert h.listeners - {} == h.listeners;
    } else {
      var l := s[0];
      var h1 := Fire(h, l, n).0;
      assert h1 == (if l.persistent then h else Remove(h, l.id).0);
      QuietRunOver(h1, s[1..], n);
      var ids := OneShotIds(s);
      assert ids == (if l.persistent then {} else {l.id}) + OneShotIds(s[1..]);
      assert h1.listeners - OneShotIds(s[1..]) == h.listeners - ids;
    }
  }

  /** A pass over persistent listeners with quiet callbacks changes nothing. */
  lemma PersistentRunOverUnchanged(h: Handler, s: seq<Listener>, n: Numbering)
    requires forall i :: 0 <= i < |s| ==> s[i].persistent && s[i].body == []
    ensures RunOver(h, s, n).0 == h
  {
    QuietRunOver(h, s, n);
    OneShotIdsNone(s);
    assert h.listeners - {} == h.listeners;
  }

  /** A dispatch over persistent listeners with quiet callbacks leaves the registry as it was. */
  lemma PersistentRunUnchanged(h: Handler, n: Numbering)
    requires forall k :: k in h.listeners ==> h.listeners[k].persistent && h.listeners[k].body == []
    ensures Run(h, n).0 == h
  {
    assert forall i :: 0 <= i < |Listeners(h)| ==> Listeners(h)[i].persistent && Listeners(h)[i].body == [];
    PersistentRunOverUnchanged(h, Listeners(h), n);
  }

  /** A persistent listener stays registered and fires on every one of `times` dispatches. */
  lemma {:induction false} PersistentFiresEveryDispatch(h: Handler, n: Numbering, times: nat)
    requires forall k :: k in h.listeners ==> h.listeners[k].persistent && h.listeners[k].body == []
    ensures Dispatches(h, n, times).0 == h
    ensures Invocations(Dispatches(h, n, times).1) == Repeat(Listeners(h), times)
    decreases times
  {
    if times > 0 {
      var r := Run(h, n);
      PersistentRunUnchanged(h, n);
      var rest := Dispatches(h, n, times - 1);
      PersistentFiresEveryDispatch(h, n, times - 1);
      EventsAppend(r.1, rest.1);
    }
  }

  /** In a well-keyed registry of one-shot listeners, every key is a one-shot id of the snapshot. */
  lemma OneShotIdsCoverKeys(h: Handler)
    requires WellKeyed(h)
    requires forall k :: k in h.listeners ==> !h.listeners[k].persistent
    ensures h.listeners.Keys <= OneShotIds(Listeners(h))
  {
    var s := Listeners(h);
    OneShotIdsCover(s);
    SnapshotIsRegistry(h);
    forall k | k in h.listeners
      ensures k in OneShotIds(s)
    {
      var i :| 0 <= i < |s| && s[i] == h.listeners[k];
    }
  }

  /** Removing a superset of the keys empties a map. */
  lemma RemoveAllKeys(m: map<int, Listener>, ids: set<int>)
    requires m.Keys <= ids
    ensures m - ids == map[]
  {
    assert (m - ids).Keys == {};
  }

  /** A dispatch over one-shot listeners with quiet callbacks empties the registry. */
  lemma OneShotRunEmpties(h: Handler, n: Numbering)
    requires WellKeyed(h)
    requires forall k :: k in h.listeners ==> !h.listeners[k].persistent && h.listeners[k].body == []
    ensures Run(h, n).0.listeners == map[]
  {
    assert forall i :: 0 <= i < |Listeners(h)| ==> Listeners(h)[i].body == [];
    QuietRunOver(h, Listeners(h), n);
    OneShotIdsCoverKeys(h);
    RemoveAllKeys(h.listeners, OneShotIds(Listeners(h)));
  }

  /**
   * A one-shot listener fires exactly once over two dispatches: the first
   * invokes the whole snapshot and empties the registry, the second invokes
   * nothing.
   */
  lemma OneShotFiresOnce(h: Handler, n: Numbering)
    requires WellKeyed(h)
    requires forall k :: k in h.listeners ==> !h.listeners[k].persistent && h.listeners[k].body == []
    ensures Run(h, n).0.listeners == map[]
    ensures Invocations(Run(Run(h, n).0, n).1) == []
  {
    OneShotRunEmpties(h, n);
    assert Listeners(Run(h, n).0) == [];
  }

  /** Every listener is one-shot and its callback leaves the registry alone. */
  ghost predicate QuietRegistry(h: Handler) {
    WellKeyed(h) && forall k :: k in h.listeners ==> !h.listeners[k].persistent && h.listeners[k].body == []
  }

  /** Registry calls that only post quiet one-shot runnables, as `doOnce` with a plain runnable does. */
  ghost predicate QuietPosts(ops: seq<Op>) {
    forall i :: 0 <= i < |ops| ==> ops[i].DoOnce? && !ops[i].listener.persistent && ops[i].listener.body == []
  }

  /** Posting quiet one-shot runnables keeps a registry quiet, under either numbering. */
  lemma {:induction false} PostingKeepsQuiet(h: Handler, ops: seq<Op>, n: Numbering)
    requires QuietRegistry(h) && QuietPosts(ops)
    ensures QuietRegistry(ApplyOps(h, ops, n))
    decreases |ops|
  {
    if |ops| > 0 {
      var h1 := Apply(h, ops[0], n);
      assert QuietRegistry(h1) by {
        var (h', id) := Register(h, ops[0].listener, n);
        assert h1 == h';
      }
      assert QuietPosts(ops[1..]) by {
        forall i | 0 <= i < |ops[1..]|
          ensures ops[1..][i].DoOnce? && !ops[1..][i].listener.persistent && ops[1..][i].listener.body == []
        {
          assert ops[1..][i] == ops[i + 1];
        }
      }
      PostingKeepsQuiet(h1, ops[1..], n);
    }
  }

  /** Dispatching an empty registry invokes nothing and changes nothing. */
  lemma {:induction false} EmptyStaysQuiet(h: Handler, n: Numbering, times: nat)
    requires h.listeners == map[]
    ensures Dispatches(h, n, times).0 == h
    ensures Invocations(Dispatches(h, n, times).1) == []
    decreases times
  {
    if times > 0 {
      assert Listeners(h) == [];
      EmptyStaysQuiet(h, n, times - 1);
      EventsAppend([], Dispatches(h, n, times - 1).1);
    }
  }

  // ---------------------------------------------------------------------------
  // The incrementing numbering
  // ---------------------------------------------------------------------------

  /** With an advancing counter a registration never displaces an earlier one. */
  lemma RegisterKeepsEarlier(h: Handler, l: Listener)
    requires Issued(h)
    ensures var (h', id) := Register(h, l, Incrementing);
            Issued(h') && id !in h.listeners && h'.listeners.Keys == h.listeners.Keys + {id}
  {
  }

  /** Two registrations in a row: both listeners run, in registration order. */
  lemma BothRegistrationsRun(a: Listener, b: Listener)
    ensures var (h1, ia) := Register(Fresh, a, Incrementing);
            var (h2, ib) := Register(h1, b, Incrementing);
            ia == 1 && ib == 2 && Invocations(Run(h2, Incrementing).1) == [a.(id := 1), b.(id := 2)]
  {
    var (h1, ia) := Register(Fresh, a, Incrementing);
    var (h2, ib) := Register(h1, b, Incrementing);
    assert h2.listeners.Keys == {1, 2};
    TwoKeySnapshot(h2);
  }

  /** The snapshot of a registry keyed 1 and 2 lists entry 1, then entry 2. */
  lemma TwoKeySnapshot(h: Handler)
    requires WellKeyed(h) && h.listeners.Keys == {1, 2}
    ensures Listeners(h) == [h.listeners[1], h.listeners[2]]
  {
    var s := Listeners(h);
    SnapshotById(h);
    assert |h.listeners| == 2 by {
      assert |h.listeners.Keys| == 2;
    }
    assert s[0].id < s[1].id;
    assert s[0].id in h.listeners && s[1].id in h.listeners;
  }

  /** No `removeListener` call among a callback's registry calls. */
  predicate NoRemoves(ops: seq<Op>) {
    forall i :: 0 <= i < |ops| ==> !ops[i].RemoveListener?
  }

  /** How many registrations a sequence of registry calls makes. */
  function Registrations(ops: seq<Op>): nat {
    if |ops| == 0 then 0
    else (if ops[0].RemoveListener? then 0 else 1) + Registrations(ops[1..])
  }

  /** How many registrations the callbacks of a snapshot make in all. */
  function SnapshotRegistrations(s: seq<Listener>): nat {
    if |s| == 0 then 0 else Registrations(s[0].body) + SnapshotRegistrations(s[1..])
  }

  /** Registry calls without removals only add entries, one fresh id per registration. */
  lemma {:induction false} IncrementingOpsGrow(h: Handler, ops: seq<Op>)
    requires NoRemoves(ops)
    ensures var h' := ApplyOps(h, ops, Incrementing);
            && h'.idCount == h.idCount + Registrations(ops)
            && h.listeners.Keys <= h'.listeners.Keys
            && forall k :: h.idCount < k <= h'.idCount ==> k in h'.listeners
    decreases |ops|
  {
    if |ops| > 0 {
      var h1 := Apply(h, ops[0], Incrementing);
      assert h1.idCount == h.idCount + 1 && h.idCount + 1 in h1.listeners by {
        match ops[0]
        case DoOnce(l) =>
        case DoPersistent(l) =>
          assert h1 == Register(h, l.(persistent := true), Incrementing).0;
      }
      assert h.listeners.Keys <= h1.listeners.Keys by {
        match ops[0]
        case DoOnce(l) =>
        case DoPersistent(l) =>
          assert h1 == Register(h, l.(persistent := true), Incrementing).0;
      }
      assert NoRemoves(ops[1..]) by {
        forall i | 0 <= i < |ops[1..]|
          ensures !ops[1..][i].RemoveListener?
        {
          assert ops[1..][i] == ops[i + 1];
        }
      }
      IncrementingOpsGrow(h1, ops[1..]);
    }
  }

  lemma {:induction false} IncrementingRunOverKeeps(h: Handler, s: seq<Listener>, bound: int)
    requires bound <= h.idCount
    requires forall k :: bound < k <= h.idCount ==> k in h.listeners
    requires forall i :: 0 <= i < |s| ==> s[i].id <= bound && NoRemoves(s[i].body)
    ensures var h' := RunOver(h, s, Incrementing).0;
            && h'.idCount == h.idCount + SnapshotRegistrations(s)
            && forall k :: bound < k <= h'.idCount ==> k in h'.listeners
    decreases |s|
  {
    if |s| > 0 {
      var l := s[0];
      var h1 := ApplyOps(h, l.body, Incrementing);
      IncrementingOpsGrow(h, l.body);
      var h2 := Fire(h, l, Incrementing).0;
      assert h2.idCount == h1.idCount;
      assert forall k :: bound < k <= h2.idCount ==> k in h2.listeners;
      IncrementingRunOverKeeps(h2, s[1..], bound);
    }
  }

  /**
   * With an advancing counter, every listener registered while a dispatch
   * runs is still registered after it (unless a callback removed something).
   */
  lemma RegistrationsDuringRunSurvive(h: Handler)
    requires Issued(h)
    requires forall k :: k in h.listeners ==> NoRemoves(h.listeners[k].body)
    ensures var h' := Run(h, Incrementing).0;
            && h'.idCount == h.idCount + SnapshotRegistrations(Listeners(h))
            && forall k :: h.idCount < k <= h'.idCount ==> k in h'.listeners
  {
    var s := Listeners(h);
    assert forall i :: 0 <= i < |s| ==> s[i].id <= h.idCount && NoRemoves(s[i].body) by {
      forall i | 0 <= i < |s|
        ensures s[i].id <= h.idCount && NoRemoves(s[i].body)
      {
      }
    }
    IncrementingRunOverKeeps(h, s, h.idCount);
  }
}
