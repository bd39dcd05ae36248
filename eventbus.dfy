// The event bus: per event name, a list of listeners ordered by descending
// priority (first registered, first served among equal priorities), fired in
// order until one of them answers.
module Events {
  import opened Wrappers
  import opened Data

  const DefaultPriority: int := 1000

  /**
   * A registered listener: its priority, the identity of the function it
   * calls, and the `__fn` reference to the original callback a bound
   * callback carries.
   */
  datatype Listener = Listener(priority: int, callback: nat, ref: Option<nat>)

  /** `listener.callback === callback || listener.callback.__fn === callback`. */
  predicate Matches(l: Listener, callback: nat)
  {
    l.callback == callback || l.ref == Some(callback)
  }

  /** Listeners in descending priority. */
  predicate Ordered(ls: seq<Listener>)
  {
    forall i, j :: 0 <= i < j < |ls| ==> ls[i].priority >= ls[j].priority
  }

  // -------------------------------------------------------------------
  // Adding a listener

  /** The position `_addListener` inserts at: before the first listener of lower priority. */
  function InsertPosition(ls: seq<Listener>, p: int): (k: nat)
    ensures k <= |ls|
    ensures forall j :: 0 <= j < k ==> ls[j].priority >= p
    ensures k < |ls| ==> ls[k].priority < p
  {
    if ls == [] || ls[0].priority < p then 0 else 1 + InsertPosition(ls[1..], p)
  }

  /** The list after `_addListener(event, l)`. */
  function Insert(ls: seq<Listener>, l: Listener): (r: seq<Listener>)
    ensures |r| == |ls| + 1
    ensures multiset(r) == multiset(ls) + multiset{l}
  {
    var k := InsertPosition(ls, l.priority);
    assert ls == ls[..k] + ls[k..];
    ls[..k] + [l] + ls[k..]
  }

  /** Insertion keeps the list ordered by priority. */
  lemma InsertOrdered(ls: seq<Listener>, l: Listener)
    requires Ordered(ls)
    ensures Ordered(Insert(ls, l))
  {
    var k := InsertPosition(ls, l.priority);
    InsertAt(ls, l);
    LowerFromPosition(ls, l.priority);
    assert ls[..k] + ls[k..] == ls;
    SpliceOrdered(ls[..k], l, ls[k..]);
  }

  /** A listener placed between higher and lower priorities keeps an ordered list ordered. */
  lemma SpliceOrdered(a: seq<Listener>, l: Listener, b: seq<Listener>)
    requires Ordered(a + b)
    requires forall j :: 0 <= j < |a| ==> a[j].priority >= l.priority
    requires forall j :: 0 <= j < |b| ==> b[j].priority < l.priority
    ensures Ordered(a + [l] + b)
  {
    var r := a + [l] + b;
    var k := |a|;
    forall i, j | 0 <= i < j < |r|
      ensures r[i].priority >= r[j].priority
    {
      if j < k {
        assert r[i] == (a + b)[i] && r[j] == (a + b)[j];
      } else if i < k && j == k {
        assert r[i] == a[i];
      } else if i == k {
        assert r[j] == b[j - k - 1];
      } else if i < k {
        assert r[i] == (a + b)[i] && r[j] == (a + b)[j - 1];
      } else {
        assert r[i] == (a + b)[i - 1] && r[j] == (a + b)[j - 1];
      }
    }
  }

  /**
   * First register, first serve: the new listener comes after every
   * listener of the same or a higher priority and before every listener of
   * a lower priority, the others keeping their order.
   */
  lemma InsertAfterEqualPriority(ls: seq<Listener>, l: Listener)
    requires Ordered(ls)
    ensures var r := Insert(ls, l); var k := InsertPosition(ls, l.priority);
      && r[k] == l
      && r[..k] + r[k + 1..] == ls
      && (forall j :: 0 <= j < k ==> r[j].priority >= l.priority)
      && (forall j :: k < j < |r| ==> r[j].priority < l.priority)
  {
    hide *;
    var k := InsertPosition(ls, l.priority);
    InsertAt(ls, l);
    Splice(ls[..k], l, ls[k..]);
    assert ls[..k] + ls[k..] == ls;
    LowerFromPosition(ls, l.priority);
  }

  lemma InsertAt(ls: seq<Listener>, l: Listener)
    ensures var k := InsertPosition(ls, l.priority);
      Insert(ls, l) == ls[..k] + [l] + ls[k..]
  {
  }

  /** From the insert position on, every listener has a lower priority. */
  lemma LowerFromPosition(ls: seq<Listener>, p: int)
    requires Ordered(ls)
    ensures var k := InsertPosition(ls, p);
      forall j :: 0 <= j < |ls| - k ==> ls[k..][j].priority < p
  {
    var k := InsertPosition(ls, p);
    forall j | 0 <= j < |ls| - k
      ensures ls[k..][j].priority < p
    {
      assert ls[k].priority >= ls[k + j].priority;
    }
  }

  lemma Splice(a: seq<Listener>, l: Listener, b: seq<Listener>)
    ensures var r := a + [l] + b;
      r[|a|] == l && r[..|a|] + r[|a| + 1..] == a + b
      && (forall j :: 0 <= j < |a| ==> r[j] == a[j])
      && forall j :: |a| < j < |r| ==> r[j] == b[j - |a| - 1]
  {
    var r := a + [l] + b;
    assert r[..|a|] == a && r[|a| + 1..] == b;
  }

  // -------------------------------------------------------------------
  // Removing listeners

  /** Every listener that does not match `callback`, in order. */
  function Remove(ls: seq<Listener>, callback: nat): (r: seq<Listener>)
    ensures forall l :: l in r ==> l in ls && !Matches(l, callback)
    ensures forall l :: l in ls && !Matches(l, callback) ==> l in r
    ensures |r| <= |ls|
  {
    if ls == [] then []
    else (if Matches(ls[0], callback) then [] else [ls[0]]) + Remove(ls[1..], callback)
  }

  /**
   * `_removeListener` as written: `previousListener` is set to every visited
   * listener, also to one just unlinked, so the unlinking of the next match
   * rewires a node that is no longer in the list. `prevRemoved` says whether
   * the listener before `ls[0]` was unlinked.
   */
  function RemoveAsWritten(ls: seq<Listener>, callback: nat, prevRemoved: bool): (r: seq<Listener>)
  {
    if ls == [] then []
    else if Matches(ls[0], callback) && !prevRemoved then RemoveAsWritten(ls[1..], callback, true)
    else [ls[0]] + RemoveAsWritten(ls[1..], callback, false)
  }

  /** Two consecutive listeners of the same callback: the second one stays registered. */
  lemma RemoveAsWrittenKeepsSecondMatch()
    ensures var a := Listener(1000, 7, None); var b := Listener(1000, 7, None);
      RemoveAsWritten([a, b], 7, false) == [b] && Remove([a, b], 7) == []
  {
    var a := Listener(1000, 7, None);
    assert [a, a][1..] == [a] && [a][1..] == [];
    assert RemoveAsWritten([a], 7, true) == [a] + RemoveAsWritten([], 7, false);
    assert RemoveAsWritten([a, a], 7, false) == RemoveAsWritten([a], 7, true);
    assert Remove([a], 7) == [] + Remove([], 7);
  }

  /** Removing twice removes nothing more than removing once. */
  lemma {:induction false} RemoveIdempotent(ls: seq<Listener>, callback: nat)
    ensures Remove(Remove(ls, callback), callback) == Remove(ls, callback)
  {
    if ls != [] {
      RemoveIdempotent(ls[1..], callback);
      var rest := Remove(ls[1..], callback);
      if !Matches(ls[0], callback) {
        var r := [ls[0]] + rest;
        assert r[0] == ls[0] && r[1..] == rest;
        assert Remove(r, callback) == [ls[0]] + Remove(rest, callback);
      } else {
        assert Remove(ls, callback) == [] + rest == rest;
      }
    }
  }

  /** Removal keeps the priority order. */
  lemma {:induction false} RemoveOrdered(ls: seq<Listener>, callback: nat)
    requires Ordered(ls)
    ensures Ordered(Remove(ls, callback))
  {
    if ls != [] {
      RemoveOrdered(ls[1..], callback);
      var rest := Remove(ls[1..], callback);
      forall l | l in rest ensures ls[0].priority >= l.priority {
        var j :| 0 <= j < |ls[1..]| && ls[1..][j] == l;
        assert ls[j + 1] == l;
      }
    }
  }

  // -------------------------------------------------------------------
  // Firing

  /** How a called listener reacts: its return value, and whether it calls `stopPropagation` or `preventDefault`. */
  datatype Reaction = Reaction(ret: Value, stops: bool, prevents: bool)

  /** The listener ends the dispatch: it returned a value or stopped propagation. */
  predicate Stops(r: Reaction) { !r.ret.Undefined? || r.stops }

  /** The listener prevents the default: it returned `false` or called `preventDefault`. */
  predicate Prevents(r: Reaction) { r.ret == Bool(false) || r.prevents }

  /** The number of listeners called: up to and including the first that stops. */
  function CalledCount(ls: seq<Listener>, react: nat -> Reaction): (k: nat)
    ensures k <= |ls|
    ensures forall j :: 0 <= j < k - 1 ==> !Stops(react(ls[j].callback))
    ensures k < |ls| ==> k > 0 && Stops(react(ls[k - 1].callback))
    ensures k == |ls| && k > 0 && !Stops(react(ls[k - 1].callback)) ==> forall j :: 0 <= j < k ==> !Stops(react(ls[j].callback))
  {
    if ls == [] then 0
    else if Stops(react(ls[0].callback)) then 1
    else 1 + CalledCount(ls[1..], react)
  }

  /** The outcome of `fire`: what it returns and which callbacks were called, in order. */
  datatype Fired = Fired(ret: Value, called: seq<nat>)

  function Callbacks(ls: seq<Listener>): (cs: seq<nat>)
    ensures |cs| == |ls| && forall j :: 0 <= j < |ls| ==> cs[j] == ls[j].callback
  {
    if ls == [] then [] else [ls[0].callback] + Callbacks(ls[1..])
  }

  /** Some called listener prevented the default. */
  predicate AnyPrevents(ls: seq<Listener>, react: nat -> Reaction)
  {
    exists j :: 0 <= j < |ls| && Prevents(react(ls[j].callback))
  }

  /**
   * `fire` over the listeners `ls`: they are called in order until one
   * stops the event; the result is the last called listener's return value,
   * or `false` when that is undefined and the default was prevented.
   */
  function Dispatch(ls: seq<Listener>, react: nat -> Reaction): (r: Fired)
  {
    var k := CalledCount(ls, react);
    var ret := if k == 0 then Undefined else react(ls[k - 1].callback).ret;
    Fired(if ret.Undefined? && AnyPrevents(ls[..k], react) then Bool(false) else ret, Callbacks(ls[..k]))
  }

  /** Listeners after the first one that returns a value are never called, and that value is the result. */
  lemma DispatchFirstAnswer(ls: seq<Listener>, react: nat -> Reaction, k: nat)
    requires k < |ls| && !react(ls[k].callback).ret.Undefined?
    requires forall j :: 0 <= j < k ==> !Stops(react(ls[j].callback))
    ensures Dispatch(ls, react) == Fired(react(ls[k].callback).ret, Callbacks(ls[..k + 1]))
  {
    CalledCountAt(ls, react, k);
  }

  lemma {:induction false} CalledCountAt(ls: seq<Listener>, react: nat -> Reaction, k: nat)
    requires k < |ls| && Stops(react(ls[k].callback))
    requires forall j :: 0 <= j < k ==> !Stops(react(ls[j].callback))
    ensures CalledCount(ls, react) == k + 1
  {
    if k > 0 {
      CalledCountAt(ls[1..], react, k - 1);
    }
  }

  /** When no listener answers or stops, all are called and the result is `false` exactly when one prevented the default. */
  lemma DispatchNoAnswer(ls: seq<Listener>, react: nat -> Reaction)
    requires forall j :: 0 <= j < |ls| ==> !Stops(react(ls[j].callback))
    ensures Dispatch(ls, react).called == Callbacks(ls)
    ensures Dispatch(ls, react).ret == (if AnyPrevents(ls, react) then Bool(false) else Undefined)
  {
    CalledCountAll(ls, react);
    assert ls[..|ls|] == ls;
  }

  lemma {:induction false} CalledCountAll(ls: seq<Listener>, react: nat -> Reaction)
    requires forall j :: 0 <= j < |ls| ==> !Stops(react(ls[j].callback))
    ensures CalledCount(ls, react) == |ls|
  {
    if ls != [] {
      CalledCountAll(ls[1..], react);
    }
  }

  // -------------------------------------------------------------------
  // The bus

  /** The `priority` argument of `on`: omitted (a function was passed in its place), a number, or anything else. */
  datatype PriorityArg = Omitted | Given(p: int) | NotANumber

  /** A callback: its identity and the `__fn` reference it may carry. */
  datatype Callback = Callback(id: nat, ref: Option<nat>)

  datatype BusError = PriorityNotANumber | NoEventType

  /** The identity of the bus's own `_destroy` listener. */
  const DestroyCallback: nat := 0

  class EventBus {
    /** `_listeners`: the list per event name; an absent or empty entry has no listeners. */
    var listeners: map<string, seq<Listener>>

    ghost predicate Valid()
      reads this
    {
      AllOrdered(listeners)
    }

    function ListenersOf(e: string): (ls: seq<Listener>)
      reads this
    {
      Lookup(listeners, e)
    }

    /** A new bus listens to `diagram.destroy` with priority 1 to clear itself. */
    constructor ()
      ensures Valid()
      ensures listeners == map["diagram.destroy" := [Listener(1, DestroyCallback, None)]]
    {
      listeners := map["diagram.destroy" := [Listener(1, DestroyCallback, None)]];
    }

    /** `_addListener(event, l)`: walks the list to the first listener of lower priority and links `l` before it. */
    method AddListener(e: string, l: Listener)
      requires Valid()
      modifies this
      ensures Valid()
      ensures listeners == old(listeners)[e := Insert(old(ListenersOf(e)), l)]
    {
      var ls := ListenersOf(e);
      var i := 0;
      while i < |ls| && ls[i].priority >= l.priority
        invariant 0 <= i <= |ls|
        invariant forall j :: 0 <= j < i ==> ls[j].priority >= l.priority
        invariant i <= InsertPosition(ls, l.priority)
      {
        i := i + 1;
      }
      assert i == InsertPosition(ls, l.priority);
      InsertOrdered(ls, l);
      listeners := listeners[e := ls[..i] + [l] + ls[i..]];
    }

    /**
     * `on(events, priority, callback, that)`: a bound callback (`that` given)
     * is a new function `bound` that remembers the original in `__fn`; the
     * listener is added to each event in turn.
     */
    method On(events: seq<string>, priority: PriorityArg, callback: Callback, that: bool, bound: nat)
      returns (r: Result<(), BusError>)
      requires Valid()
      modifies this
      ensures Valid()
      ensures priority.NotANumber? ==> r == Failure(PriorityNotANumber) && listeners == old(listeners)
      ensures !priority.NotANumber? ==> r.Success? && listeners == AddAll(old(listeners), events, Bound(priority, callback, that, bound))
    {
      if priority.NotANumber? {
        return Failure(PriorityNotANumber);
      }
      var l := Bound(priority, callback, that, bound);
      var i := 0;
      while i < |events|
        invariant 0 <= i <= |events| && Valid()
        invariant AddAll(listeners, events[i..], l) == AddAll(old(listeners), events, l)
      {
        assert events[i..][1..] == events[i + 1..];
        AddListener(events[i], l);
        i := i + 1;
      }
      r := Success(());
    }

    /**
     * `off(events, callback)`: without a callback the lists are cleared;
     * otherwise every listener of the callback is removed (see the finding on
     * `RemoveAsWritten`).
     */
    method Off(events: seq<string>, callback: Option<nat>)
      requires Valid()
      modifies this
      ensures Valid()
      ensures listeners == OffAll(old(listeners), events, callback)
    {
      var i := 0;
      while i < |events|
        invariant 0 <= i <= |events| && Valid()
        invariant OffAll(listeners, events[i..], callback) == OffAll(old(listeners), events, callback)
      {
        assert events[i..][1..] == events[i + 1..];
        var e := events[i];
        OffStep(listeners, events[i..], callback);
        listeners := listeners[e := if callback.None? then [] else Remove(ListenersOf(e), callback.value)];
        i := i + 1;
      }
    }

    /** `_destroy`: no listeners at all. */
    method Destroy()
      modifies this
      ensures Valid() && listeners == map[]
    {
      listeners := map[];
    }

    /**
     * `fire(type, data)`: an empty type is an error; otherwise the listeners
     * of the type are called in order while none has stopped the event.
     */
    method Fire(t: string, react: nat -> Reaction) returns (r: Result<Fired, BusError>)
      ensures t == "" ==> r == Failure(NoEventType)
      ensures t != "" ==> r == Success(Dispatch(ListenersOf(t), react))
    {
      if t == "" {
        return Failure(NoEventType);
      }
      var ls := ListenersOf(t);
      var i := 0;
      var ret := Undefined;
      var prevented := false;
      var cancelled := false;
      var called: seq<nat> := [];
      var k := CalledCount(ls, react);
      while i < |ls| && !cancelled
        invariant 0 <= i <= k
        invariant cancelled <==> i == k && k > 0 && Stops(react(ls[k - 1].callback))
        invariant !cancelled ==> i < k || k == |ls|
        invariant called == Callbacks(ls[..i])
        invariant ret == (if i == 0 then Undefined else react(ls[i - 1].callback).ret)
        invariant prevented == AnyPrevents(ls[..i], react)
      {
        var reaction := react(ls[i].callback);
        ret := reaction.ret;
        called := called + [ls[i].callback];
        CallbacksStep(ls, i);
        CountStep(ls, react, i);
        PreventsStep(ls, react, i);
        prevented := prevented || Prevents(reaction);
        cancelled := Stops(reaction);
        i := i + 1;
      }
      DispatchAt(ls, react, i);
      r := Success(Fired(if ret.Undefined? && prevented then Bool(false) else ret, called));
    }
  }

  /** The listener `on` registers. */
  function Bound(priority: PriorityArg, callback: Callback, that: bool, bound: nat): (l: Listener)
    ensures l.priority == (if priority.Given? then priority.p else DefaultPriority)
    ensures !that ==> l.callback == callback.id && l.ref == callback.ref
    ensures that ==> l.callback == bound && l.ref == Some(if callback.ref.Some? then callback.ref.value else callback.id)
  {
    var p := if priority.Given? then priority.p else DefaultPriority;
    if that then Listener(p, bound, Some(if callback.ref.Some? then callback.ref.value else callback.id))
    else Listener(p, callback.id, callback.ref)
  }

  /** Every list of the map is ordered by priority. */
  predicate AllOrdered(m: map<string, seq<Listener>>)
  {
    forall e :: e in m ==> Ordered(m[e])
  }

  function Lookup(m: map<string, seq<Listener>>, e: string): seq<Listener>
  {
    if e in m then m[e] else []
  }

  /** The lists after `l` is added to each of `events` in turn. */
  function AddAll(m: map<string, seq<Listener>>, events: seq<string>, l: Listener): map<string, seq<Listener>>
    decreases |events|
  {
    if events == [] then m
    else AddAll(m[events[0] := Insert(Lookup(m, events[0]), l)], events[1..], l)
  }

  /** The lists after `off` on each of `events` in turn. */
  function OffAll(m: map<string, seq<Listener>>, events: seq<string>, callback: Option<nat>): map<string, seq<Listener>>
    decreases |events|
  {
    if events == [] then m
    else OffAll(m[events[0] := if callback.None? then [] else Remove(Lookup(m, events[0]), callback.value)], events[1..], callback)
  }

  /** `on` leaves the lists of other events alone and adds the listener once per occurrence of an event. */
  lemma {:induction false} AddAllEffect(m: map<string, seq<Listener>>, events: seq<string>, l: Listener, e: string)
    ensures e !in events ==> Lookup(AddAll(m, events, l), e) == Lookup(m, e)
    ensures events == [e] ==> Lookup(AddAll(m, events, l), e) == Insert(Lookup(m, e), l)
    ensures |Lookup(AddAll(m, events, l), e)| >= |Lookup(m, e)|
    ensures e in events ==> l in Lookup(AddAll(m, events, l), e)
    decreases |events|
  {
    assert AddAll(m, [], l) == m;
    hide *;
    if events != [] {
      var m' := m[events[0] := Insert(Lookup(m, events[0]), l)];
      AddAllStep(m, events, l);
      LookupInserted(m, events[0], l, e);
      assert e in events <==> e == events[0] || e in events[1..];
      assert events == [e] ==> events[1..] == [];
      AddAllEffect(m', events[1..], l, e);
    }
  }

  /** One step of `AddAll`: the first event's list gets the listener, then the rest follow. */
  lemma AddAllStep(m: map<string, seq<Listener>>, events: seq<string>, l: Listener)
    requires events != []
    ensures var m' := m[events[0] := Insert(Lookup(m, events[0]), l)];
      && AddAll(m, events, l) == AddAll(m', events[1..], l)
      && AddAll(m', [], l) == m'
  {
  }

  /** After inserting into the list of `x`, that list holds the listener and the others are as before. */
  lemma LookupInserted(m: map<string, seq<Listener>>, x: string, l: Listener, e: string)
    ensures var m' := m[x := Insert(Lookup(m, x), l)];
      && Lookup(m', e) == (if e == x then Insert(Lookup(m, x), l) else Lookup(m, e))
      && l in Lookup(m', x)
  {
    var k := InsertPosition(Lookup(m, x), l.priority);
    assert Insert(Lookup(m, x), l)[k] == l;
  }

  /** One step of `OffAll`: the first event's list is emptied or loses the callback, and stays ordered. */
  lemma OffStep(m: map<string, seq<Listener>>, events: seq<string>, callback: Option<nat>)
    requires events != [] && AllOrdered(m)
    ensures var m' := m[events[0] := if callback.None? then [] else Remove(Lookup(m, events[0]), callback.value)];
      && OffAll(m, events, callback) == OffAll(m', events[1..], callback)
      && AllOrdered(m')
  {
    if callback.Some? {
      RemoveOrdered(Lookup(m, events[0]), callback.value);
    }
  }

  /** Adding keeps every list ordered. */
  lemma {:induction false} AddAllOrdered(m: map<string, seq<Listener>>, events: seq<string>, l: Listener)
    requires AllOrdered(m)
    ensures AllOrdered(AddAll(m, events, l))
    decreases |events|
  {
    if events != [] {
      var m' := m[events[0] := Insert(Lookup(m, events[0]), l)];
      assert Ordered(Lookup(m, events[0]));
      InsertOrdered(Lookup(m, events[0]), l);
      assert AllOrdered(m');
      AddAllOrdered(m', events[1..], l);
    }
  }

  /** After `off`, the named events hold no listener of the callback (none at all without one); others are untouched. */
  lemma {:induction false} OffAllEffect(m: map<string, seq<Listener>>, events: seq<string>, callback: Option<nat>, e: string)
    ensures e !in events ==> Lookup(OffAll(m, events, callback), e) == Lookup(m, e)
    ensures e in events ==> Lookup(OffAll(m, events, callback), e) == (if callback.None? then [] else Remove(Lookup(m, e), callback.value))
    decreases |events|
  {
    if events != [] {
      var m' := m[events[0] := if callback.None? then [] else Remove(Lookup(m, events[0]), callback.value)];
      OffAllEffect(m', events[1..], callback, e);
      if e == events[0] && callback.Some? {
        RemoveIdempotent(Lookup(m, e), callback.value);
      }
      if e in events && e != events[0] {
        assert e in events[1..];
      }
    }
  }

  /** The dispatch in terms of the number of listeners called. */
  lemma DispatchAt(ls: seq<Listener>, react: nat -> Reaction, k: nat)
    requires k == CalledCount(ls, react)
    ensures var ret := if k == 0 then Undefined else react(ls[k - 1].callback).ret;
      Dispatch(ls, react) == Fired(if ret.Undefined? && AnyPrevents(ls[..k], react) then Bool(false) else ret, Callbacks(ls[..k]))
  {
  }

  lemma CallbacksStep(ls: seq<Listener>, i: nat)
    requires i < |ls|
    ensures Callbacks(ls[..i + 1]) == Callbacks(ls[..i]) + [ls[i].callback]
  {
    assert ls[..i + 1] == ls[..i] + [ls[i]];
  }

  /** Calling the listener at `i` stops the dispatch exactly when it is the last one called. */
  lemma CountStep(ls: seq<Listener>, react: nat -> Reaction, i: nat)
    requires i < CalledCount(ls, react)
    ensures var k := CalledCount(ls, react);
      (Stops(react(ls[i].callback)) <==> i + 1 == k && Stops(react(ls[k - 1].callback)))
      && (!Stops(react(ls[i].callback)) ==> i + 1 < k || k == |ls|)
  {
  }

  lemma PreventsStep(ls: seq<Listener>, react: nat -> Reaction, i: nat)
    requires i < |ls|
    ensures AnyPrevents(ls[..i + 1], react) == (AnyPrevents(ls[..i], react) || Prevents(react(ls[i].callback)))
  {
    assert ls[..i + 1][i] == ls[i];
    if AnyPrevents(ls[..i], react) {
      var j :| 0 <= j < i && Prevents(react(ls[..i][j].callback));
      assert ls[..i + 1][j] == ls[..i][j];
    }
    if AnyPrevents(ls[..i + 1], react) && !Prevents(react(ls[i].callback)) {
      var j :| 0 <= j < i + 1 && Prevents(react(ls[..i + 1][j].callback));
      assert j < i;
      assert ls[..i][j] == ls[..i + 1][j];
    }
  }
}
