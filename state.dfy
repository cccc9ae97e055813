/**
 * `AZState` (SRC/AZCore.js:98-146): a store holding a map-valued state, a
 * change gate that notifies the subscribed listeners only when the state
 * really changes, and registries of listeners and named actions that reject
 * arguments of the wrong type.  Serialized equality (`JSON.stringify`) is
 * modelled as equality of maps.
 */
module State {
  import opened Wrappers

  /**
   * A JavaScript value handed to the store: a function (identified by
   * `id`), a string, or any other value (with its `String()` text).
   */
  datatype Value = Fn(id: nat) | Str(s: string) | Other(shown: string)

  /** The argument of `setState`: an updater function, or an object spread over the state. */
  datatype Updater<!V> = Compute(f: map<string, V> -> map<string, V>) | Merge(patch: map<string, V>)

  /** The state `setState` computes: the updater's result, or the state with the object's keys written over it. */
  function Update<V>(state: map<string, V>, u: Updater<V>): map<string, V> {
    match u
    case Compute(f) => f(state)
    case Merge(patch) => state + patch
  }

  /** The calls `listeners.forEach(listener => listener(state))` makes, in order. */
  function Notices<V>(listeners: seq<nat>, state: map<string, V>): (r: seq<(nat, map<string, V>)>)
    ensures |r| == |listeners|
    ensures forall i :: 0 <= i < |r| ==> r[i] == (listeners[i], state)
  {
    if listeners == [] then [] else [(listeners[0], state)] + Notices(listeners[1..], state)
  }

  /** `Set.prototype.delete`. */
  function Without(listeners: seq<nat>, id: nat): (r: seq<nat>)
    ensures forall x :: x in r <==> x in listeners && x != id
    ensures |r| <= |listeners|
  {
    if listeners == [] then []
    else (if listeners[0] == id then [] else [listeners[0]]) + Without(listeners[1..], id)
  }

  /** `dispatch(x)`: the function to call, or the error thrown for anything that names no action. */
  function ActionFor(actions: map<string, nat>, x: Value): (r: Result<nat>)
    ensures r.Ok? <==> x.Fn? || (x.Str? && x.s in actions)
    ensures x.Str? && x.s in actions ==> r.value == actions[x.s]
    ensures r.Err? ==> r.message == "DISPATCH ERROR: Invalid action \"" + (if x.Str? then x.s else x.shown) + "\"."
  {
    match x
    case Fn(id) => Ok(id)
    case Str(name) =>
      if name in actions then Ok(actions[name])
      else Err("DISPATCH ERROR: Invalid action \"" + name + "\".")
    case Other(shown) => Err("DISPATCH ERROR: Invalid action \"" + shown + "\".")
  }

  /** An object spread over the state leaves it unchanged exactly when every key already holds its value. */
  lemma MergeUnchanged<V>(state: map<string, V>, patch: map<string, V>)
    ensures Update(state, Merge(patch)) == state <==> forall k :: k in patch ==> k in state && state[k] == patch[k]
  {
    if forall k :: k in patch ==> k in state && state[k] == patch[k] {
      assert (state + patch).Keys == state.Keys;
      assert forall k :: k in state ==> (state + patch)[k] == state[k];
    } else {
      var k :| k in patch && !(k in state && state[k] == patch[k]);
      assert k in state + patch && (state + patch)[k] == patch[k];
    }
  }

  /** Spreading the same object a second time changes nothing, so it notifies no listener. */
  lemma MergeTwice<V>(state: map<string, V>, patch: map<string, V>)
    ensures Update(Update(state, Merge(patch)), Merge(patch)) == Update(state, Merge(patch))
  {
    MergeUnchanged(state + patch, patch);
  }

  /** A registered name dispatches to the function registered last under it. */
  lemma DispatchRegistered(actions: map<string, nat>, name: string, f: nat)
    ensures ActionFor(actions[name := f], Str(name)) == Ok(f)
  {
  }

  /** The store returned by `AZState(initialState)`. */
  class Store<V(==)> {
    /** The closure variable `state`. */
    var state: map<string, V>
    /** `actions`: name to function. */
    var actions: map<string, nat>
    /** `listeners`: a set, kept in insertion order, which is the order `forEach` visits. */
    var listeners: seq<nat>
    /** The listener calls made so far, each with the state it was given. */
    var calls: seq<(nat, map<string, V>)>

    /** A listener is subscribed at most once. */
    ghost predicate Valid()
      reads this
    {
      forall i, j :: 0 <= i < j < |listeners| ==> listeners[i] != listeners[j]
    }

    /** `AZState(initialState)`: a copy of the initial state, no actions and no listeners. */
    constructor (initial: map<string, V>)
      ensures Valid()
      ensures state == initial && actions == map[] && listeners == [] && calls == []
    {
      state := initial;
      actions := map[];
      listeners := [];
      calls := [];
    }

    /** `getState()`: a copy of the state; maps are values, so the caller cannot change the store through it. */
    method GetState() returns (r: map<string, V>)
      ensures r == state
    {
      r := state;
    }

    /**
     * `setState(updater)`: when the computed state differs from the current
     * one, it replaces it and every listener is called with it, in order;
     * otherwise nothing happens.
     */
    method SetState(u: Updater<V>)
      modifies this`state, this`calls
      ensures state == Update(old(state), u)
      ensures calls == old(calls) + if Update(old(state), u) != old(state) then Notices(listeners, state) else []
    {
      var prev := state;
      var next := Update(state, u);
      if next != prev {
        state := next;
        var i := 0;
        while i < |listeners|
          invariant i <= |listeners| && state == next
          invariant calls == old(calls) + Notices(listeners[..i], state)
        {
          NoticesSnoc(listeners[..i], listeners[i], state);
          assert listeners[..i + 1] == listeners[..i] + [listeners[i]];
          calls := calls + [(listeners[i], state)];
          i := i + 1;
        }
        assert listeners[..i] == listeners;
      }
    }

    /** `subscribe(listener)`: a function is added to the set and its unsubscribe handle returned. */
    method Subscribe(listener: Value) returns (r: Result<nat>)
      requires Valid()
      modifies this`listeners
      ensures Valid()
      ensures !listener.Fn? ==> r == Err("SUBSCRIBE REQUIRES A FUNCTION.") && listeners == old(listeners)
      ensures listener.Fn? ==> r == Ok(listener.id) && listener.id in listeners
      ensures listener.Fn? ==> listeners == if listener.id in old(listeners) then old(listeners) else old(listeners) + [listener.id]
    {
      if !listener.Fn? {
        return Err("SUBSCRIBE REQUIRES A FUNCTION.");
      }
      if listener.id !in listeners {
        listeners := listeners + [listener.id];
      }
      r := Ok(listener.id);
    }

    /** The handle returned by `subscribe`: the listener is deleted from the set. */
    method Unsubscribe(id: nat) returns (removed: bool)
      requires Valid()
      modifies this`listeners
      ensures Valid()
      ensures removed == (id in old(listeners)) && id !in listeners
      ensures listeners == Without(old(listeners), id)
    {
      removed := id in listeners;
      WithoutDistinct(listeners, id);
      listeners := Without(listeners, id);
    }

    /** `register(name, action)`: a string name and a function are recorded, replacing an earlier action. */
    method Register(name: Value, action: Value) returns (r: Result<()>)
      modifies this`actions
      ensures r.Err? <==> !name.Str? || !action.Fn?
      ensures r.Err? ==> r.message == "REGISTER ACTION REQUIRES A STRING NAME AND FUNCTION." && actions == old(actions)
      ensures r.Ok? ==> actions == old(actions)[name.s := action.id]
    {
      if !name.Str? || !action.Fn? {
        return Err("REGISTER ACTION REQUIRES A STRING NAME AND FUNCTION.");
      }
      actions := actions[name.s := action.id];
      r := Ok(());
    }

    /** `dispatch(x)`: which function is called, or the error raised for an unknown action. */
    method Dispatch(x: Value) returns (r: Result<nat>)
      ensures r == ActionFor(actions, x)
    {
      r := ActionFor(actions, x);
    }
  }

  /** Adding one listener at the end adds its call at the end. */
  lemma {:induction false} NoticesSnoc<V>(ls: seq<nat>, l: nat, state: map<string, V>)
    ensures Notices(ls + [l], state) == Notices(ls, state) + [(l, state)]
  {
    if ls != [] {
      assert (ls + [l])[1..] == ls[1..] + [l];
      NoticesSnoc(ls[1..], l, state);
    }
  }

  /** Deleting from a set of distinct listeners keeps them distinct. */
  lemma {:induction false} WithoutDistinct(ls: seq<nat>, id: nat)
    requires forall i, j :: 0 <= i < j < |ls| ==> ls[i] != ls[j]
    ensures forall i, j :: 0 <= i < j < |Without(ls, id)| ==> Without(ls, id)[i] != Without(ls, id)[j]
  {
    if ls != [] {
      WithoutDistinct(ls[1..], id);
      assert ls[0] !in ls[1..];
    }
  }
}
