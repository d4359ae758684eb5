/**
 * The callback registry of include/raz/callback.hpp: a CallbackSystem keeps
 * the list of its bound Callbacks, hands an event to each of them in
 * registration order, and a Callback binds itself on construction and
 * unbinds itself on destruction.
 *
 * The mutex that guards the list is not modelled; the operations are taken
 * one at a time. A Callback's member-function handler is given as a number
 * naming it, and a delivery records which handler received which event.
 */
module Callbacks {

  /** The list with its first occurrence of x erased: what unbind leaves. */
  function RemoveFirst<X(==)>(s: seq<X>, x: X): (r: seq<X>)
    ensures x !in s ==> r == s
    ensures x in s ==> |r| == |s| - 1
  {
    if |s| == 0 then []
    else
      assert s == [s[0]] + s[1..];
      if s[0] == x then s[1..]
      else [s[0]] + RemoveFirst(s[1..], x)
  }

  /**
   * When position i holds the first occurrence of x, removing it keeps the
   * elements before and after i, in order.
   */
  lemma RemoveFirstAt<X>(s: seq<X>, x: X, i: nat)
    requires i < |s| && s[i] == x && x !in s[..i]
    ensures RemoveFirst(s, x) == s[..i] + s[i + 1..]
  {
    assert s == s[..i] + s[i..];
    RemoveFirstSkips(s[..i], s[i..], x);
    assert s[i..][1..] == s[i + 1..];
  }

  /** Elements before the first occurrence are kept as they are. */
  lemma {:induction false} RemoveFirstSkips<X>(a: seq<X>, b: seq<X>, x: X)
    requires x !in a
    ensures RemoveFirst(a + b, x) == a + RemoveFirst(b, x)
    decreases |a|
  {
    if |a| > 0 {
      assert a + b == [a[0]] + (a[1..] + b);
      assert a[0] != x && a[0] == (a + b)[0] && (a + b)[1..] == a[1..] + b;
      RemoveFirstSkips(a[1..], b, x);
      assert a == [a[0]] + a[1..];
    } else {
      assert a + b == b;
    }
  }

  /** unbind takes away exactly one copy of the callback when there is one, and nothing else. */
  lemma {:induction false} RemoveFirstMultiset<X>(s: seq<X>, x: X)
    ensures multiset(RemoveFirst(s, x)) == multiset(s) - multiset{x}
    decreases |s|
  {
    if |s| > 0 {
      assert s == [s[0]] + s[1..];
      if s[0] != x {
        RemoveFirstMultiset(s[1..], x);
        assert multiset(RemoveFirst(s, x)) == multiset{s[0]} + multiset(RemoveFirst(s[1..], x));
      }
    }
  }

  /** Binding x to a list that does not hold it and unbinding it again restores the list. */
  lemma {:induction false} BindUnbind<X>(s: seq<X>, x: X)
    requires x !in s
    ensures RemoveFirst(s + [x], x) == s
  {
    RemoveFirstAt(s + [x], x, |s|);
    assert (s + [x])[..|s|] == s;
  }

  /** One handler call of handle: which callback's handler, and the event it got. */
  datatype Delivery<T> = Delivery(handler: nat, event: T)

  class Callback<T> {
    /** m_system */
    const system: CallbackSystem<T>
    /** m_handler */
    const handler: nat

    /** Callback(system, handler): the new callback is bound at the end of the system's list. */
    constructor (system: CallbackSystem<T>, handler: nat)
      modifies system
      ensures this.system == system && this.handler == handler
      ensures system.callbacks == old(system.callbacks) + [this]
    {
      this.system := system;
      this.handler := handler;
      new;
      system.Bind(this);
    }

    /** ~Callback(): the callback is unbound from its system. */
    method Destroy()
      modifies system
      ensures system.callbacks == RemoveFirst(old(system.callbacks), this)
    {
      system.Unbind(this);
    }
  }

  class CallbackSystem<T> {
    /** m_callbacks */
    var callbacks: seq<Callback<T>>

    constructor ()
      ensures callbacks == []
    {
      callbacks := [];
    }

    /** bind: push_back. */
    method Bind(callback: Callback<T>)
      modifies this
      ensures callbacks == old(callbacks) + [callback]
    {
      callbacks := callbacks + [callback];
    }

    /** unbind: the first entry equal to the callback is erased, and the search stops. */
    method Unbind(callback: Callback<T>)
      modifies this
      ensures callbacks == RemoveFirst(old(callbacks), callback)
    {
      for i := 0 to |callbacks|
        invariant callbacks == old(callbacks)
        invariant callback !in callbacks[..i]
      {
        if callbacks[i] == callback {
          RemoveFirstAt(callbacks, callback, i);
          callbacks := callbacks[..i] + callbacks[i + 1..];
          return;
        }
        assert callbacks[..i + 1] == callbacks[..i] + [callbacks[i]];
      }
      assert callbacks[..|callbacks|] == callbacks;
    }

    /** handle: every bound callback gets the event once, in the order of the list. */
    method Handle(t: T) returns (deliveries: seq<Delivery<T>>)
      ensures |deliveries| == |callbacks|
      ensures forall k :: 0 <= k < |callbacks| ==> deliveries[k] == Delivery(callbacks[k].handler, t)
    {
      deliveries := [];
      for i := 0 to |callbacks|
        invariant |deliveries| == i
        invariant forall k :: 0 <= k < i ==> deliveries[k] == Delivery(callbacks[k].handler, t)
      {
        deliveries := deliveries + [Delivery(callbacks[i].handler, t)];
      }
    }
  }

  /**
   * A Callback that lives for a while: it is bound on construction, and its
   * destruction leaves the system's list as it was before.
   */
  method CallbackLifetime<T>(system: CallbackSystem<T>, handler: nat)
    modifies system
    ensures system.callbacks == old(system.callbacks)
  {
    var callback := new Callback(system, handler);
    BindUnbind(old(system.callbacks), callback);
    callback.Destroy();
  }
}
