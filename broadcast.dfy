/** A `RemoteCallbackList` broadcast as the board-side pins run it: every registered
    callback is called in turn, and a RemoteException from one is logged and skipped. */
module Broadcast {

  /** A registered remote callback (an `IGpioCallback` or `IUartDeviceCallback` proxy). */
  type Listener = nat

  /** The callbacks a broadcast over `items` reaches, in order, when exactly the
      callbacks in `failing` throw RemoteException (their client has died). */
  function Reached(items: seq<Listener>, failing: set<Listener>): (r: seq<Listener>)
    ensures |r| <= |items|
    decreases |items|
  {
    if items == [] then []
    else (if items[0] in failing then [] else [items[0]]) + Reached(items[1..], failing)
  }

  /** A broadcast reaches exactly the registered callbacks that do not fail. */
  lemma {:induction false} ReachedMembers(items: seq<Listener>, failing: set<Listener>)
    ensures forall x :: x in Reached(items, failing) <==> x in items && x !in failing
    decreases |items|
  {
    if items != [] {
      ReachedMembers(items[1..], failing);
      assert forall x :: x in items <==> x == items[0] || x in items[1..];
    }
  }

  /** A failure does not stop the broadcast: the callbacks after it are reached as if
      the broadcast had started there. */
  lemma {:induction false} ReachedAppend(a: seq<Listener>, b: seq<Listener>, failing: set<Listener>)
    ensures Reached(a + b, failing) == Reached(a, failing) + Reached(b, failing)
    decreases |a|
  {
    if a != [] {
      assert (a + b)[0] == a[0] && (a + b)[1..] == a[1..] + b;
      ReachedAppend(a[1..], b, failing);
    } else {
      assert a + b == b;
    }
  }

  /** With no failing client every registered callback is reached, in order. */
  lemma {:induction false} ReachedAll(items: seq<Listener>)
    ensures Reached(items, {}) == items
    decreases |items|
  {
    if items != [] {
      ReachedAll(items[1..]);
      assert items == [items[0]] + items[1..];
    }
  }

  /** The loop `for (i = 0; i < beginBroadcast(); i++) try { getBroadcastItem(i).on...(); }
      catch (RemoteException e) {}`: the callbacks it reached. */
  method Deliver(items: seq<Listener>, failing: set<Listener>) returns (reached: seq<Listener>)
    ensures reached == Reached(items, failing)
  {
    reached := [];
    for i := 0 to |items|
      invariant reached == Reached(items[..i], failing)
    {
      ReachedAppend(items[..i], [items[i]], failing);
      assert items[..i + 1] == items[..i] + [items[i]];
      if items[i] !in failing {
        reached := reached + [items[i]];
      }
    }
    assert items[..|items|] == items;
  }
}
