/**
 * Listener fan-out. The parser calls every registered listener, in
 * registration order, once per reported item; the model records each call
 * as an event tagged with the listener's identity.
 */
module Listeners {
  datatype Event<T> = Event(listener: nat, payload: T)

  /** One item reported to every listener of `ls`, in registration order. */
  function Broadcast<T>(ls: seq<nat>, x: T): (r: seq<Event<T>>)
    ensures |r| == |ls|
    ensures forall i :: 0 <= i < |ls| ==> r[i] == Event(ls[i], x)
  {
    seq(|ls|, i requires 0 <= i < |ls| => Event(ls[i], x))
  }

  /** A sequence of items, each broadcast in turn. */
  function BroadcastAll<T>(ls: seq<nat>, xs: seq<T>): seq<Event<T>>
  {
    if xs == [] then [] else BroadcastAll(ls, xs[..|xs| - 1]) + Broadcast(ls, xs[|xs| - 1])
  }

  /** What one listener received, in the order it received it. */
  function Received<T>(evs: seq<Event<T>>, l: nat): seq<T>
  {
    if evs == [] then []
    else Received(evs[..|evs| - 1], l) + (if evs[|evs| - 1].listener == l then [evs[|evs| - 1].payload] else [])
  }

  predicate Distinct(ls: seq<nat>)
  {
    forall i, j :: 0 <= i < j < |ls| ==> ls[i] != ls[j]
  }

  /** Broadcasting one more item appends that item's broadcast. */
  lemma BroadcastAllStep<T>(ls: seq<nat>, xs: seq<T>, x: T)
    ensures BroadcastAll(ls, xs + [x]) == BroadcastAll(ls, xs) + Broadcast(ls, x)
  {
    assert (xs + [x])[..|xs|] == xs;
  }

  lemma {:induction false} BroadcastAllAppend<T>(ls: seq<nat>, xs: seq<T>, ys: seq<T>)
    ensures BroadcastAll(ls, xs + ys) == BroadcastAll(ls, xs) + BroadcastAll(ls, ys)
  {
    if ys == [] {
      assert xs + ys == xs;
    } else {
      assert (xs + ys)[..|xs + ys| - 1] == xs + ys[..|ys| - 1];
      BroadcastAllAppend(ls, xs, ys[..|ys| - 1]);
    }
  }

  lemma {:induction false} ReceivedAppend<T>(a: seq<Event<T>>, b: seq<Event<T>>, l: nat)
    ensures Received(a + b, l) == Received(a, l) + Received(b, l)
  {
    if b == [] {
      assert a + b == a;
    } else {
      assert (a + b)[..|a + b| - 1] == a + b[..|b| - 1];
      ReceivedAppend(a, b[..|b| - 1], l);
    }
  }

  /** A listener registered once receives a broadcast item exactly once; others receive nothing. */
  lemma {:induction false} ReceivedBroadcast<T>(ls: seq<nat>, x: T, l: nat)
    requires Distinct(ls)
    ensures Received(Broadcast(ls, x), l) == if l in ls then [x] else []
  {
    if ls != [] {
      var front := ls[..|ls| - 1];
      assert Broadcast(ls, x) == Broadcast(front, x) + [Event(ls[|ls| - 1], x)];
      ReceivedAppend(Broadcast(front, x), [Event(ls[|ls| - 1], x)], l);
      ReceivedBroadcast(front, x, l);
      assert [Event(ls[|ls| - 1], x)][..0] == [];
      assert ls == front + [ls[|ls| - 1]];
      assert l in ls <==> l in front || l == ls[|ls| - 1];
      assert l in front ==> l != ls[|ls| - 1];
    }
  }

  /** Every listener registered once receives every item, in the order the items were reported. */
  lemma {:induction false} EachListenerReceivesAllInOrder<T>(ls: seq<nat>, xs: seq<T>, l: nat)
    requires Distinct(ls) && l in ls
    ensures Received(BroadcastAll(ls, xs), l) == xs
  {
    if xs != [] {
      var front := xs[..|xs| - 1];
      ReceivedAppend(BroadcastAll(ls, front), Broadcast(ls, xs[|xs| - 1]), l);
      EachListenerReceivesAllInOrder(ls, front, l);
      ReceivedBroadcast(ls, xs[|xs| - 1], l);
      assert xs == front + [xs[|xs| - 1]];
    }
  }

  /** A listener that is not registered receives nothing. */
  lemma {:induction false} UnregisteredReceivesNothing<T>(ls: seq<nat>, xs: seq<T>, l: nat)
    requires l !in ls
    ensures Received(BroadcastAll(ls, xs), l) == []
  {
    if xs != [] {
      var front := xs[..|xs| - 1];
      ReceivedAppend(BroadcastAll(ls, front), Broadcast(ls, xs[|xs| - 1]), l);
      UnregisteredReceivesNothing(ls, front, l);
      UnregisteredReceivesNothingOne(ls, xs[|xs| - 1], l);
    }
  }

  lemma {:induction false} UnregisteredReceivesNothingOne<T>(ls: seq<nat>, x: T, l: nat)
    requires l !in ls
    ensures Received(Broadcast(ls, x), l) == []
  {
    if ls != [] {
      var front := ls[..|ls| - 1];
      assert Broadcast(ls, x) == Broadcast(front, x) + [Event(ls[|ls| - 1], x)];
      ReceivedAppend(Broadcast(front, x), [Event(ls[|ls| - 1], x)], l);
      assert [Event(ls[|ls| - 1], x)][..0] == [];
      assert ls == front + [ls[|ls| - 1]];
      UnregisteredReceivesNothingOne(front, x, l);
    }
  }
}
