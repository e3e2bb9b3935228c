/** How a stream of client frames divides into requests, and that it does so in one way only. */
module Bracketing {
  import opened Basics
  import opened Frames
  import opened Relay
  import Trojan

  /** A Ping between requests, or a whole request: its OpenRequest, its body and its EndRequest. */
  datatype Item = Between(ping: Frame) | Request(open: Frame, tail: seq<Frame>)

  predicate ItemOk(it: Item) {
    match it
    case Between(ping) => ping.Ping?
    case Request(open, tail) => open.OpenRequest? && IsTail(tail)
  }

  predicate AllOk(items: seq<Item>) {
    forall i :: 0 <= i < |items| ==> ItemOk(items[i])
  }

  function FramesOf(it: Item): seq<Frame> {
    match it
    case Between(ping) => [ping]
    case Request(open, tail) => [open] + tail
  }

  function Flatten(items: seq<Item>): seq<Frame> {
    if items == [] then [] else FramesOf(items[0]) + Flatten(items[1..])
  }

  /** Where a request's bytes go, and the bytes. */
  datatype Delivery = Delivery(dest: Result<Trojan.Addr, Trojan.FrameAddrError>, data: seq<byte>)

  function DeliveryOf(open: Frame, tail: seq<Frame>): Delivery
    requires open.OpenRequest?
  {
    Delivery(Trojan.FrameAddr(open.atyp, open.addr, open.port), DataOf(tail))
  }

  /** What each request asks for, in order. */
  function Deliveries(items: seq<Item>): seq<Delivery>
    requires AllOk(items)
  {
    if items == [] then []
    else
      assert ItemOk(items[0]);
      (if items[0].Request? then [DeliveryOf(items[0].open, items[0].tail)] else []) + Deliveries(items[1..])
  }

  lemma {:induction false} ItemsSnoc(items: seq<Item>, it: Item)
    requires AllOk(items) && ItemOk(it)
    ensures AllOk(items + [it])
    ensures Flatten(items + [it]) == Flatten(items) + FramesOf(it)
    ensures Deliveries(items + [it])
            == Deliveries(items) + (if it.Request? then [DeliveryOf(it.open, it.tail)] else [])
  {
    hide DeliveryOf, FramesOf, IsTail;
    assert items == [] || items + [it] == [items[0]] + (items[1..] + [it]);
    if items == [] {
      assert items + [it] == [it];
      assert [it][1..] == [];
    } else {
      ItemsSnoc(items[1..], it);
      assert (items + [it])[1..] == items[1..] + [it];
    }
  }

  /** A request ends at its first EndRequest, so a stream determines where. */
  lemma SameTail(a: seq<Frame>, b: seq<Frame>, s: seq<Frame>)
    requires IsTail(a) && IsTail(b) && a <= s && b <= s
    ensures a == b
  {
    EndsFirst(a, b, s);
    EndsFirst(b, a, s);
  }

  lemma EndsFirst(a: seq<Frame>, b: seq<Frame>, s: seq<Frame>)
    requires IsTail(a) && IsTail(b) && a <= s && b <= s
    ensures |a| >= |b|
  {
    var last := |a| - 1;
    assert s[last] == a[last];
    assert forall i :: 0 <= i < |b| - 1 ==> b[..|b| - 1][i] == b[i] == s[i];
  }

  lemma SameFirst(a: Item, b: Item, s: seq<Frame>)
    requires ItemOk(a) && ItemOk(b) && FramesOf(a) <= s && FramesOf(b) <= s
    ensures a == b
  {
    assert s[0] == FramesOf(a)[0] == FramesOf(b)[0];
    if a.Request? {
      assert a.tail == FramesOf(a)[1..] && b.tail == FramesOf(b)[1..];
      SameTail(a.tail, b.tail, s[1..]);
    }
  }

  /**
   If the frames served so far divide into `served`, and the whole stream divides into `items`,
   then `served` is the first part of `items`: the k-th request served is the k-th request sent.
   */
  lemma {:induction false} BracketingIsUnique(served: seq<Item>, items: seq<Item>)
    requires AllOk(served) && AllOk(items) && Flatten(served) <= Flatten(items)
    ensures served <= items
    ensures Deliveries(served) <= Deliveries(items)
    decreases |served|
  {
    hide DeliveryOf, FramesOf, IsTail;
    if served != [] {
      FirstFrames(served);
      SameStart(served, items);
      BracketingIsUnique(served[1..], items[1..]);
      assert served == [served[0]] + served[1..] && items == [items[0]] + items[1..];
    }
  }

  lemma FirstFrames(items: seq<Item>)
    requires AllOk(items) && items != []
    ensures 0 < |FramesOf(items[0])| && FramesOf(items[0]) <= Flatten(items)
    ensures Flatten(items)[|FramesOf(items[0])|..] == Flatten(items[1..])
    ensures AllOk(items[1..])
  {
    hide IsTail;
    assert ItemOk(items[0]);
  }

  lemma SameStart(served: seq<Item>, items: seq<Item>)
    requires AllOk(served) && AllOk(items) && served != [] && Flatten(served) <= Flatten(items)
    ensures items != [] && served[0] == items[0] && AllOk(served[1..]) && AllOk(items[1..])
    ensures Flatten(served[1..]) <= Flatten(items[1..])
  {
    hide FramesOf, IsTail;
    FirstFrames(served);
    assert items != [];
    FirstFrames(items);
    SameFirst(served[0], items[0], Flatten(items));
  }
}
