/** The stackless bus walk of src/txgbe_pcierr.c:83-114: a cursor that climbs back through the
    parent links visits every device of a bus tree once, in recursive pre-order. */
module BusWalk {
  import opened Wrappers

  /** A cursor into a circular device list: a device, or the head of the list of bus b. */
  datatype Link = AtDev(dev: nat) | Head(bus: nat)

  /** The pointers the walk follows. */
  datatype Topology = Topology(
    first: nat -> Link,
    next: nat -> Link,
    subordinate: nat -> Option<nat>,
    busOf: nat -> nat,
    self: nat -> nat)

  /** The devices of a bus from some point on, with what lies below each bridge. */
  datatype Chain =
    | End
    | Leaf(dev: nat, rest: Chain)
    | Bridge(dev: nat, bus: nat, below: Chain, rest: Chain)

  /** The pointers lay out `c` on bus `b` from cursor `l` on. */
  predicate Shows(t: Topology, b: nat, l: Link, c: Chain)
    decreases c
  {
    match c
    case End => l == Head(b)
    case Leaf(d, rest) =>
      && l == AtDev(d) && t.subordinate(d) == None && t.busOf(d) == b
      && Shows(t, b, t.next(d), rest)
    case Bridge(d, b', below, rest) =>
      && l == AtDev(d) && t.subordinate(d) == Some(b') && t.busOf(d) == b && t.self(b') == d
      && Shows(t, b', t.first(b'), below)
      && Shows(t, b, t.next(d), rest)
  }

  /** Recursive pre-order: each bridge before the devices under it. */
  function Preorder(c: Chain): seq<nat> {
    match c
    case End => []
    case Leaf(d, rest) => [d] + Preorder(rest)
    case Bridge(d, _, below, rest) => [d] + Preorder(below) + Preorder(rest)
  }

  function Size(c: Chain): (n: nat)
    ensures n > 0
  {
    match c
    case End => 1
    case Leaf(_, rest) => 1 + Size(rest)
    case Bridge(_, _, below, rest) => 1 + Size(below) + Size(rest)
  }

  /** A layout determines its chain. */
  lemma {:induction false} ShowsUnique(t: Topology, b: nat, l: Link, c: Chain, c': Chain)
    requires Shows(t, b, l, c) && Shows(t, b, l, c')
    ensures c == c'
    decreases c
  {
    match c
    case End =>
    case Leaf(d, rest) =>
      ShowsUnique(t, b, t.next(d), rest, c'.rest);
    case Bridge(d, b', below, rest) =>
      ShowsUnique(t, b', t.first(b'), below, c'.below);
      ShowsUnique(t, b, t.next(d), rest, c'.rest);
  }

  /** A finite tree never leads back to its own top bus. */
  lemma NotBelowItself(t: Topology, top: nat, root: Chain, c: Chain, b: nat)
    requires Shows(t, top, t.first(top), root)
    requires c.Bridge? && Size(c) <= Size(root) && Shows(t, b, AtDev(c.dev), c)
    ensures c.bus != top
  {
    if c.bus == top {
      ShowsUnique(t, top, t.first(top), root, c.below);
    }
  }

  /** The chains still to be walked on the buses above, innermost first. */
  ghost predicate Above(t: Topology, top: nat, bus: nat, ups: seq<Chain>, limit: nat)
    decreases |ups|
  {
    if ups == [] then bus == top
    else
      var d := t.self(bus);
      && bus != top
      && Size(ups[0]) <= limit
      && Shows(t, t.busOf(d), t.next(d), ups[0])
      && Above(t, top, t.busOf(d), ups[1..], limit)
  }

  function Flat(ups: seq<Chain>): seq<nat> {
    if ups == [] then [] else Preorder(ups[0]) + Flat(ups[1..])
  }

  function Weight(ups: seq<Chain>): nat {
    if ups == [] then 0 else Size(ups[0]) + Weight(ups[1..])
  }

  /** The devices up to and including the first on which the callback asks to stop. */
  function Until(devs: seq<nat>, stop: nat -> bool): seq<nat> {
    if devs == [] then []
    else if stop(devs[0]) then [devs[0]]
    else [devs[0]] + Until(devs[1..], stop)
  }

  lemma {:induction false} UntilAfter(done: seq<nat>, more: seq<nat>, stop: nat -> bool)
    requires forall d | d in done :: !stop(d)
    ensures Until(done + more, stop) == done + Until(more, stop)
    decreases |done|
  {
    if done == [] {
      assert done + more == more;
    } else {
      assert (done + more)[0] == done[0] && (done + more)[1..] == done[1..] + more;
      UntilAfter(done[1..], more, stop);
      assert done == [done[0]] + done[1..];
    }
  }

  /** State of the walk: the cursor stands at chain c, the chains `ups` are left above, and the
      devices visited so far precede them in pre-order. */
  ghost predicate Cursor(t: Topology, top: nat, root: Chain, bus: nat, next: Link, visited: seq<nat>,
                         c: Chain, ups: seq<Chain>)
  {
    && Shows(t, top, t.first(top), root)
    && Shows(t, bus, next, c) && Size(c) <= Size(root)
    && Above(t, top, bus, ups, Size(root))
    && visited + Preorder(c) + Flat(ups) == Preorder(root)
  }

  lemma MoveUp(t: Topology, top: nat, root: Chain, bus: nat, visited: seq<nat>, c: Chain, ups: seq<Chain>)
    requires Cursor(t, top, root, bus, Head(bus), visited, c, ups)
    ensures c == End && (bus == top <==> ups == [])
    ensures ups == [] ==> visited == Preorder(root)
    ensures ups != [] ==>
      Cursor(t, top, root, t.busOf(t.self(bus)), t.next(t.self(bus)), visited, ups[0], ups[1..])
  {
    ShowsUnique(t, bus, Head(bus), c, End);
    assert visited + [] == visited;
    if ups != [] {
      assert visited + (Preorder(ups[0]) + Flat(ups[1..])) == visited + Preorder(ups[0]) + Flat(ups[1..]);
    } else {
      assert visited + Flat(ups) == visited;
    }
  }

  lemma MoveOn(t: Topology, top: nat, root: Chain, bus: nat, dev: nat, visited: seq<nat>, c: Chain, ups: seq<Chain>)
    requires Cursor(t, top, root, bus, AtDev(dev), visited, c, ups)
    ensures !c.End? && c.dev == dev && (c.Bridge? <==> t.subordinate(dev).Some?)
    ensures visited + [dev] + RestOfDevs(c, ups) == Preorder(root)
    ensures c.Leaf? ==> Cursor(t, top, root, bus, t.next(dev), visited + [dev], c.rest, ups)
    ensures c.Bridge? ==>
      var b := t.subordinate(dev).value;
      Cursor(t, top, root, b, t.first(b), visited + [dev], c.below, [c.rest] + ups)
  {
    hide Flat, Preorder;
    RestOf(visited, c, ups);
    if c.Bridge? {
      NotBelowItself(t, top, root, c, bus);
      assert ([c.rest] + ups)[1..] == ups;
      assert visited + [dev] + (Preorder(c.below) + Flat([c.rest] + ups))
          == visited + [dev] + Preorder(c.below) + Flat([c.rest] + ups);
    } else {
      assert visited + [dev] + (Preorder(c.rest) + Flat(ups)) == visited + [dev] + Preorder(c.rest) + Flat(ups);
    }
  }

  /** pci_walk_bus; `stop` is the callback's return value. */
  method Walk(t: Topology, top: nat, ghost root: Chain, stop: nat -> bool) returns (visited: seq<nat>)
    requires Shows(t, top, t.first(top), root)
    ensures visited == Until(Preorder(root), stop)
  {
    hide Until, Cursor, RestOfDevs;
    var bus, next := top, t.first(top);
    visited := [];
    ghost var c: Chain, ups: seq<Chain> := root, [];
    StartWalk(t, top, root);
    while true
      invariant Cursor(t, top, root, bus, next, visited, c, ups)
      invariant forall d | d in visited :: !stop(d)
      decreases Size(c) + Weight(ups)
    {
      if next == Head(bus) {
        MoveUp(t, top, root, bus, visited, c, ups);
        if bus == top {
          break;
        }
        next, bus := t.next(t.self(bus)), t.busOf(t.self(bus));
        c, ups := ups[0], ups[1..];
        continue;
      }
      OnBus(t, top, root, bus, next, visited, c, ups);
      var dev := next.dev;
      MoveOn(t, top, root, bus, dev, visited, c, ups);
      StopHere(visited, dev, RestOfDevs(c, ups), stop);
      if t.subordinate(dev).Some? {
        bus := t.subordinate(dev).value;
        next := t.first(bus);
        ghost var rest, up := c.rest, ups;
        c, ups := c.below, [rest] + up;
        assert ups[1..] == up;
      } else {
        next := t.next(dev);
        c := c.rest;
      }
      visited := visited + [dev];
      if stop(dev) {
        return;
      }
    }
    UntilAfter(visited, [], stop);
    assert visited + [] == visited;
    NothingLeft(stop);
  }

  lemma StartWalk(t: Topology, top: nat, root: Chain)
    requires Shows(t, top, t.first(top), root)
    ensures Cursor(t, top, root, top, t.first(top), [], root, [])
  {
    assert [] + Preorder(root) + [] == Preorder(root);
  }

  lemma OnBus(t: Topology, top: nat, root: Chain, bus: nat, next: Link, visited: seq<nat>, c: Chain, ups: seq<Chain>)
    requires Cursor(t, top, root, bus, next, visited, c, ups) && next != Head(bus)
    ensures next.AtDev?
  {}

  lemma NothingLeft(stop: nat -> bool)
    ensures Until([], stop) == []
  {}

  /** What follows the device at the cursor. */
  ghost function RestOfDevs(c: Chain, ups: seq<Chain>): seq<nat>
    requires !c.End?
  {
    (if c.Leaf? then Preorder(c.rest) else Preorder(c.below) + Preorder(c.rest)) + Flat(ups)
  }

  lemma RestOf(visited: seq<nat>, c: Chain, ups: seq<Chain>)
    requires !c.End?
    ensures visited + Preorder(c) + Flat(ups) == visited + [c.dev] + RestOfDevs(c, ups)
    ensures c.Leaf? ==> RestOfDevs(c, ups) == Preorder(c.rest) + Flat(ups)
    ensures c.Bridge? ==> RestOfDevs(c, ups) == Preorder(c.below) + Flat([c.rest] + ups)
  {
    if c.Bridge? {
      assert ([c.rest] + ups)[1..] == ups;
    }
  }

  lemma StopHere(visited: seq<nat>, dev: nat, rest: seq<nat>, stop: nat -> bool)
    requires forall d | d in visited :: !stop(d)
    ensures stop(dev) ==> Until(visited + [dev] + rest, stop) == visited + [dev]
  {
    if stop(dev) {
      UntilAfter(visited, [dev] + rest, stop);
      assert visited + [dev] + rest == visited + ([dev] + rest);
      assert ([dev] + rest)[0] == dev;
    }
  }

  // ----- every device once

  /** Where the cursor stands after visiting a device depends on the device alone. */
  function BusAfter(t: Topology, d: nat): nat {
    if t.subordinate(d).Some? then t.subordinate(d).value else t.busOf(d)
  }

  function NextAfter(t: Topology, d: nat): Link {
    if t.subordinate(d).Some? then t.first(t.subordinate(d).value) else t.next(d)
  }

  lemma {:induction false} AboveUnique(t: Topology, top: nat, bus: nat, ups: seq<Chain>, ups': seq<Chain>, limit: nat)
    requires Above(t, top, bus, ups, limit) && Above(t, top, bus, ups', limit)
    ensures ups == ups'
    decreases |ups|
  {
    if ups != [] {
      var d := t.self(bus);
      ShowsUnique(t, t.busOf(d), t.next(d), ups[0], ups'[0]);
      AboveUnique(t, top, t.busOf(d), ups[1..], ups'[1..], limit);
      assert ups == [ups[0]] + ups[1..] && ups' == [ups'[0]] + ups'[1..];
    }
  }

  /** The state of the walk right after the device at position k. */
  lemma {:induction false} StateAfter(t: Topology, top: nat, root: Chain, bus: nat, next: Link, visited: seq<nat>,
                                      c: Chain, ups: seq<Chain>, k: nat) returns (c': Chain, ups': seq<Chain>)
    requires Cursor(t, top, root, bus, next, visited, c, ups) && |visited| <= k < |Preorder(root)|
    ensures var d := Preorder(root)[k];
      Cursor(t, top, root, BusAfter(t, d), NextAfter(t, d), Preorder(root)[..k + 1], c', ups')
    decreases Size(c) + Weight(ups)
  {
    hide Cursor, RestOfDevs;
    if next == Head(bus) {
      MoveUp(t, top, root, bus, visited, c, ups);
      c', ups' := StateAfter(t, top, root, t.busOf(t.self(bus)), t.next(t.self(bus)), visited, ups[0], ups[1..], k);
    } else {
      OnBus(t, top, root, bus, next, visited, c, ups);
      var d := next.dev;
      MoveOn(t, top, root, bus, d, visited, c, ups);
      OnOwnBus(t, top, root, bus, d, visited, c, ups);
      assert Preorder(root)[..|visited| + 1] == visited + [d];
      var rest := if c.Leaf? then c.rest else c.below;
      var up := if c.Leaf? then ups else [c.rest] + ups;
      assert c.Bridge? ==> up[1..] == ups;
      if k == |visited| {
        c', ups' := rest, up;
      } else {
        c', ups' := StateAfter(t, top, root, BusAfter(t, d), NextAfter(t, d), visited + [d], rest, up, k);
      }
    }
  }

  lemma OnOwnBus(t: Topology, top: nat, root: Chain, bus: nat, d: nat, visited: seq<nat>, c: Chain, ups: seq<Chain>)
    requires Cursor(t, top, root, bus, AtDev(d), visited, c, ups)
    ensures t.busOf(d) == bus
  {}

  /** No device occurs twice in the pre-order of a bus tree, so the walk calls back once for each. */
  lemma NoDeviceTwice(t: Topology, top: nat, root: Chain, p: nat, q: nat)
    requires Shows(t, top, t.first(top), root) && p < q < |Preorder(root)|
    ensures Preorder(root)[p] != Preorder(root)[q]
  {
    hide Preorder, Flat;
    StartWalk(t, top, root);
    var c, ups := StateAfter(t, top, root, top, t.first(top), [], root, [], p);
    var c', ups' := StateAfter(t, top, root, top, t.first(top), [], root, [], q);
    assert |Preorder(root)| == p + 1 + |Preorder(c)| + |Flat(ups)|;
    assert |Preorder(root)| == q + 1 + |Preorder(c')| + |Flat(ups')|;
    if Preorder(root)[p] == Preorder(root)[q] {
      var d := Preorder(root)[p];
      ShowsUnique(t, BusAfter(t, d), NextAfter(t, d), c, c');
      AboveUnique(t, top, BusAfter(t, d), ups, ups', Size(root));
    }
  }
}
