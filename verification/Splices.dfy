/** What `PacketPile::replace` does to a tree, and the laws it obeys. */
module Splices {
  import opened Primitives
  import opened Packets
  import opened Paths

  /** The structured container types. */
  predicate HoldsPackets(p: Packet) {
    p.Holder? && (p.kind == CompressedData || p.kind == SEIP || p.kind == AED)
  }

  /** Every index of the path selects a packet of a structured container type. */
  predicate OnlyContainers(cs: seq<Packet>, path: seq<nat>)
    decreases |path|
  {
    path == [] ||
    (path[0] < |cs| && HoldsPackets(cs[path[0]])
     && OnlyContainers(cs[path[0]].Children(), path[1..]))
  }

  lemma OnlyContainersRoot(cs: seq<Packet>)
    ensures OnlyContainers(cs, [])
  {
  }

  lemma {:induction false} OnlyContainersStep(cs: seq<Packet>, path: seq<nat>, i: nat)
    requires OnlyContainers(cs, path)
    ensures OnlyContainers(cs, path + [i]) <==>
      match ChildrenAt(cs, path) {
        case Some(c) => i < |c| && HoldsPackets(c[i])
        case None => false
      }
    decreases |path|
  {
    if path == [] {
      assert (path + [i])[1..] == [];
    } else {
      assert (path + [i])[1..] == path[1..] + [i];
      OnlyContainersStep(cs[path[0]].Children(), path[1..], i);
    }
  }

  lemma {:induction false} OnlyContainersPrefix(cs: seq<Packet>, path: seq<nat>, n: nat)
    requires n < |path|
    ensures OnlyContainers(cs, path[..|path| - 1]) ==> OnlyContainers(cs, path[..n])
    decreases |path|
  {
    if n > 0 && path[0] < |cs| {
      assert path[..|path| - 1][1..] == path[1..][..|path| - 2];
      assert path[..n][1..] == path[1..][..n - 1];
      OnlyContainersPrefix(cs[path[0]].Children(), path[1..], n - 1);
    }
  }

  /** The path leads to `count` packets in one container. */
  predicate Accepts(cs: seq<Packet>, path: seq<nat>, count: nat) {
    path != [] &&
    var (parent, i) := (path[..|path| - 1], path[|path| - 1]);
    && OnlyContainers(cs, parent) && ChildrenAt(cs, parent).Some?
    && i + count <= |ChildrenAt(cs, parent).value|
  }

  /** A body that is not packets: literal data, or of an unknown packet. */
  ghost predicate Bars(p: Packet) {
    p.Holder? && p.kind in {Kind.Literal, Kind.Unknown}
  }

  /** A packet that can be entered. */
  ghost predicate Enters(cs: seq<Packet>, path: seq<nat>) {
    PacketAt(cs, path).Some? && PacketAt(cs, path).value.IsStructured() && !Bars(PacketAt(cs, path).value)
  }

  lemma {:induction false} OnTheWay(cs: seq<Packet>, path: seq<nat>)
    ensures OnlyContainers(cs, path) && ChildrenAt(cs, path).Some? <==>
      forall n | 0 < n <= |path| :: Enters(cs, path[..n])
    decreases |path|
  {
    if path != [] {
      assert Enters(cs, path[..1]) <==> path[0] < |cs| && cs[path[0]].IsStructured() && HoldsPackets(cs[path[0]]);
      if Enters(cs, path[..1]) {
        var below, rest := cs[path[0]].Children(), path[1..];
        OnTheWay(below, rest);
        forall n | 0 < n <= |rest| ensures Enters(below, rest[..n]) <==> Enters(cs, path[..n + 1]) {
          assert path[..n + 1][1..] == rest[..n];
        }
        forall n | 1 < n <= |path| ensures Enters(cs, path[..n]) <==> Enters(below, rest[..n - 1]) {
          assert path[..n][1..] == rest[..n - 1];
        }
      }
    }
  }

  /** What has a packet in it can only be entered, or is barred. */
  lemma {:induction false} PrefixEnters(cs: seq<Packet>, path: seq<nat>, n: nat)
    requires 0 < n < |path| && PacketAt(cs, path).Some?
    ensures PacketAt(cs, path[..n]).Some? && PacketAt(cs, path[..n]).value.IsStructured()
  {
    if PacketAt(cs, path[..n]).None? {
      PacketAtNone(cs, path, n);
    }
    if PacketAt(cs, path[..n + 1]).None? {
      PacketAtNone(cs, path, n + 1);
    }
    assert path[..n + 1] == path[..n] + [path[n]];
    PacketAtStep(cs, path[..n], path[n]);
  }

  /** No packet that encloses the place the path leads to has a body that is not packets. */
  ghost predicate Unbarred(cs: seq<Packet>, path: seq<nat>) {
    forall n | 0 < n < |path| :: PacketAt(cs, path[..n]).Some? ==> !Bars(PacketAt(cs, path[..n]).value)
  }

  /** When a path is accepted, by the packets that `path_ref` finds: those it leads to are there,
      and so is the one before them; what encloses them holds packets. */
  lemma WhenAccepts(cs: seq<Packet>, path: seq<nat>, count: nat)
    requires path != []
    ensures var (parent, i) := (path[..|path| - 1], path[|path| - 1]);
      Accepts(cs, path, count) <==>
        && Unbarred(cs, path)
        && (parent == [] || (PacketAt(cs, parent).Some? && PacketAt(cs, parent).value.IsStructured()))
        && (i > 0 ==> PacketAt(cs, parent + [i - 1]).Some?)
        && forall j | i <= j < i + count :: PacketAt(cs, parent + [j]).Some?
  {
    hide PacketAt, OnlyContainers, ChildrenAt;
    var parent, i := path[..|path| - 1], path[|path| - 1];
    OnTheWay(cs, parent);
    forall n | 0 < n < |path| ensures parent[..n] == path[..n] { }
    assert parent != [] ==> parent[..|parent|] == parent && path[..|parent|] == parent;
    if Unbarred(cs, path) && (parent == [] || (PacketAt(cs, parent).Some? && PacketAt(cs, parent).value.IsStructured())) {
      forall n | 0 < n <= |parent| ensures Enters(cs, parent[..n]) {
        assert parent[..n] == path[..n];
        if n < |parent| {
          PrefixEnters(cs, parent, n);
        }
      }
    }
    if OnlyContainers(cs, parent) && ChildrenAt(cs, parent).Some? {
      forall n | 0 < n < |path| ensures Enters(cs, path[..n]) {
        assert parent[..n] == path[..n];
      }
      InContainer(cs, parent, i, count);
    }
  }

  lemma InContainer(cs: seq<Packet>, parent: seq<nat>, i: nat, count: nat)
    requires ChildrenAt(cs, parent).Some?
    ensures i + count <= |ChildrenAt(cs, parent).value| <==>
      && (i > 0 ==> PacketAt(cs, parent + [i - 1]).Some?)
      && forall j | i <= j < i + count :: PacketAt(cs, parent + [j]).Some?
  {
    hide PacketAt;
    var c := ChildrenAt(cs, parent).value;
    forall j: nat ensures PacketAt(cs, parent + [j]).Some? <==> j < |c| {
      ContainerPaths(cs, parent, j, []);
      assert parent + [j] + [] == parent + [j];
    }
    if count > 0 && i + count > |c| {
      assert PacketAt(cs, parent + [i + count - 1]).None?;
    }
  }

  /** One packet: it can be replaced exactly if it is there and nothing on the way to it has a
      body that is not packets. */
  lemma AcceptsOne(cs: seq<Packet>, path: seq<nat>)
    requires path != []
    ensures Accepts(cs, path, 1) <==> PacketAt(cs, path).Some? && Unbarred(cs, path)
  {
    hide PacketAt;
    var parent, i := path[..|path| - 1], path[|path| - 1];
    assert path == parent + [i];
    WhenAccepts(cs, path, 1);
    if PacketAt(cs, path).Some? {
      if parent != [] {
        assert path[..|parent|] == parent;
        PrefixEnters(cs, path, |parent|);
      }
      PacketAtStep(cs, parent, i);
      if i > 0 {
        PacketAtStep(cs, parent, i - 1);
      }
    }
  }

  /** The packets the path leads to. */
  function Removed(cs: seq<Packet>, path: seq<nat>, count: nat): seq<Packet>
    requires Accepts(cs, path, count)
  {
    var i := path[|path| - 1];
    ChildrenAt(cs, path[..|path| - 1]).value[i..i + count]
  }

  /** The tree with `packets` in their place. */
  function Spliced(cs: seq<Packet>, path: seq<nat>, count: nat, packets: seq<Packet>): seq<Packet>
    requires Accepts(cs, path, count)
  {
    var (parent, i) := (path[..|path| - 1], path[|path| - 1]);
    var children := ChildrenAt(cs, parent).value;
    PutAt(cs, parent, children[..i] + packets + children[i + count..])
  }

  /** What precedes, and what follows, the content of the container at `path` in the
      depth-first listing. */
  function Before(cs: seq<Packet>, path: seq<nat>, depth: nat): seq<Parsed>
    requires ChildrenAt(cs, path).Some?
    decreases |path|
  {
    if path == [] then []
    else
      Listing(cs[..path[0]], depth) + [Parsed(depth, cs[path[0]].Shell())]
      + Before(cs[path[0]].Children(), path[1..], depth + 1)
  }

  function After(cs: seq<Packet>, path: seq<nat>, depth: nat): seq<Parsed>
    requires ChildrenAt(cs, path).Some?
    decreases |path|
  {
    if path == [] then []
    else
      After(cs[path[0]].Children(), path[1..], depth + 1) + Listing(cs[path[0] + 1..], depth)
  }

  lemma ListingAround(cs: seq<Packet>, i: nat, depth: nat)
    requires i < |cs|
    ensures Listing(cs, depth)
      == Listing(cs[..i], depth) + ListingOf(cs[i], depth) + Listing(cs[i + 1..], depth)
  {
    assert cs == cs[..i] + [cs[i]] + cs[i + 1..];
    ListingConcat(cs[..i] + [cs[i]], cs[i + 1..], depth);
    ListingLast(cs[..i], cs[i], depth);
  }

  lemma RegroupAround<T>(a: seq<T>, b: seq<T>, c: seq<T>, d: seq<T>, e: seq<T>, f: seq<T>)
    ensures a + (b + (c + d + e)) + f == (a + b + c) + d + (e + f)
  {
  }

  /** Exchanging the content of one packet of a container. */
  lemma ListingExchanged(cs: seq<Packet>, i: nat, p: Packet, depth: nat)
    requires i < |cs| && p.IsStructured()
    ensures Listing(cs[i := p], depth)
      == Listing(cs[..i], depth) + ([Parsed(depth, p.Shell())] + Listing(p.Children(), depth + 1))
         + Listing(cs[i + 1..], depth)
  {
    hide Listing, ListingOf;
    var now := cs[i := p];
    assert now[..i] == cs[..i] && now[i + 1..] == cs[i + 1..] && now[i] == p;
    ListingAround(now, i, depth);
    ListingOfStructured(p, depth);
  }

  lemma PutFirst(cs: seq<Packet>, path: seq<nat>, other: seq<Packet>)
    requires path != [] && ChildrenAt(cs, path).Some?
    ensures path[0] < |cs| && cs[path[0]].IsStructured()
    ensures ChildrenAt(cs[path[0]].Children(), path[1..]).Some?
    ensures PutAt(cs, path, other)
      == cs[path[0] := cs[path[0]].(body := Structured(PutAt(cs[path[0]].Children(), path[1..], other)))]
  {
  }

  lemma BeforeAndAfter(cs: seq<Packet>, path: seq<nat>, depth: nat)
    requires path != [] && ChildrenAt(cs, path).Some?
    ensures path[0] < |cs| && ChildrenAt(cs[path[0]].Children(), path[1..]).Some?
    ensures Before(cs, path, depth)
      == Listing(cs[..path[0]], depth) + [Parsed(depth, cs[path[0]].Shell())]
         + Before(cs[path[0]].Children(), path[1..], depth + 1)
    ensures After(cs, path, depth)
      == After(cs[path[0]].Children(), path[1..], depth + 1) + Listing(cs[path[0] + 1..], depth)
  {
    hide Listing;
  }

  lemma BeforeNothing(cs: seq<Packet>, depth: nat)
    ensures Before(cs, [], depth) == [] && After(cs, [], depth) == []
  {
  }

  /** Writing a container replaces one contiguous part of the listing. */
  lemma {:induction false} ListingPut(cs: seq<Packet>, path: seq<nat>, other: seq<Packet>, depth: nat)
    requires ChildrenAt(cs, path).Some?
    ensures Listing(PutAt(cs, path, other), depth)
      == Before(cs, path, depth) + Listing(other, depth + |path|) + After(cs, path, depth)
    decreases |path|
  {
    hide Listing, ListingOf, Before, After;
    if path == [] {
      BeforeNothing(cs, depth);
      assert [] + Listing(other, depth) + [] == Listing(other, depth);
    } else {
      hide PutAt, ChildrenAt;
      PutFirst(cs, path, other);
      BeforeAndAfter(cs, path, depth);
      var i, below := path[0], cs[path[0]].Children();
      var p := cs[i].(body := Structured(PutAt(below, path[1..], other)));
      ListingExchanged(cs, i, p, depth);
      ListingPut(below, path[1..], other, depth + 1);
      RegroupAround(Listing(cs[..i], depth), [Parsed(depth, cs[i].Shell())],
                    Before(below, path[1..], depth + 1), Listing(other, depth + |path|),
                    After(below, path[1..], depth + 1), Listing(cs[i + 1..], depth));
    }
  }

  /** `replace` exchanges exactly one run of packets in the depth-first listing, their content
      included, and leaves everything around it where it was. */
  lemma ReplaceListing(cs: seq<Packet>, path: seq<nat>, count: nat, packets: seq<Packet>)
    returns (before: seq<Parsed>, after: seq<Parsed>)
    requires Accepts(cs, path, count)
    ensures var depth := |path| - 1;
      && Listing(cs, 0) == before + Listing(Removed(cs, path, count), depth) + after
      && Listing(Spliced(cs, path, count, packets), 0) == before + Listing(packets, depth) + after
  {
    hide Listing, Before, After;
    var parent, i, depth := path[..|path| - 1], path[|path| - 1], |path| - 1;
    var c := ChildrenAt(cs, parent).value;
    before := Before(cs, parent, 0) + Listing(c[..i], depth);
    after := Listing(c[i + count..], depth) + After(cs, parent, 0);
    PutAtSame(cs, parent);
    assert c == c[..i] + c[i..i + count] + c[i + count..];
    ListingSplice(cs, parent, c[..i], c[i..i + count], c[i + count..]);
    ListingSplice(cs, parent, c[..i], packets, c[i + count..]);
  }

  lemma ListingSplice(cs: seq<Packet>, path: seq<nat>, a: seq<Packet>, b: seq<Packet>, c: seq<Packet>)
    requires ChildrenAt(cs, path).Some?
    ensures Listing(PutAt(cs, path, a + b + c), 0)
      == Before(cs, path, 0) + Listing(a, |path|) + Listing(b, |path|)
         + (Listing(c, |path|) + After(cs, path, 0))
  {
    hide Listing, Before, After;
    ListingPut(cs, path, a + b + c, 0);
    ListingConcat(a + b, c, |path|);
    ListingConcat(a, b, |path|);
  }

  /** No packet is lost or duplicated. */
  lemma ReplaceConserves(cs: seq<Packet>, path: seq<nat>, count: nat, packets: seq<Packet>)
    requires Accepts(cs, path, count)
    ensures multiset(Listing(Spliced(cs, path, count, packets), 0))
        + multiset(Listing(Removed(cs, path, count), |path| - 1))
      == multiset(Listing(cs, 0)) + multiset(Listing(packets, |path| - 1))
  {
    var _, _ := ReplaceListing(cs, path, count, packets);
  }

  /** Putting the removed packets back restores the tree. */
  lemma ReplaceBack(cs: seq<Packet>, path: seq<nat>, count: nat, packets: seq<Packet>)
    requires Accepts(cs, path, count)
    ensures var now := Spliced(cs, path, count, packets);
      && Accepts(now, path, |packets|)
      && Removed(now, path, |packets|) == packets
      && Spliced(now, path, |packets|, Removed(cs, path, count)) == cs
  {
    var parent, i := path[..|path| - 1], path[|path| - 1];
    var c := ChildrenAt(cs, parent).value;
    var d := c[..i] + packets + c[i + count..];
    ChildrenAtPut(cs, parent, d);
    OnlyContainersPut(cs, parent, d);
    PutAtTwice(cs, parent, d, c);
    PutAtSame(cs, parent);
    assert d[i..i + |packets|] == packets;
    assert d[..i] + c[i..i + count] + d[i + |packets|..] == c;
  }

  lemma {:induction false} OnlyContainersPut(cs: seq<Packet>, path: seq<nat>, other: seq<Packet>)
    requires ChildrenAt(cs, path).Some? && OnlyContainers(cs, path)
    ensures OnlyContainers(PutAt(cs, path, other), path)
    decreases |path|
  {
    if path != [] {
      OnlyContainersPut(cs[path[0]].Children(), path[1..], other);
    }
  }

  /** Where `path_ref` finds each packet after a `replace`: packets outside the container, and
      those in front of the gap, where they were; those behind it shifted; the new ones in it. */
  lemma ReplacePaths(cs: seq<Packet>, path: seq<nat>, count: nat, packets: seq<Packet>,
                     j: nat, rest: seq<nat>)
    requires Accepts(cs, path, count)
    ensures var (parent, i, now) := (path[..|path| - 1], path[|path| - 1], Spliced(cs, path, count, packets));
      PacketAt(now, parent + [j] + rest) ==
        if j < i then PacketAt(cs, parent + [j] + rest)
        else if j < i + |packets| then PacketAt(packets, [j - i] + rest)
        else PacketAt(cs, parent + [j - |packets| + count] + rest)
  {
    hide PacketAt, ChildrenAt, PutAt, OnlyContainers;
    var parent, i := path[..|path| - 1], path[|path| - 1];
    var c := ChildrenAt(cs, parent).value;
    var d := c[..i] + packets + c[i + count..];
    ChildrenAtPut(cs, parent, d);
    ContainerPaths(cs, parent, j, rest);
    ContainerPaths(Spliced(cs, path, count, packets), parent, j, rest);
    if j >= i + |packets| {
      ContainerPaths(cs, parent, j - |packets| + count, rest);
    } else if j >= i {
      RootPaths(packets, j - i, rest);
    }
  }

  lemma RootPaths(cs: seq<Packet>, j: nat, rest: seq<nat>)
    ensures PacketAt(cs, [j] + rest) ==
      if j >= |cs| then None
      else if rest == [] then Some(cs[j])
      else PacketAt(cs[j].Children(), rest)
  {
    assert ([j] + rest)[1..] == rest;
  }

  lemma ContainerPaths(cs: seq<Packet>, path: seq<nat>, j: nat, rest: seq<nat>)
    requires ChildrenAt(cs, path).Some?
    ensures var c := ChildrenAt(cs, path).value;
      PacketAt(cs, path + [j] + rest) ==
        if j >= |c| then None
        else if rest == [] then Some(c[j])
        else PacketAt(c[j].Children(), rest)
  {
    assert path + [j] + rest == path + ([j] + rest);
    assert ([j] + rest)[1..] == rest;
    PacketAtBelow(cs, path, [j] + rest);
  }

  /** Packets that are not in the container the path leads to are where and what they were;
      the packets that enclose it keep everything but their content. */
  lemma ReplaceElsewhere(cs: seq<Packet>, path: seq<nat>, count: nat, packets: seq<Packet>, q: seq<nat>)
    requires Accepts(cs, path, count)
    requires path[..|path| - 1] <= q ==> q == path[..|path| - 1]
    ensures var (was, now) := (PacketAt(cs, q), PacketAt(Spliced(cs, path, count, packets), q));
      if q < path && q != [] then was.Some? && now.Some? && now.value.Shell() == was.value.Shell()
      else now == was
  {
    var i := path[|path| - 1];
    var c := ChildrenAt(cs, path[..|path| - 1]).value;
    PacketAtPut(cs, path[..|path| - 1], c[..i] + packets + c[i + count..], q);
  }
}
