/** Packets, containers and the trees they form. */
module Packets {
  import opened Primitives

  /** The packet types that hold a body; the first three may hold packets. */
  datatype Kind = CompressedData | SEIP | AED | Literal | Unknown

  datatype Body =
    | Unprocessed(bytes: seq<byte>)
    | Processed(bytes: seq<byte>)
    | Structured(children: seq<Packet>)

  /** A packet without a body, or one with a container.  `header` stands for all other fields. */
  datatype Packet = Plain(header: int) | Holder(kind: Kind, header: int, body: Body) {

    /** Whether the packet has a container whose body is packets. */
    predicate IsStructured() {
      Holder? && body.Structured?
    }

    /** The packet itself, without the packets in it. */
    function Shell(): Packet {
      if IsStructured() then this.(body := Structured([])) else this
    }

    /** `Packet::container_ref` followed by `Container::children_ref`. */
    function Children(): seq<Packet> {
      if IsStructured() then body.children else []
    }
  }

  /** A packet as the parser hands it out: with its recursion depth, before its content. */
  datatype Parsed = Parsed(depth: nat, packet: Packet) {

    /** How deep the packet that follows may lie. */
    function Below(): nat {
      depth + if packet.IsStructured() then 1 else 0
    }
  }

  /** The depth-first listing of a container at `depth`, each packet without its content. */
  function Listing(cs: seq<Packet>, depth: nat): seq<Parsed>
    decreases cs, 1
  {
    if cs == [] then []
    else Listing(cs[..|cs| - 1], depth) + ListingOf(cs[|cs| - 1], depth)
  }

  function ListingOf(p: Packet, depth: nat): seq<Parsed>
    decreases p, 0
  {
    [Parsed(depth, p.Shell())] +
    match p
    case Holder(_, _, Structured(cs)) => Listing(cs, depth + 1)
    case _ => []
  }

  lemma {:induction false} ListingConcat(a: seq<Packet>, b: seq<Packet>, depth: nat)
    ensures Listing(a + b, depth) == Listing(a, depth) + Listing(b, depth)
  {
    if b == [] {
      assert a + b == a;
    } else {
      hide Listing, ListingOf;
      var front, last := b[..|b| - 1], b[|b| - 1];
      calc {
        Listing(a + b, depth);
        { assert a + b == a + front + [last]; ListingLast(a + front, last, depth); }
        Listing(a + front, depth) + ListingOf(last, depth);
        { ListingConcat(a, front, depth); }
        Listing(a, depth) + Listing(front, depth) + ListingOf(last, depth);
        Listing(a, depth) + (Listing(front, depth) + ListingOf(last, depth));
        { assert b == front + [last]; ListingLast(front, last, depth); }
        Listing(a, depth) + Listing(b, depth);
      }
    }
  }

  lemma ListingOfStructured(p: Packet, depth: nat)
    requires p.IsStructured()
    ensures ListingOf(p, depth) == [Parsed(depth, p.Shell())] + Listing(p.Children(), depth + 1)
  {
  }

  lemma ListingLast(front: seq<Packet>, p: Packet, depth: nat)
    ensures Listing(front + [p], depth) == Listing(front, depth) + ListingOf(p, depth)
  {
    assert (front + [p])[..|front|] == front;
  }

  /** What the packet parser guarantees about consecutive packets: the depth grows by at most
      one, and only right after a container; the packets come without content. */
  ghost predicate IsStream(items: seq<Parsed>) {
    items == [] ||
    var n := |items| - 1;
    && IsStream(items[..n])
    && items[n].packet.Shell() == items[n].packet
    && (n > 0 ==> items[n].depth <= items[n - 1].Below())
  }

  lemma SingletonStream(x: Parsed)
    requires x.packet.Shell() == x.packet
    ensures IsStream([x])
  {
    assert [x][..0] == [];
  }

  lemma {:induction false} StreamConcat(a: seq<Parsed>, b: seq<Parsed>)
    requires IsStream(a) && IsStream(b)
    requires a == [] || b == [] || b[0].depth <= a[|a| - 1].Below()
    ensures IsStream(a + b)
  {
    if b == [] {
      assert a + b == a;
    } else {
      var n := |b| - 1;
      StreamConcat(a, b[..n]);
      assert (a + b)[..|a + b| - 1] == a + b[..n];
    }
  }

  /** Every tree has a listing the parser could produce. */
  lemma {:induction false} ListingIsStream(cs: seq<Packet>, depth: nat)
    ensures IsStream(Listing(cs, depth))
    ensures forall x | x in Listing(cs, depth) :: x.depth >= depth
    ensures cs != [] ==> Listing(cs, depth) != [] && Listing(cs, depth)[0].depth == depth
    decreases cs, 1
  {
    if cs != [] {
      ListingIsStream(cs[..|cs| - 1], depth);
      ListingOfIsStream(cs[|cs| - 1], depth);
      StreamConcat(Listing(cs[..|cs| - 1], depth), ListingOf(cs[|cs| - 1], depth));
    }
  }

  lemma {:induction false} ListingOfIsStream(p: Packet, depth: nat)
    ensures IsStream(ListingOf(p, depth))
    ensures forall x | x in ListingOf(p, depth) :: x.depth >= depth
    ensures ListingOf(p, depth)[0].depth == depth
    decreases p, 0
  {
    match p
    case Holder(_, _, Structured(cs)) =>
      ListingIsStream(cs, depth + 1);
      SingletonStream(Parsed(depth, p.Shell()));
      StreamConcat([Parsed(depth, p.Shell())], Listing(cs, depth + 1));
    case _ =>
  }

  /** Whether the rightmost path of a tree goes down `depth` containers. */
  predicate Open(cs: seq<Packet>, depth: nat)
    decreases depth
  {
    depth == 0 || (cs != [] && cs[|cs| - 1].IsStructured() && Open(cs[|cs| - 1].Children(), depth - 1))
  }

  /** Appends `added` to the container at `depth` on the rightmost path. */
  function Graft(cs: seq<Packet>, depth: nat, added: seq<Packet>): seq<Packet>
    requires Open(cs, depth)
    decreases depth
  {
    if depth == 0 then cs + added
    else
      var last := cs[|cs| - 1];
      cs[..|cs| - 1] + [last.(body := Structured(Graft(last.Children(), depth - 1, added)))]
  }

  /** The reference: every packet is inserted by walking down from the root to its depth. */
  function Build(items: seq<Parsed>): (cs: seq<Packet>)
    requires IsStream(items) && (items != [] ==> items[0].depth == 0)
    ensures items != [] ==> forall d: nat | d <= items[|items| - 1].Below() :: Open(cs, d)
  {
    if items == [] then []
    else
      var n := |items| - 1;
      var cs := Build(items[..n]);
      OpenAfterGraft(cs, items[n].depth, items[n].packet);
      Graft(cs, items[n].depth, [items[n].packet])
  }

  lemma {:induction false} OpenAfterGraft(cs: seq<Packet>, depth: nat, p: Packet)
    requires Open(cs, depth)
    ensures forall d: nat | d <= depth + (if p.IsStructured() then 1 else 0) ::
      Open(Graft(cs, depth, [p]), d)
    decreases depth
  {
    if depth > 0 {
      OpenAfterGraft(cs[|cs| - 1].Children(), depth - 1, p);
    }
  }

  /** Only the content of the last packet changes. */
  lemma GraftStep(cs: seq<Packet>, depth: nat, added: seq<Packet>) returns (p: Packet)
    requires depth > 0 && Open(cs, depth)
    ensures cs != [] && Open(cs[|cs| - 1].Children(), depth - 1) && cs[|cs| - 1].IsStructured()
    ensures Graft(cs, depth, added) == cs[..|cs| - 1] + [p]
    ensures p.IsStructured() && p.Shell() == cs[|cs| - 1].Shell()
    ensures p.Children() == Graft(cs[|cs| - 1].Children(), depth - 1, added)
  {
    p := Graft(cs, depth, added)[|cs| - 1];
  }

  lemma {:induction false} ListingGraft(cs: seq<Packet>, depth: nat, added: seq<Packet>, base: nat)
    requires Open(cs, depth)
    ensures Listing(Graft(cs, depth, added), base) == Listing(cs, base) + Listing(added, base + depth)
    decreases depth
  {
    hide Listing, ListingOf;
    if depth == 0 {
      ListingConcat(cs, added, base);
    } else {
      var p := GraftStep(cs, depth, added);
      hide Graft, Open;
      var front, last := cs[..|cs| - 1], cs[|cs| - 1];
      assert cs == front + [last];
      ListingLast(front, p, base);
      ListingOfStructured(p, base);
      ListingGraft(last.Children(), depth - 1, added, base + 1);
      ListingLast(front, last, base);
      ListingOfStructured(last, base);
      RegroupInner(Listing(front, base), [Parsed(base, last.Shell())],
                   Listing(last.Children(), base + 1), Listing(added, base + depth));
    }
  }

  lemma RegroupInner<T>(a: seq<T>, b: seq<T>, c: seq<T>, d: seq<T>)
    ensures a + (b + (c + d)) == a + (b + c) + d
  {
  }

  /** Nothing is lost, reordered or misplaced: the depth-first listing of the tree is the
      stream, depths included. */
  lemma {:induction false} ListingBuild(items: seq<Parsed>)
    requires IsStream(items) && (items != [] ==> items[0].depth == 0)
    ensures Listing(Build(items), 0) == items
  {
    hide Listing, ListingOf, Build, Graft, Open, IsStream;
    if items == [] {
      BuildNothing();
    } else {
      var n := |items| - 1;
      var cs := BuildLast(items);
      ListingBuild(items[..n]);
      ListingInserted(cs, items[n]);
      assert items[..n] + [items[n]] == items;
    }
  }

  lemma BuildNothing()
    ensures IsStream([]) && Build([]) == [] && Listing([], 0) == []
  {
  }

  /** A packet inserted on the rightmost path is the last of the listing. */
  lemma ListingInserted(cs: seq<Packet>, x: Parsed)
    requires Open(cs, x.depth) && x.packet.Shell() == x.packet
    ensures Listing(Graft(cs, x.depth, [x.packet]), 0) == Listing(cs, 0) + [x]
  {
    hide Listing, ListingOf, Graft, Open;
    ListingGraft(cs, x.depth, [x.packet], 0);
    ListingShell(x.packet, x.depth);
  }

  /** The last packet is the last to be inserted. */
  lemma BuildLast(items: seq<Parsed>) returns (cs: seq<Packet>)
    requires IsStream(items) && items != [] && items[0].depth == 0
    ensures var n := |items| - 1;
      && IsStream(items[..n]) && (n > 0 ==> items[..n][0].depth == 0)
      && cs == Build(items[..n]) && Open(cs, items[n].depth)
      && Build(items) == Graft(cs, items[n].depth, [items[n].packet])
      && items[n].packet.Shell() == items[n].packet
  {
    cs := Build(items[..|items| - 1]);
    hide Graft, Open;
    assert Open(cs, items[|items| - 1].depth) by {
      OpenBehind(items[..|items| - 1], items[|items| - 1]);
    }
  }

  lemma OpenBehind(items: seq<Parsed>, x: Parsed)
    requires MayFollow(items, x.depth)
    ensures Open(Build(items), x.depth)
  {
  }

  lemma ListingShell(p: Packet, depth: nat)
    requires p.Shell() == p
    ensures Listing([p], depth) == [Parsed(depth, p)]
  {
    ListingLast([], p, depth);
    assert [] + [p] == [p];
  }

  lemma {:induction false} GraftNothing(cs: seq<Packet>, depth: nat)
    requires Open(cs, depth)
    ensures Graft(cs, depth, []) == cs
    decreases depth
  {
    if depth > 0 {
      GraftNothing(cs[|cs| - 1].Children(), depth - 1);
    }
  }

  lemma {:induction false} GraftTwice(cs: seq<Packet>, depth: nat, a: seq<Packet>, b: seq<Packet>)
    requires Open(cs, depth)
    ensures Open(Graft(cs, depth, a), depth)
    ensures Graft(Graft(cs, depth, a), depth, b) == Graft(cs, depth, a + b)
    decreases depth
  {
    if depth > 0 {
      GraftTwice(cs[|cs| - 1].Children(), depth - 1, a, b);
    } else {
      assert cs + a + b == cs + (a + b);
    }
  }

  /** Filling a container that was just appended. */
  lemma {:induction false} GraftInto(cs: seq<Packet>, depth: nat, p: Packet)
    requires Open(cs, depth) && p.IsStructured()
    ensures Open(Graft(cs, depth, [p.Shell()]), depth + 1)
    ensures Graft(Graft(cs, depth, [p.Shell()]), depth + 1, p.Children()) == Graft(cs, depth, [p])
    decreases depth
  {
    hide Graft, Open, Packet.Shell, Packet.Children, Packet.IsStructured;
    var shells := [p.Shell()];
    if depth > 0 {
      var q := GraftStep(cs, depth, shells);
      var r := GraftStep(cs, depth, [p]);
      var front, last := cs[..|cs| - 1], cs[|cs| - 1];
      GraftInto(last.Children(), depth - 1, p);
      GraftTop(front, q, depth, p.Children(), r);
    } else {
      FilledShell(cs, p);
    }
  }

  /** Appending below the last packet, told by what that makes of the packet. */
  lemma GraftTop(front: seq<Packet>, q: Packet, depth: nat, added: seq<Packet>, r: Packet)
    requires q.IsStructured() && Open(q.Children(), depth)
    requires r.IsStructured() && r.Shell() == q.Shell() && r.Children() == Graft(q.Children(), depth, added)
    ensures Open(front + [q], depth + 1)
    ensures Graft(front + [q], depth + 1, added) == front + [r]
  {
    var g := front + [q];
    assert g[..|g| - 1] == front && g[|g| - 1] == q;
    SamePacket(r, q.(body := Structured(Graft(q.Children(), depth, added))));
  }

  lemma SamePacket(a: Packet, b: Packet)
    requires a.IsStructured() && b.IsStructured()
    requires a.Shell() == b.Shell() && a.Children() == b.Children()
    ensures a == b
  {
  }

  lemma FilledShell(cs: seq<Packet>, p: Packet)
    requires p.IsStructured()
    ensures Open(Graft(cs, 0, [p.Shell()]), 1)
    ensures Graft(Graft(cs, 0, [p.Shell()]), 1, p.Children()) == Graft(cs, 0, [p])
  {
    var g := cs + [p.Shell()];
    assert g[..|cs|] == cs && g[|cs|] == p.Shell();
    assert Graft(p.Shell().Children(), 0, p.Children()) == p.Children();
  }

  /** Where a packet of depth `depth` may follow the stream `items`. */
  ghost predicate MayFollow(items: seq<Parsed>, depth: nat) {
    && IsStream(items)
    && (if items == [] then depth == 0
        else items[0].depth == 0 && depth <= items[|items| - 1].Below())
  }

  lemma ListingMayFollow(items: seq<Parsed>, cs: seq<Packet>, depth: nat)
    requires MayFollow(items, depth)
    ensures MayFollow(items + Listing(cs, depth), depth)
  {
    ListingIsStream(cs, depth);
    StreamConcat(items, Listing(cs, depth));
    if cs == [] {
      assert items + Listing(cs, depth) == items;
    }
  }

  lemma BuildNext(items: seq<Parsed>, x: Parsed)
    requires MayFollow(items, x.depth) && x.packet.Shell() == x.packet
    ensures MayFollow(items + [x], x.Below()) && Open(Build(items), x.depth)
    ensures Build(items + [x]) == Graft(Build(items), x.depth, [x.packet])
  {
    assert (items + [x])[..|items|] == items;
  }

  /** Reading the listing of a container behind any stream appends exactly that container's
      packets, whole. */
  lemma {:induction false} BuildListingBehind(items: seq<Parsed>, cs: seq<Packet>, depth: nat)
    requires MayFollow(items, depth)
    ensures MayFollow(items + Listing(cs, depth), depth) && Open(Build(items), depth)
    ensures Build(items + Listing(cs, depth)) == Graft(Build(items), depth, cs)
    decreases cs
  {
    hide Build, Graft, Open, IsStream;
    assert Open(Build(items), depth) by { BuildIsOpen(items, depth); }
    ListingMayFollow(items, cs, depth);
    if cs == [] {
      assert items + Listing(cs, depth) == items;
      GraftNothing(Build(items), depth);
    } else {
      var front, last := cs[..|cs| - 1], cs[|cs| - 1];
      var before := items + Listing(front, depth);
      BuildListingBehind(items, front, depth);
      BuildPacketBehind(before, last, depth);
      assert items + Listing(cs, depth) == before + ListingOf(last, depth);
      GraftTwice(Build(items), depth, front, [last]);
      assert front + [last] == cs;
    }
  }

  /** What may follow deeper down may also follow further up. */
  lemma MayFollowUp(all: seq<Parsed>, deep: nat, depth: nat, items: seq<Parsed>, x: Parsed)
    requires MayFollow(all, deep) && depth <= deep
    requires items + [x] <= all && MayFollow(items, depth)
    ensures MayFollow(all, depth)
  {
    assert all != [];
  }

  lemma {:induction false} BuildPacketBehind(items: seq<Parsed>, p: Packet, depth: nat)
    requires MayFollow(items, depth)
    ensures MayFollow(items + ListingOf(p, depth), depth) && Open(Build(items), depth)
    ensures Build(items + ListingOf(p, depth)) == Graft(Build(items), depth, [p])
    decreases p
  {
    hide Build, Graft, Open, IsStream, Listing;
    var x := Parsed(depth, p.Shell());
    BuildNext(items, x);
    if p.IsStructured() {
      ListingOfStructured(p, depth);
      hide ListingOf;
      BuildListingBehind(items + [x], p.body.children, depth + 1);
      Regroup(items, [x], Listing(p.body.children, depth + 1));
      MayFollowUp(items + ListingOf(p, depth), depth + 1, depth, items, x);
      GraftInto(Build(items), depth, p);
    } else {
      assert ListingOf(p, depth) == [x];
    }
  }

  lemma BuildIsOpen(items: seq<Parsed>, depth: nat)
    requires MayFollow(items, depth)
    ensures Open(Build(items), depth)
  {
  }

  lemma RootGraft(cs: seq<Packet>)
    ensures IsStream([]) && Open(Build([]), 0) && Graft(Build([]), 0, cs) == cs
  {
    assert [] + cs == cs;
  }

  /** Every tree is the one built from its listing.  With `ListingBuild`, building and listing
      are inverse to each other. */
  lemma BuildListing(cs: seq<Packet>)
    ensures IsStream(Listing(cs, 0)) && (Listing(cs, 0) != [] ==> Listing(cs, 0)[0].depth == 0)
    ensures Build(Listing(cs, 0)) == cs
  {
    ListingIsStream(cs, 0);
    RootGraft(cs);
    hide Listing, ListingOf, Graft, Build, IsStream, Open;
    BuildListingBehind([], cs, 0);
    assert [] + Listing(cs, 0) == Listing(cs, 0);
  }
}
