/** `PacketPile`: a tree of packets, read from a parser and edited in place. */
module PacketPile {
  import opened Primitives
  import opened Packets
  import opened Paths
  import opened Splices

  datatype PileError = InvalidOperation | IndexOutOfRange | ParseError(code: int)

  datatype Outcome<+T> = Done(value: T) | Refused(error: PileError)

  class PacketPile {
    var topLevel: seq<Packet>

    constructor (packets: seq<Packet>)
      ensures topLevel == packets
    {
      topLevel := packets;
    }

    /** Reads all packets of a parser.  Each step of the parser yields a packet and its depth;
        if `failure` is given, the step that yields the last packet fails instead. */
    static method TryFrom(items: seq<Parsed>, failure: Option<int>)
      returns (r: Outcome<PacketPile>)
      requires IsStream(items)
      ensures items != [] && items[0].depth != 0 ==> r == Refused(InvalidOperation)
      ensures (items == [] || items[0].depth == 0) ==>
        match failure {
          case Some(e) => if items == [] then r.Done? else r == Refused(ParseError(e))
          case None => r.Done?
        }
      ensures r.Done? ==> fresh(r.value) && (items == [] || items[0].depth == 0)
      ensures r.Done? ==> r.value.topLevel == Build(items)
    {
      if items != [] && items[0].depth != 0 {
        return Refused(InvalidOperation);
      }
      if items == [] {
        var empty := new PacketPile([]);
        return Done(empty);
      }

      var top := ReadAll(items, failure);
      match top {
        case Done(packets) =>
          var pile := new PacketPile(packets);
          r := Done(pile);
        case Refused(e) => r := Refused(e);
      }
    }

    /** `path_ref` */
    method PathRef(pathspec: seq<nat>) returns (packet: Option<Packet>)
      ensures packet == PacketAt(topLevel, pathspec)
    {
      packet := None;
      var cont := Some(Structured(topLevel));
      for level := 0 to |pathspec|
        invariant packet == PacketAt(topLevel, pathspec[..level])
        invariant level == 0 ==> cont == Some(Structured(topLevel))
        invariant level > 0 ==> packet.Some?
        invariant level > 0 ==> cont == if packet.value.Holder? then Some(packet.value.body) else None
      {
        PacketAtStep(topLevel, pathspec[..level], pathspec[level]);
        assert pathspec[..level + 1] == pathspec[..level] + [pathspec[level]];
        if cont.None? || !cont.value.Structured? || pathspec[level] >= |cont.value.children| {
          PacketAtNone(topLevel, pathspec, level + 1);
          return None;
        }
        packet := Some(cont.value.children[pathspec[level]]);
        cont := if packet.value.Holder? then Some(packet.value.body) else None;
      }
      assert pathspec[..|pathspec|] == pathspec;
    }

    /** Writes the children of the container at `path`. */
    method SetChildren(path: seq<nat>, children: seq<Packet>)
      requires ChildrenAt(topLevel, path).Some?
      modifies this
      ensures topLevel == PutAt(old(topLevel), path, children)
      ensures ChildrenAt(topLevel, path) == Some(children)
      ensures forall other :: PutAt(topLevel, path, other) == PutAt(old(topLevel), path, other)
    {
      ChildrenAtPut(topLevel, path, children);
      forall other ensures ChildrenAt(PutAt(topLevel, path, children), path).Some?
        && PutAt(PutAt(topLevel, path, children), path, other) == PutAt(topLevel, path, other)
      {
        PutAtTwice(topLevel, path, children, other);
      }
      topLevel := PutAt(topLevel, path, children);
    }

    /** `replace`: takes `count` packets out of the container the path leads to, and puts
        `packets` in their place. */
    method Replace(pathspec: seq<nat>, count: nat, packets: seq<Packet>)
      returns (r: Outcome<seq<Packet>>)
      modifies this
      ensures Accepts(old(topLevel), pathspec, count) ==>
        && r == Done(Removed(old(topLevel), pathspec, count))
        && topLevel == Spliced(old(topLevel), pathspec, count, packets)
      ensures !Accepts(old(topLevel), pathspec, count) ==>
        r == Refused(IndexOutOfRange) && topLevel == old(topLevel)
    {
      hide ChildrenAt, PutAt, OnlyContainers;
      var container: seq<nat> := [];
      OnlyContainersRoot(topLevel);
      for level := 0 to |pathspec|
        invariant container == pathspec[..level] && topLevel == old(topLevel)
        invariant OnlyContainers(topLevel, container)
        invariant pathspec != [] ==> level < |pathspec|
      {
        var i := pathspec[level];
        var tmp := ChildrenAt(topLevel, container);
        if level == |pathspec| - 1 {
          assert container == pathspec[..|pathspec| - 1];
          if tmp.None? || i + count > |tmp.value| {
            return Refused(IndexOutOfRange);
          }
          // Out with the old.
          var children := tmp.value;
          var removed := children[i..i + count];
          SetChildren(container, children[..i] + children[i + count..]);
          // In with the new.
          var rest := ChildrenAt(topLevel, container).value;
          var tail := rest[i..];
          assert rest[..i] == children[..i] && tail == children[i + count..];
          SetChildren(container, rest[..i]);
          SetChildren(container, ChildrenAt(topLevel, container).value + packets);
          SetChildren(container, ChildrenAt(topLevel, container).value + tail);
          return Done(removed);
        }
        OnlyContainersStep(topLevel, container, i);
        assert pathspec[..level + 1] == container + [i];
        if tmp.None? || i >= |tmp.value| || !HoldsPackets(tmp.value[i]) {
          OnlyContainersPrefix(topLevel, pathspec, level + 1);
          return Refused(IndexOutOfRange);
        }
        container := container + [i];
      }
      r := Refused(IndexOutOfRange);
    }
  }

  /** The two nested loops of `try_from`: the outer one starts at the root, the inner one stays
      in the container, or goes into its last packet, as long as nothing is popped. */
  method ReadAll(items: seq<Parsed>, failure: Option<int>) returns (r: Outcome<seq<Packet>>)
    requires IsStream(items) && items != [] && items[0].depth == 0
    ensures r == if failure.Some? then Refused(ParseError(failure.value)) else Done(Build(items))
  {
    hide Build, IsStream, Open, Rightmost, Graft, ChildrenAt, PutAt, Built;
    BuiltNothing(items);
    var topLevel: seq<Packet> := [];
    var next := 0;
    var lastPosition := 0;
    while true
      invariant 0 <= next < |items| && topLevel == Built(items, next)
      invariant lastPosition == if next > 0 then items[next - 1].depth else 0
      decreases |items| - next
    {
      // pp.recurse()
      if next == |items| - 1 && failure.Some? {
        return Refused(ParseError(failure.value));
      }
      BuiltStep(items, next);
      var item := items[next];
      next := next + 1;
      var position := item.depth;
      var relativePosition: int := position - lastPosition;
      assert relativePosition <= 1;

      // Find the right container, from the root.
      var container := Descend(topLevel, position, position - if relativePosition > 0 then 1 else 0);
      if relativePosition < 0 {
        relativePosition := 0;
      }

      // Stay in the container, or go into its last packet, while nothing is popped.
      while true
        invariant 0 < next <= |items| && item == items[next - 1] && position == item.depth
        invariant topLevel == Built(items, next - 1) && Open(topLevel, position)
        invariant relativePosition == 0 || relativePosition == 1
        invariant relativePosition <= position && Open(topLevel, position - relativePosition)
        invariant container == Rightmost(topLevel, position - relativePosition)
        invariant failure.Some? ==> next < |items|
        decreases |items| - next
      {
        if relativePosition == 1 {
          container := IntoLast(topLevel, container, position - 1);
        }
        BuiltStep(items, next - 1);
        topLevel := Push(topLevel, container, position, item.packet);

        if next == |items| {
          BuiltAll(items);
          return Done(topLevel);
        }
        lastPosition := position;
        BuiltStep(items, next);
        position := items[next].depth;
        relativePosition := position - lastPosition;
        if position < lastPosition {
          break;
        }
        if next == |items| - 1 && failure.Some? {
          return Refused(ParseError(failure.value));
        }
        item := items[next];
        next := next + 1;
      }
    }
  }

  /** Goes into the last packet of the container at `depth`. */
  method IntoLast(topLevel: seq<Packet>, container: seq<nat>, depth: nat) returns (below: seq<nat>)
    requires Open(topLevel, depth + 1)
    requires Open(topLevel, depth) && container == Rightmost(topLevel, depth)
    ensures below == Rightmost(topLevel, depth + 1)
  {
    RightmostStep(topLevel, depth);
    var children := ChildrenAt(topLevel, container).value;
    below := container + [|children| - 1];
  }

  /** Walks from the root to the container at `levels`, always into the last packet. */
  method Descend(topLevel: seq<Packet>, depth: nat, levels: nat) returns (container: seq<nat>)
    requires Open(topLevel, depth) && levels <= depth
    ensures Open(topLevel, levels) && container == Rightmost(topLevel, levels)
  {
    container := [];
    for level := 0 to levels
      invariant Open(topLevel, level) && container == Rightmost(topLevel, level)
    {
      OpenDown(topLevel, depth, level + 1);
      container := IntoLast(topLevel, container, level);
    }
  }

  /** `container.children_mut().unwrap().push(packet)` */
  method Push(topLevel: seq<Packet>, container: seq<nat>, depth: nat, p: Packet)
    returns (r: seq<Packet>)
    requires Open(topLevel, depth) && container == Rightmost(topLevel, depth)
    ensures r == Graft(topLevel, depth, [p]) && Open(r, depth)
    ensures container == Rightmost(r, depth)
  {
    RightmostStays(topLevel, depth, p);
    PushAtRightmost(topLevel, depth, p);
    var children := ChildrenAt(topLevel, container).value;
    r := PutAt(topLevel, container, children + [p]);
  }

  /** The tree built from the first `i` items of a stream. */
  ghost function Built(items: seq<Parsed>, i: nat): seq<Packet>
    requires IsStream(items) && items != [] && items[0].depth == 0 && i <= |items|
  {
    StreamPrefix(items, i);
    Build(items[..i])
  }

  lemma BuiltNothing(items: seq<Parsed>)
    requires IsStream(items) && items != [] && items[0].depth == 0
    ensures Built(items, 0) == []
  {
  }

  lemma BuiltAll(items: seq<Parsed>)
    requires IsStream(items) && items != [] && items[0].depth == 0
    ensures Built(items, |items|) == Build(items)
  {
    assert items[..|items|] == items;
  }

  lemma BuiltStep(items: seq<Parsed>, i: nat)
    requires IsStream(items) && i < |items| && items[0].depth == 0
    ensures i > 0 ==> items[i].depth <= items[i - 1].depth + 1
    ensures Open(Built(items, i), items[i].depth)
    ensures Built(items, i + 1) == Graft(Built(items, i), items[i].depth, [items[i].packet])
  {
    hide Build, Graft, Open, IsStream;
    StreamPrefix(items, i);
    StreamPrefix(items, i + 1);
    assert items[..i + 1] == items[..i] + [items[i]];
    StreamLast(items[..i], items[i]);
    BuildNext(items[..i], items[i]);
  }

  lemma StreamLast(items: seq<Parsed>, x: Parsed)
    requires IsStream(items + [x]) && (items + [x])[0].depth == 0
    ensures MayFollow(items, x.depth) && x.packet.Shell() == x.packet
  {
    assert (items + [x])[..|items|] == items;
    assert items != [] ==> items[0] == (items + [x])[0];
  }

  lemma {:induction false} StreamPrefix(items: seq<Parsed>, i: nat)
    requires IsStream(items) && i <= |items|
    ensures IsStream(items[..i])
    decreases |items|
  {
    if i < |items| {
      assert items[..|items| - 1][..i] == items[..i];
      StreamPrefix(items[..|items| - 1], i);
    } else {
      assert items[..i] == items;
    }
  }
}
