/** Paths into a packet tree.  A mutable reference to a container is modelled as the path to it:
    it is exclusive, so the path says all there is to say about it. */
module Paths {
  import opened Primitives
  import opened Packets

  /** The children of the container at `path`, if all packets on the way are structured. */
  function ChildrenAt(cs: seq<Packet>, path: seq<nat>): Option<seq<Packet>>
    decreases |path|
  {
    if path == [] then Some(cs)
    else if path[0] < |cs| && cs[path[0]].IsStructured() then
      ChildrenAt(cs[path[0]].Children(), path[1..])
    else None
  }

  /** The tree with the container at `path` holding `other` instead. */
  function PutAt(cs: seq<Packet>, path: seq<nat>, other: seq<Packet>): seq<Packet>
    requires ChildrenAt(cs, path).Some?
    decreases |path|
  {
    if path == [] then other
    else
      var p := cs[path[0]];
      cs[path[0] := p.(body := Structured(PutAt(p.Children(), path[1..], other)))]
  }

  lemma {:induction false} ChildrenAtPut(cs: seq<Packet>, path: seq<nat>, other: seq<Packet>)
    requires ChildrenAt(cs, path).Some?
    ensures ChildrenAt(PutAt(cs, path, other), path) == Some(other)
    decreases |path|
  {
    if path != [] {
      ChildrenAtPut(cs[path[0]].Children(), path[1..], other);
    }
  }

  lemma {:induction false} PutAtTwice(cs: seq<Packet>, path: seq<nat>, a: seq<Packet>, b: seq<Packet>)
    requires ChildrenAt(cs, path).Some?
    ensures ChildrenAt(PutAt(cs, path, a), path).Some?
    ensures PutAt(PutAt(cs, path, a), path, b) == PutAt(cs, path, b)
    decreases |path|
  {
    if path != [] {
      PutAtTwice(cs[path[0]].Children(), path[1..], a, b);
    }
  }

  lemma {:induction false} PutAtSame(cs: seq<Packet>, path: seq<nat>)
    requires ChildrenAt(cs, path).Some?
    ensures PutAt(cs, path, ChildrenAt(cs, path).value) == cs
    decreases |path|
  {
    if path != [] {
      PutAtSame(cs[path[0]].Children(), path[1..]);
    }
  }

  lemma {:induction false} ChildrenAtExtend(cs: seq<Packet>, path: seq<nat>, i: nat)
    requires ChildrenAt(cs, path).Some?
    ensures var c := ChildrenAt(cs, path).value;
      ChildrenAt(cs, path + [i]) ==
        if i < |c| && c[i].IsStructured() then Some(c[i].Children()) else None
    decreases |path|
  {
    if path == [] {
      assert (path + [i])[1..] == [];
    } else {
      assert (path + [i])[1..] == path[1..] + [i];
      ChildrenAtExtend(cs[path[0]].Children(), path[1..], i);
    }
  }

  /** The path to the container at `depth` on the rightmost path. */
  function Rightmost(cs: seq<Packet>, depth: nat): (path: seq<nat>)
    requires Open(cs, depth)
    ensures |path| == depth
    decreases depth
  {
    if depth == 0 then [] else [|cs| - 1] + Rightmost(cs[|cs| - 1].Children(), depth - 1)
  }

  lemma ChildrenBelow(cs: seq<Packet>, i: nat, rest: seq<nat>)
    requires i < |cs| && cs[i].IsStructured()
    ensures ChildrenAt(cs, [i] + rest) == ChildrenAt(cs[i].Children(), rest)
  {
    assert ([i] + rest)[1..] == rest;
  }

  lemma PutBelow(cs: seq<Packet>, i: nat, rest: seq<nat>, other: seq<Packet>)
    requires i < |cs| && cs[i].IsStructured() && ChildrenAt(cs[i].Children(), rest).Some?
    ensures ChildrenAt(cs, [i] + rest).Some?
    ensures PutAt(cs, [i] + rest, other)
      == cs[i := cs[i].(body := Structured(PutAt(cs[i].Children(), rest, other)))]
  {
    assert ([i] + rest)[1..] == rest;
  }

  /** The container at `depth` on the rightmost path. */
  function Innermost(cs: seq<Packet>, depth: nat): seq<Packet>
    requires Open(cs, depth)
    decreases depth
  {
    if depth == 0 then cs else Innermost(cs[|cs| - 1].Children(), depth - 1)
  }

  lemma {:induction false} ChildrenAtRightmost(cs: seq<Packet>, depth: nat)
    requires Open(cs, depth)
    ensures ChildrenAt(cs, Rightmost(cs, depth)) == Some(Innermost(cs, depth))
    decreases depth
  {
    if depth > 0 {
      var below := cs[|cs| - 1].Children();
      ChildrenAtRightmost(below, depth - 1);
      ChildrenBelow(cs, |cs| - 1, Rightmost(below, depth - 1));
    }
  }

  lemma {:induction false} RightmostStays(cs: seq<Packet>, depth: nat, p: Packet)
    requires Open(cs, depth)
    ensures Open(Graft(cs, depth, [p]), depth)
    ensures Rightmost(Graft(cs, depth, [p]), depth) == Rightmost(cs, depth)
    decreases depth
  {
    if depth > 0 {
      var q := GraftStep(cs, depth, [p]);
      hide Graft;
      RightmostStays(cs[|cs| - 1].Children(), depth - 1, p);
    }
  }

  lemma {:induction false} PushAtRightmost(cs: seq<Packet>, depth: nat, p: Packet)
    requires Open(cs, depth)
    ensures ChildrenAt(cs, Rightmost(cs, depth)).Some?
    ensures PutAt(cs, Rightmost(cs, depth), ChildrenAt(cs, Rightmost(cs, depth)).value + [p])
      == Graft(cs, depth, [p])
    decreases depth
  {
    ChildrenAtRightmost(cs, depth);
    if depth > 0 {
      hide PutAt, ChildrenAt;
      var n := |cs| - 1;
      var below := cs[n].Children();
      ChildrenAtRightmost(below, depth - 1);
      PushAtRightmost(below, depth - 1, p);
      PutBelow(cs, n, Rightmost(below, depth - 1), Innermost(cs, depth) + [p]);
    }
  }

  lemma {:induction false} OpenDown(cs: seq<Packet>, depth: nat, level: nat)
    requires Open(cs, depth) && level <= depth
    ensures Open(cs, level)
    decreases depth
  {
    if 0 < level < depth {
      OpenDown(cs[|cs| - 1].Children(), depth - 1, level - 1);
    }
  }

  /** One level further down: the last packet of the container. */
  lemma {:induction false} RightmostStep(cs: seq<Packet>, depth: nat)
    requires Open(cs, depth + 1)
    ensures Open(cs, depth)
    ensures ChildrenAt(cs, Rightmost(cs, depth)) == Some(Innermost(cs, depth))
    ensures var c := Innermost(cs, depth);
      c != [] && Rightmost(cs, depth + 1) == Rightmost(cs, depth) + [|c| - 1]
    decreases depth
  {
    OpenDown(cs, depth + 1, depth);
    ChildrenAtRightmost(cs, depth);
    if depth > 0 {
      RightmostStep(cs[|cs| - 1].Children(), depth - 1);
    }
  }

  /** The packet at `path`: each index selects among the children of the packet before. */
  function PacketAt(cs: seq<Packet>, path: seq<nat>): Option<Packet>
    decreases |path|
  {
    if path == [] || path[0] >= |cs| then None
    else if |path| == 1 then Some(cs[path[0]])
    else PacketAt(cs[path[0]].Children(), path[1..])
  }

  lemma {:induction false} PacketAtStep(cs: seq<Packet>, path: seq<nat>, i: nat)
    ensures PacketAt(cs, path + [i]) ==
      var below := if path == [] then cs
        else if PacketAt(cs, path).Some? then PacketAt(cs, path).value.Children() else [];
      if i < |below| then Some(below[i]) else None
    decreases |path|
  {
    if path != [] {
      assert (path + [i])[1..] == path[1..] + [i];
      if path[0] < |cs| {
        PacketAtStep(cs[path[0]].Children(), path[1..], i);
      }
    }
  }

  lemma {:induction false} PacketAtNone(cs: seq<Packet>, path: seq<nat>, n: nat)
    requires 0 < n <= |path| && PacketAt(cs, path[..n]).None?
    ensures PacketAt(cs, path).None?
    decreases |path| - n
  {
    if n < |path| {
      PacketAtStep(cs, path[..n], path[n]);
      assert path[..n + 1] == path[..n] + [path[n]];
      PacketAtNone(cs, path, n + 1);
    } else {
      assert path[..n] == path;
    }
  }

  /** Below a container, paths go on in its children. */
  lemma {:induction false} PacketAtBelow(cs: seq<Packet>, path: seq<nat>, rest: seq<nat>)
    requires ChildrenAt(cs, path).Some? && rest != []
    ensures PacketAt(cs, path + rest) == PacketAt(ChildrenAt(cs, path).value, rest)
    decreases |path|
  {
    if path == [] {
      assert path + rest == rest;
    } else {
      assert (path + rest)[1..] == path[1..] + rest;
      PacketAtBelow(cs[path[0]].Children(), path[1..], rest);
    }
  }

  /** Writing a container leaves every packet that is not in it as it was; the packets that
      enclose it keep everything but their content. */
  lemma {:induction false} PacketAtPut(cs: seq<Packet>, path: seq<nat>, other: seq<Packet>, q: seq<nat>)
    requires ChildrenAt(cs, path).Some? && (path <= q ==> q == path)
    ensures var was, now := PacketAt(cs, q), PacketAt(PutAt(cs, path, other), q);
      if q <= path && q != [] then was.Some? && now.Some? && now.value.Shell() == was.value.Shell()
      else now == was
    decreases |path|
  {
    if path != [] && q != [] && q[0] == path[0] && |q| > 1 {
      assert path == [path[0]] + path[1..] && q == [q[0]] + q[1..];
      PacketAtPut(cs[path[0]].Children(), path[1..], other, q[1..]);
    }
  }
}
