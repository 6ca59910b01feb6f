/** The LRU queue: a singly linked list of frames with head and tail pointers and a map of the
    frames that are on the list. It refines a duplicate-free sequence of frames. */
module LruQueue {
  import opened Prelude
  import opened Paging

  class Node {
    const frame: nat
    var next: Node?

    constructor (frame: nat)
      ensures this.frame == frame && next == null
    {
      this.frame := frame;
      this.next := null;
    }
  }

  function Frames(ns: seq<Node>): seq<nat> {
    seq(|ns|, i requires 0 <= i < |ns| => ns[i].frame)
  }

  /** The queue has no duplicates and `bits` says which frames are on it. */
  ghost predicate Tracks(q: seq<nat>, bits: seq<bool>) {
    && NoDup(q)
    && (forall f :: f in q ==> f < |bits|)
    && (forall f :: 0 <= f < |bits| ==> (bits[f] <==> f in q))
  }

  lemma TracksPop(q: seq<nat>, bits: seq<bool>)
    requires Tracks(q, bits) && q != []
    ensures q[0] < |bits| && bits[q[0]] && Tracks(q[1..], bits[q[0] := false])
  {
    assert q[0] in q && forall f :: f in q <==> f == q[0] || f in q[1..];
  }

  lemma TracksPush(q: seq<nat>, bits: seq<bool>, f: nat)
    requires Tracks(q, bits) && f < |bits| && !bits[f]
    ensures Tracks(q + [f], bits[f := true])
  {}

  lemma TracksMove(q: seq<nat>, bits: seq<bool>, at: nat)
    requires Tracks(q, bits) && at < |q|
    ensures Tracks(q[..at] + q[at + 1..] + [q[at]], bits)
  {
    var r := q[..at] + q[at + 1..] + [q[at]];
    assert q == q[..at] + [q[at]] + q[at + 1..];
    assert forall f :: f in r <==> f in q;
    forall i, j | 0 <= i < j < |r| ensures r[i] != r[j] {
      var i', j' := if i < at then i else i + 1, if j == |r| - 1 then at else if j < at then j else j + 1;
      assert r[i] == q[i'] && r[j] == q[j'] && i' != j';
    }
  }

  /** Where a frame on the list is; a new node for it is behind all others. */
  lemma TrackedAt(ns: seq<Node>, bits: seq<bool>, frame: nat) returns (at: nat)
    requires Tracks(Frames(ns), bits) && frame < |bits| && bits[frame]
    ensures at < |ns| && ns[at].frame == frame && forall i :: 0 <= i < at ==> ns[i].frame != frame
  {
    var q := Frames(ns);
    assert frame in q;
    at :| 0 <= at < |q| && q[at] == frame;
    forall i | 0 <= i < at ensures ns[i].frame != frame {
      assert q[i] == ns[i].frame;
    }
  }

  lemma FramesConcat(a: seq<Node>, b: seq<Node>)
    ensures Frames(a + b) == Frames(a) + Frames(b)
  {}

  lemma FramesWithout(ns: seq<Node>, at: nat)
    requires at < |ns|
    ensures Frames(ns)[at] == ns[at].frame
    ensures Frames(ns[..at] + ns[at + 1..]) == Frames(ns)[..at] + Frames(ns)[at + 1..]
  {}

  /** A node for the same frame joins, and the old one leaves. */
  lemma MovedFrames(ns: seq<Node>, n: Node, bits: seq<bool>, at: nat)
    requires Tracks(Frames(ns), bits) && at < |ns| && ns[at].frame == n.frame
    ensures var ns' := ns[..at] + ns[at + 1..] + [n];
      Frames(ns') == Without(Frames(ns), n.frame) + [n.frame] && Tracks(Frames(ns'), bits)
  {
    var q := Frames(ns);
    FramesWithout(ns, at);
    FramesConcat(ns[..at] + ns[at + 1..], [n]);
    assert Frames([n]) == [n.frame];
    WithoutAt(q, at);
    TracksMove(q, bits, at);
  }

  class Queue {
    var head: Node?
    var tail: Node?
    const referenced: array<bool>
    ghost var nodes: seq<Node>

    ghost predicate Linked()
      reads this, nodes
    {
      && NoDup(nodes)
      && head == (if nodes == [] then null else nodes[0])
      && tail == (if nodes == [] then null else nodes[|nodes| - 1])
      && (forall i :: 0 <= i < |nodes| - 1 ==> nodes[i].next == nodes[i + 1])
      && (nodes != [] ==> nodes[|nodes| - 1].next == null)
    }

    /** The list is linked, every frame is on it at most once, and `referenced` says which. */
    ghost predicate Valid()
      reads this, nodes, referenced
    {
      Linked() && Tracks(Frames(nodes), referenced[..])
    }

    constructor (memsize: nat)
      ensures Valid() && fresh(referenced) && referenced.Length == memsize && nodes == []
    {
      head, tail := null, null;
      referenced := new bool[memsize](_ => false);
      nodes := [];
    }

    /** The frame at the head leaves the queue. */
    method Evict() returns (frame: nat)
      requires Valid() && nodes != []
      modifies this, referenced
      ensures Valid() && nodes == old(nodes)[1..]
      ensures frame == old(Frames(nodes))[0] && Frames(nodes) == old(Frames(nodes))[1..]
    {
      assert |nodes| > 1 ==> nodes[0] != nodes[|nodes| - 1];
      TracksPop(Frames(nodes), referenced[..]);
      frame := head.frame;
      if head == tail {
        tail := null;
      }
      assert referenced[frame];
      referenced[frame] := false;
      head := head.next;
      assert Frames(nodes[1..]) == Frames(nodes)[1..];
      assert referenced[..] == old(referenced[..])[frame := false];
      nodes := nodes[1..];
    }

    /** The frame moves to the tail of the queue, or joins it there. */
    method Ref(frame: nat)
      requires Valid() && frame < referenced.Length
      modifies this, nodes, referenced
      ensures Valid() && fresh(set n | n in nodes && n !in old(nodes))
      ensures Frames(nodes) == Without(old(Frames(nodes)), frame) + [frame]
    {
      if referenced[frame] {
        MoveToTail(frame);
      } else {
        ghost var q, bits := Frames(nodes), referenced[..];
        TracksPush(q, bits, frame);
        WithoutNone(q, frame);
        referenced[frame] := true;
        Append(frame);
        assert Frames(nodes) == q + [frame];
        assert referenced[..] == bits[frame := true];
      }
    }

    /** A frame on the list: a new node is appended before the old one is removed. */
    method MoveToTail(frame: nat)
      requires Valid() && frame < referenced.Length && referenced[frame]
      modifies this, nodes
      ensures Valid() && fresh(set n | n in nodes && n !in old(nodes))
      ensures Frames(nodes) == Without(old(Frames(nodes)), frame) + [frame]
    {
      hide Tracks, Without, NoDup, Frames;
      ghost var was, bits := nodes, referenced[..];
      ghost var at := TrackedAt(was, bits, frame);
      Append(frame);
      ghost var n := nodes[|was|];
      assert nodes == was + [n];
      RemoveFirst(frame, at);
      assert nodes == was[..at] + was[at + 1..] + [n];
      MovedFrames(was, n, bits, at);
    }

    /** A new node joins the list behind the tail. */
    method Append(frame: nat)
      requires Linked()
      modifies this, nodes
      ensures Linked()
      ensures |nodes| == |old(nodes)| + 1 && nodes[..|old(nodes)|] == old(nodes)
      ensures fresh(nodes[|old(nodes)|]) && nodes[|old(nodes)|].frame == frame
    {
      var n := new Node(frame);
      if tail == null {
        tail := n;
        head := tail;
      } else {
        tail.next := n;
        tail := n;
      }
      nodes := nodes + [n];
    }

    /** The list is searched from its head for the frame, which is always found, and the node
        found is unlinked. */
    method RemoveFirst(frame: nat, ghost at: nat)
      requires Linked() && at + 1 < |nodes| && nodes[at].frame == frame
      requires forall i :: 0 <= i < at ==> nodes[i].frame != frame
      modifies this, nodes
      ensures Linked() && nodes == old(nodes)[..at] + old(nodes)[at + 1..]
    {
      var p: Node?, previous: Node? := head, null;
      ghost var k: nat := 0;
      while p.frame != frame
        invariant k <= at && p == nodes[k] && previous == (if k == 0 then null else nodes[k - 1])
        decreases at - k
      {
        previous := p;
        p := p.next;
        k := k + 1;
      }
      if previous != null {
        previous.next := p.next;
      } else {
        head := p.next;
        if head == null {
          tail := null;
        }
      }
      ghost var before := nodes;
      nodes := nodes[..at] + nodes[at + 1..];
      assert forall i :: 0 <= i < |nodes| ==> nodes[i] == before[if i < at then i else i + 1];
      assert nodes[|nodes| - 1] == before[|before| - 1];
      assert forall i :: 0 <= i < |before| && i != at - 1 ==> before[i] != previous;
    }
  }

  lemma {:induction false} WithoutAt(q: seq<nat>, k: nat)
    requires NoDup(q) && k < |q|
    ensures Without(q, q[k]) == q[..k] + q[k + 1..]
  {
    if k == 0 {
      WithoutNone(q[1..], q[0]);
    } else {
      WithoutAt(q[1..], k - 1);
      assert q[1..][..k - 1] == q[1..k] && q[1..][k..] == q[k + 1..];
    }
  }
}
