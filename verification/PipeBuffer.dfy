/**
 A pipe that never makes its sender wait: packets are read into a linked list while
 there is memory, and written out as far as the receiver takes them.
 */
module PipeBuffer {
  import opened Sequences

  type Bytes = seq<bv8>

  class Node {
    const pkt: Bytes
    var next: Node?

    constructor (pkt: Bytes)
      ensures this.pkt == pkt && next == null
    {
      this.pkt, next := pkt, null;
    }
  }

  // All bytes of a list of packets.
  function Joined(nodes: seq<Node>): Bytes {
    if nodes == [] then [] else nodes[0].pkt + Joined(nodes[1..])
  }

  lemma {:induction false} JoinedAppend(nodes: seq<Node>, n: Node)
    ensures Joined(nodes + [n]) == Joined(nodes) + n.pkt
  {
    if nodes == [] {
      assert Joined([n][1..]) == [];
    } else {
      JoinedAppend(nodes[1..], n);
      assert (nodes + [n])[1..] == nodes[1..] + [n];
      Regroup(nodes[0].pkt, Joined(nodes[1..]), n.pkt);
    }
  }

  class List {
    var head: Node?
    var tail: Node?
    // The nodes from head to tail.
    ghost var nodes: seq<Node>

    constructor ()
      ensures Valid() && nodes == []
    {
      head, tail, nodes := null, null, [];
    }

    ghost predicate Valid()
      reads this, nodes
    {
      && (if nodes == [] then head == null && tail == null else head == nodes[0] && tail == nodes[|nodes| - 1])
      && (forall i | 0 <= i < |nodes| - 1 :: nodes[i].next == nodes[i + 1])
      && (nodes != [] ==> nodes[|nodes| - 1].next == null)
      && (forall i, j | 0 <= i < j < |nodes| :: nodes[i] != nodes[j])
    }

    method Add(pkt: Bytes)
      requires Valid()
      modifies this, nodes
      ensures Valid() && |nodes| == |old(nodes)| + 1 && nodes[..|old(nodes)|] == old(nodes)
      ensures fresh(nodes[|nodes| - 1]) && nodes[|nodes| - 1].pkt == pkt
    {
      var node := new Node(pkt);
      if tail != null {
        tail.next := node;
        tail := node;
      } else {
        tail := node;
        head := node;
      }
      nodes := nodes + [node];
    }

    method Pop() returns (node: Node?)
      requires Valid()
      modifies this
      ensures Valid()
      ensures old(nodes) == [] ==> node == null && nodes == []
      ensures old(nodes) != [] ==> node == old(nodes)[0] && nodes == old(nodes)[1..]
    {
      ghost var before := nodes;
      node := head;
      if head != null {
        assert |before| > 1 ==> node.next == before[0 + 1];
        head := node.next;
        if node == tail {
          head := null;
          tail := null;
        }
        nodes := nodes[1..];
        assert forall i | 0 <= i < |nodes| :: nodes[i] == before[i + 1];
      }
    }
  }

  // What one turn of the loop meets: whether there is input, and of what kind; whether
  // memory use is below its bound; and how many bytes the receiver would take.
  datatype Input = Nothing | Data(bytes: Bytes) | End | Failed

  datatype Tick = Tick(input: Input, room: bool, takes: int)

  // What a turn adds to the bytes that have to be delivered: a packet that finds no
  // memory is dropped.
  function Accepted(t: Tick): Bytes {
    if t.input.Data? && t.room then t.input.bytes else []
  }

  function AllAccepted(ts: seq<Tick>): Bytes {
    if ts == [] then [] else AllAccepted(ts[..|ts| - 1]) + Accepted(ts[|ts| - 1])
  }

  // The end of the input has been met.
  predicate Ended(ts: seq<Tick>) {
    exists t :: t in ts && t.input == End
  }

  lemma OneMoreTick(ts: seq<Tick>, n: nat)
    requires n < |ts|
    ensures AllAccepted(ts[..n + 1]) == AllAccepted(ts[..n]) + Accepted(ts[n])
    ensures Ended(ts[..n + 1]) <==> Ended(ts[..n]) || ts[n].input == End
  {
    assert ts[..n + 1][..n] == ts[..n];
    assert forall t :: t in ts[..n + 1] <==> t in ts[..n] || t == ts[n];
  }

  lemma NoTick()
    ensures AllAccepted([]) == [] && !Ended([])
  {
  }

  // Reading never gives an empty packet.
  predicate CanMeet(t: Tick) {
    t.input.Data? ==> 0 < |t.input.bytes| <= 1024
  }

  // Of the bytes in hand takes go out; or all when there are fewer, and none when takes
  // is not positive.
  ghost predicate Writes(hand: Bytes, takes: int, out: Bytes, rest: Bytes, out': Bytes) {
    var n := if takes <= 0 then 0 else if takes <= |hand| then takes else |hand|;
    out' == out + hand[..n] && rest == hand[n..]
  }

  // So it is with what is left in hand, or else with the first packet of the queue.
  ghost predicate Delivers(queue: seq<Bytes>, rest: Bytes, takes: int, out: Bytes,
                           queue': seq<Bytes>, rest': Bytes, out': Bytes) {
    var hand := if rest != [] then rest else if queue != [] then queue[0] else [];
    Writes(hand, takes, out, rest', out') && queue' == if rest != [] || queue == [] then queue else queue[1..]
  }

  lemma WritesSome(hand: Bytes, takes: int, out: Bytes, rest: Bytes, out': Bytes)
    requires Writes(hand, takes, out, rest, out')
    ensures hand != [] && takes > 0 ==> |rest| < |hand|
    ensures hand == [] ==> rest == [] && out' == out
  {
  }

  class Pipe {
    const list: List
    // The packet being written, and how much of it has been.
    var node: Node?
    var pos: nat
    var done: bool
    var out: Bytes

    constructor ()
      ensures fresh(list) && Valid() && node == null && list.nodes == [] && out == [] && !done
    {
      list := new List();
      node, pos, done, out := null, 0, false, [];
    }

    ghost predicate Valid()
      reads this, list, list.nodes
    {
      && list.Valid() && (node != null ==> pos < |node.pkt| <= 1024)
      && forall n | n in list.nodes :: 0 < |n.pkt| <= 1024
    }

    // The bytes of the packet in hand that are not yet written.
    function Rest(): Bytes
      reads this
    {
      if node != null && pos <= |node.pkt| then node.pkt[pos..] else []
    }

    // The packets that wait in the list.
    ghost function Packets(): (r: seq<Bytes>)
      reads list
      ensures |r| == |list.nodes| && forall i | 0 <= i < |r| :: r[i] == list.nodes[i].pkt
    {
      seq(|list.nodes|, i requires 0 <= i < |list.nodes| reads list => list.nodes[i].pkt)
    }

    // All bytes that have been accepted and not yet written, in order.
    ghost function Pending(): Bytes
      reads this, list
    {
      Rest() + Joined(list.nodes)
    }

    // What has been written and what has not.
    ghost function Total(): Bytes
      reads this, list
    {
      out + Pending()
    }

    // One turn of the loop.  Reads, takes up the next packet when none is in hand, and
    // writes what the receiver takes of it: a new packet is the last of the list, what is
    // left of the packet in hand or else the first of the list goes out as far as it is
    // taken, and what is left of it stays in hand.
    method Turn(t: Tick)
      requires Valid() && CanMeet(t)
      modifies this, list, list.nodes
      ensures Valid() && forall i | 0 <= i < |list.nodes| :: list.nodes[i] in old(list.nodes) || fresh(list.nodes[i])
      ensures Total() == old(Total()) + Accepted(t)
      ensures done == (old(done) || t.input == End)
      ensures Delivers(old(Packets()) + (if t.input.Data? && t.room then [t.input.bytes] else []), old(Rest()), t.takes,
                       old(out), Packets(), Rest(), out)
      ensures node == null <==> Rest() == []
      ensures old(node) != null && t.takes > 0 ==> |Rest()| < |old(Rest())|
    {
      hide List.Valid, Joined, Accepted, Rest, Packets, Delivers;
      Regroup(out, Pending(), Accepted(t));
      ReadInput(t);
      Forward(t.takes);
    }

    method Forward(takes: int)
      requires Valid()
      modifies this`node, this`pos, this`out, list
      ensures Valid() && out + Pending() == old(out + Pending())
      ensures list.nodes == old(list.nodes) || (old(list.nodes) != [] && list.nodes == old(list.nodes)[1..])
      ensures Delivers(old(Packets()), old(Rest()), takes, old(out), Packets(), Rest(), out)
      ensures node == null <==> Rest() == []
      ensures old(node) != null && takes > 0 ==> |Rest()| < |old(Rest())|
    {
      hide List.Valid, Joined, Writes;
      if node == null {
        TakeUp();
      }
      ghost var hand := Rest();
      if node != null {
        WriteSome(takes);
        WritesSome(hand, takes, old(out), Rest(), out);
      } else {
        WritesNone(takes, out);
      }
    }

    static lemma WritesNone(takes: int, out: Bytes)
      ensures Writes([], takes, out, [], out)
    {
    }

    method ReadInput(t: Tick)
      requires Valid() && CanMeet(t)
      modifies this`done, list, list.nodes
      ensures Valid() && Pending() == old(Pending()) + Accepted(t) && done == (old(done) || t.input == End)
      ensures Packets() == old(Packets()) + if t.input.Data? && t.room then [t.input.bytes] else []
      ensures Rest() == old(Rest())
      ensures forall i | 0 <= i < |list.nodes| :: list.nodes[i] in old(list.nodes) || fresh(list.nodes[i])
    {
      hide Joined, List.Valid;
      match t.input
      case Nothing =>
      case Data(bytes) =>
        if t.room {
          Accept(bytes);
        }
      case End =>
        done := true;
      case Failed =>
    }

    method Accept(bytes: Bytes)
      requires Valid() && 0 < |bytes| <= 1024
      modifies list, list.nodes
      ensures Valid() && Pending() == old(Pending()) + bytes && Packets() == old(Packets()) + [bytes]
      ensures forall i | 0 <= i < |list.nodes| :: list.nodes[i] in old(list.nodes) || fresh(list.nodes[i])
    {
      ghost var before := list.nodes;
      list.Add(bytes);
      hide Joined, List.Valid;
      assert list.nodes == before + [list.nodes[|before|]];
      JoinedAppend(before, list.nodes[|before|]);
      Regroup(Rest(), Joined(before), bytes);
    }

    method TakeUp()
      requires Valid() && node == null
      modifies this`node, this`pos, list
      ensures Valid() && Pending() == old(Pending())
      ensures if old(list.nodes) == [] then node == null && list.nodes == []
              else node != null && list.nodes == old(list.nodes)[1..] && Rest() == old(Packets())[0]
      ensures out == old(out)
    {
      node := list.Pop();
      pos := 0;
    }

    // The receiver takes some bytes, or none or an error when takes is not positive.
    method WriteSome(takes: int)
      requires Valid() && node != null
      modifies this`node, this`pos, this`out
      ensures Valid() && out + Pending() == old(out + Pending())
      ensures Writes(old(Rest()), takes, old(out), Rest(), out) && (node == null <==> Rest() == [])
    {
      hide List.Valid, Joined;
      var len := if takes > |node.pkt| - pos then |node.pkt| - pos else takes;
      if len > 0 {
        ghost var rest := Rest();
        Moved(out, rest, len, Joined(list.nodes));
        assert node.pkt[pos..pos + len] == rest[..len];
        out := out + node.pkt[pos..pos + len];
        pos := pos + len;
        if pos >= |node.pkt| {
          node := null;
        }
        assert Rest() == rest[len..];
      }
    }

    static lemma Moved(out: Bytes, rest: Bytes, n: nat, more: Bytes)
      requires n <= |rest|
      ensures (out + rest[..n]) + (rest[n..] + more) == out + (rest + more)
    {
      assert rest == rest[..n] + rest[n..];
    }

    // With writing blocked until it is complete, the rest of the list goes out.
    method Flush()
      requires Valid() && node == null
      modifies this, list
      ensures Valid() && out == old(out + Pending()) && Pending() == []
    {
      ghost var all := out + Pending();
      TakeUp();
      while node != null
        invariant Valid() && out + Pending() == all
        invariant node == null ==> list.nodes == []
        decreases |list.nodes|, if node == null then 0 else 1
      {
        WriteSome(|node.pkt| - pos);
        TakeUp();
      }
    }

    // The whole life of the pipe, as far as the turns it is given go: it is finished
    // when the input has ended and no packet is in hand, and the rest is flushed then.
    // When every turn after the end takes a byte, it is finished after as many more turns as
    // the packet in hand has bytes left, which are left[e] after turn e.
    method Drain(ticks: seq<Tick>) returns (used: nat, finished: bool, ghost left: seq<nat>)
      requires Valid() && node == null && !done && out == [] && list.nodes == []
      requires forall t | t in ticks :: CanMeet(t)
      modifies this, list
      ensures Valid() && used <= |ticks| && Total() == AllAccepted(ticks[..used])
      ensures finished ==> Pending() == [] && Ended(ticks[..used])
      ensures !finished ==> used == |ticks|
      ensures |left| == used && forall e | 0 <= e < used :: left[e] <= 1024
      ensures forall e | 0 <= e < used && TakesOn(ticks, e) ::
                e + 1 + left[e] <= |ticks| ==> finished && used <= e + 1 + left[e]
    {
      hide List.Valid, Joined, AllAccepted, Ended, TakesOn, Rest;
      used, left := Turns(ticks);
      finished := done && node == null;
      if finished {
        Flush();
      }
    }

    method Turns(ticks: seq<Tick>) returns (used: nat, ghost left: seq<nat>)
      requires Valid() && node == null && !done && out == [] && list.nodes == []
      requires forall t | t in ticks :: CanMeet(t)
      modifies this, list
      ensures Valid() && used <= |ticks| && Total() == AllAccepted(ticks[..used])
      ensures forall i | 0 <= i < |list.nodes| :: fresh(list.nodes[i])
      ensures done <==> Ended(ticks[..used])
      ensures (done && node == null) || used == |ticks|
      ensures |left| == used && forall e | 0 <= e < used :: left[e] <= 1024
      ensures forall e | 0 <= e < used && TakesOn(ticks, e) ::
                e + 1 + left[e] <= |ticks| ==> done && node == null && used <= e + 1 + left[e]
    {
      NoneTaken(ticks);
      hide Taken, List.Valid, Joined, Total, Pending, Rest, TakesOn;
      used, left := 0, [];
      while (!done || node != null) && used < |ticks|
        invariant used <= |ticks| && Taken(ticks, used)
        invariant forall i | 0 <= i < |list.nodes| :: fresh(list.nodes[i])
        invariant |left| == used && Lasting(ticks, left)
        decreases |ticks| - used
      {
        left := TakeTick(ticks, used, left);
        used := used + 1;
      }
      IsTaken(ticks, used);
      NotForEver(ticks, left);
    }

    // The input has ended at turn e, and each later turn takes a byte.
    static predicate TakesOn(ticks: seq<Tick>, e: nat) {
      e < |ticks| && ticks[e].input == End && forall j | e < j < |ticks| :: ticks[j].takes > 0
    }

    // The packet in hand when the input ended has lost a byte in each turn since.
    ghost predicate Lasting(ticks: seq<Tick>, left: seq<nat>)
      reads this
    {
      && (forall e | 0 <= e < |left| :: left[e] <= 1024)
      && forall e | 0 <= e < |left| && TakesOn(ticks, e) ::
           done && |Rest()| + (|left| - e - 1) <= left[e] && (node == null <==> Rest() == [])
    }

    lemma NotForEver(ticks: seq<Tick>, left: seq<nat>)
      requires Lasting(ticks, left) && ((done && node == null) || |left| == |ticks|)
      ensures forall e | 0 <= e < |left| && TakesOn(ticks, e) ::
                e + 1 + left[e] <= |ticks| ==> done && node == null && |left| <= e + 1 + left[e]
    {
    }

    // The first n turns have been taken.
    ghost predicate Taken(ticks: seq<Tick>, n: nat)
      requires n <= |ticks|
      reads this, list, list.nodes
    {
      Valid() && Total() == AllAccepted(ticks[..n]) && (done <==> Ended(ticks[..n]))
    }

    lemma NoneTaken(ticks: seq<Tick>)
      requires Valid() && node == null && !done && out == [] && list.nodes == []
      ensures Taken(ticks, 0)
    {
      NoTick();
      assert ticks[..0] == [];
    }

    lemma IsTaken(ticks: seq<Tick>, n: nat)
      requires n <= |ticks| && Taken(ticks, n)
      ensures Valid() && Total() == AllAccepted(ticks[..n]) && (done <==> Ended(ticks[..n]))
    {
    }

    method TakeTick(ticks: seq<Tick>, n: nat, ghost left0: seq<nat>) returns (ghost left: seq<nat>)
      requires n < |ticks| && Taken(ticks, n) && CanMeet(ticks[n]) && (!done || node != null)
      requires |left0| == n && Lasting(ticks, left0)
      modifies this, list, list.nodes
      ensures Taken(ticks, n + 1) && |left| == n + 1 && Lasting(ticks, left)
      ensures forall i | 0 <= i < |list.nodes| :: list.nodes[i] in old(list.nodes) || fresh(list.nodes[i])
    {
      hide List.Valid, Joined, AllAccepted, Ended, Accepted, Total, Packets, Delivers;
      OneMoreTick(ticks, n);
      Turn(ticks[n]);
      left := left0 + [|Rest()|];
    }
  }
}
