/**
 The tracker server: the handlers of its four messages over the request table
 and the table of last assignments, and its main loop.
 */
module Tracker {
  import opened Arithmetic
  import opened Sequences
  import opened TrackerTypes
  import opened RequestOrder
  import opened TrackerRun
  import opened RequestTable
  import Sel = PeerSelection

  // What a message is served with from outside: the coop group the site gives a
  // host, and the clock as read at the n-th shuffle of the message.
  datatype World = World(coop: Ip -> Option<string>, clock: nat -> nat)

  // The reply to a lookup of the hash at place k: that hash and up to
  // PREDICTIONS later requests in the order they were made, each with the peers
  // its list offers.
  function ReplyUpTo(o: Order, k: nat, from: Ip, n: nat): (r: seq<Info>)
    requires n <= k + 1 && k < |o|
    ensures |r| == n
  {
    seq(n, i requires 0 <= i < n => Info(o[k - i].hash, Offered(o[k - i].peers, from)))
  }

  function ReplyTo(o: Order, k: nat, from: Ip): (r: seq<Info>)
    requires k < |o|
  {
    ReplyUpTo(o, k, from, 1 + Min(k, PREDICTIONS))
  }

  // Bytes of a record, and of a reply.
  function InfoLength(info: Info): nat {
    16 + 8 * |info.peers|
  }

  function InfosLength(infos: seq<Info>): nat {
    if infos == [] then 0 else InfosLength(infos[..|infos| - 1]) + InfoLength(infos[|infos| - 1])
  }

  lemma LengthGrows(infos: seq<Info>, info: Info)
    ensures InfosLength(infos + [info]) == InfosLength(infos) + InfoLength(info)
  {
    assert (infos + [info])[..|infos|] == infos;
  }

  // The first i peers, none of which is the requestor.
  lemma OfferedIs(ps: seq<Peer>, from: Ip, i: nat)
    requires i <= Min(|ps|, PEERS_PER_PREDICTION) && forall j | 0 <= j < i :: ps[j].ip != from
    requires i < Min(|ps|, PEERS_PER_PREDICTION) ==> ps[i].ip == from
    ensures Offered(ps, from) == ps[..i]
    ensures FindPeer(ps[..Min(|ps|, PEERS_PER_PREDICTION)], from) ==
            if i < Min(|ps|, PEERS_PER_PREDICTION) then i else -1
  {
    var first := ps[..Min(|ps|, PEERS_PER_PREDICTION)];
    if i < |first| {
      FindPeerIs(first, from, i);
      assert first[..i] == ps[..i];
    }
  }

  // Listing the requestor does not change what its own lookup is offered.
  lemma OfferedStays(ps: seq<Peer>, from: Ip)
    ensures Offered(WithRequestor(ps, from), from) == Offered(ps, from)
  {
    var n := Min(|ps|, PEERS_PER_PREDICTION);
    var k := FindPeer(ps[..n], from);
    var i := if k < 0 then n else k;
    assert forall j | 0 <= j < i :: ps[j] == ps[..n][j];
    OfferedIs(ps, from, i);
    var ps' := WithRequestor(ps, from);
    assert ps'[..i] == ps[..i];
    OfferedIs(ps', from, i);
  }

  // The peers of the entry at place k and of the n - 1 requests after it may have
  // been put in another order; the hash at place k is not looked at further.
  ghost predicate Reordered(o: Order, o': Order, k: nat, n: nat) {
    && k < |o| == |o'| && n <= k + 1
    && (forall j | 0 <= j < |o| :: o'[j].hash == o[j].hash)
    && (forall j | 0 <= j < |o| && !(k - n < j <= k) :: o'[j] == o[j])
    && (forall j | 0 <= j < k :: multiset(o'[j].peers) == multiset(o[j].peers))
  }

  // The first n records of the reply are made, and no more than their entries
  // have been touched.
  ghost predicate Answered(o: Order, w: Order, k: nat, from: Ip, n: nat, reply: seq<Info>) {
    Reordered(o, w, k, n) && reply == ReplyUpTo(w, k, from, n)
  }

  lemma AnswerStarts(o: Order, k: nat, from: Ip, shuffled: seq<Peer>, found: bool)
    requires k < |o| && (found ==> SeesRequestor(shuffled, from))
    ensures var ps := if found then WithRequestor(shuffled, from) else shuffled;
            Answered(o, o[k := Entry(o[k].hash, ps)], k, from, 1, [Info(o[k].hash, Offered(shuffled, from))])
  {
    OfferedStays(shuffled, from);
  }

  // One more request has its peers put in order and is added to the reply.
  lemma AnswerGrows(o: Order, w: Order, k: nat, from: Ip, n: nat, reply: seq<Info>, ps: seq<Peer>)
    requires Answered(o, w, k, from, n, reply) && n <= k && multiset(ps) == multiset(w[k - n].peers)
    ensures Answered(o, w[k - n := Entry(w[k - n].hash, ps)], k, from, n + 1,
                     reply + [Info(w[k - n].hash, Offered(ps, from))])
  {
  }

  // Adding the requestor at the end of its entry does not change the reply.
  lemma AnswerStays(o: Order, w: Order, k: nat, from: Ip, n: nat, reply: seq<Info>)
    requires Answered(o, w, k, from, n, reply) && n > 0 && !SeesRequestor(w[k].peers, from)
    ensures var w' := w[k := AddPeer(w[k], Peer(from, Downloading))];
            Answered(o, w', k, from, n, reply) && w'[k].peers == WithRequestor(w[k].peers, from)
  {
    OfferedStays(w[k].peers, from);
  }

  lemma AnsweredIsLookup(o: Order, w: Order, k: nat, from: Ip, reply: seq<Info>, ps: seq<Peer>)
    requires Answered(o, w, k, from, 1 + Min(k, PREDICTIONS), reply)
    requires multiset(ps) == multiset(o[k].peers) && w[k].peers == WithRequestor(ps, from)
    ensures LookupEffect(o, k, from, w) && reply == ReplyTo(w, k, from)
  {
  }

  lemma SamePlace(o: Order, k: nat, from: Ip, o': Order, hash: Hash)
    requires LookupEffect(o, k, from, o')
    ensures FindHash(o', hash) == FindHash(o, hash)
  {
    if FindHash(o, hash) >= 0 {
      FindHashIs(o', hash, FindHash(o, hash));
    }
  }

  // The first to ask for a file is offered nobody.
  lemma FirstReply(o: Order, hash: Hash, from: Ip)
    ensures var o' := [Entry(hash, [Peer(from, Downloading)])] + o;
            FindHash(o', hash) == 0 && ReplyTo(o', 0, from) == [Info(hash, [])]
  {
    OfferedIs([Peer(from, Downloading)], from, 0);
  }

  // What a lookup has done besides: the rows of the table of last assignments before and
  // after each shuffle, and the lists that the shuffles gave.
  datatype Trace = Trace(rows: seq<seq<Sel.Row>>, lists: seq<seq<Peer>>)

  // The lists of the asked request and of those after it were shuffled one after another,
  // each by the rows that the shuffle before had left and for the group of the requestor.
  ghost predicate Shuffles(o: Order, k: nat, from: Ip, world: World, t: Trace) {
    && |t.rows| == |t.lists| + 1 && k < |o| && |t.lists| <= k + 1
    && forall i {:trigger t.lists[i]} | 0 <= i < |t.lists| ::
         Sel.Shuffled(t.rows[i], world.coop, Sel.CoopOf(t.rows[i], world.coop, from), world.clock(i),
                      o[k - i].peers, t.rows[i + 1], t.lists[i])
  }

  // The reply offers from the fronts of these lists, and the later requests keep them.
  ghost predicate Traced(o: Order, k: nat, from: Ip, world: World, t: Trace, w: Order, reply: seq<Info>) {
    && Shuffles(o, k, from, world, t) && |reply| == |t.lists| && |w| == |o|
    && (forall i | 0 <= i < |reply| :: reply[i] == Info(o[k - i].hash, Offered(t.lists[i], from)))
    && forall i | 0 < i < |t.lists| :: w[k - i].peers == t.lists[i]
  }

  // A whole lookup: as many requests are looked at as there are, up to PREDICTIONS later
  // ones, and the asked one lists the requestor.
  ghost predicate LookedUp(o: Order, k: nat, from: Ip, world: World, t: Trace, w: Order, reply: seq<Info>) {
    && Traced(o, k, from, world, t, w, reply) && |reply| == 1 + Min(k, PREDICTIONS)
    && w[k].peers == WithRequestor(t.lists[0], from)
  }

  lemma TraceStarts(o: Order, k: nat, from: Ip, world: World, rows: seq<Sel.Row>, rows': seq<Sel.Row>,
                    ps: seq<Peer>, w: Order)
    requires k < |o| == |w|
    requires Sel.Shuffled(rows, world.coop, Sel.CoopOf(rows, world.coop, from), world.clock(0),
                          o[k].peers, rows', ps)
    ensures Traced(o, k, from, world, Trace([rows, rows'], [ps]), w, [Info(o[k].hash, Offered(ps, from))])
  {
    hide Sel.Shuffled, Offered;
  }

  lemma TraceGrows(o: Order, k: nat, from: Ip, world: World, t: Trace, w: Order, reply: seq<Info>,
                   rows': seq<Sel.Row>, ps: seq<Peer>, w': Order)
    requires Traced(o, k, from, world, t, w, reply) && |reply| <= k
    requires var n := |reply|;
             && Sel.Shuffled(t.rows[n], world.coop, Sel.CoopOf(t.rows[n], world.coop, from), world.clock(n),
                             o[k - n].peers, rows', ps)
             && w' == w[k - n := Entry(o[k - n].hash, ps)]
    ensures Traced(o, k, from, world, Trace(t.rows + [rows'], t.lists + [ps]), w',
                   reply + [Info(o[k - |reply|].hash, Offered(ps, from))])
  {
    hide Sel.Shuffled, Offered;
  }

  lemma TraceStays(o: Order, k: nat, from: Ip, world: World, t: Trace, w: Order, reply: seq<Info>, e: Entry)
    requires Traced(o, k, from, world, t, w, reply)
    ensures Traced(o, k, from, world, t, w[k := e], reply)
  {
    hide Sel.Shuffled, Offered;
  }

  lemma TraceSizes(o: Order, k: nat, from: Ip, world: World, t: Trace, w: Order, reply: seq<Info>)
    requires Traced(o, k, from, world, t, w, reply)
    ensures |t.rows| == |t.lists| + 1 == |reply| + 1 <= k + 2
  {
  }

  // All that serving a message does: its step, what it does to the table of last
  // assignments, and the records it sends back.
  ghost predicate Served(r: Ring, rows: seq<Sel.Row>, m: Message, world: World,
                         out: Option<Ring>, rows': seq<Sel.Row>, reply: seq<Info>) {
    && Step(r, m, out)
    && match m
       case Lookup(hash, from) =>
         var k := FindHash(r.order, hash);
         if k < 0 then rows' == rows && reply == [Info(hash, [])]
         else exists t: Trace ::
           && LookedUp(r.order, k, from, world, t, out.value.order, reply)
           && t.rows[0] == rows && t.rows[|reply|] == rows'
       case PeerDone(from) => rows' == Sel.Cleared(rows, from) && reply == []
       case _ => rows' == rows && reply == []
  }

  function AddPeer(e: Entry, p: Peer): Entry {
    Entry(e.hash, e.peers + [p])
  }

  class Server {
    const table: HashTable
    const dt: Sel.DtTable

    constructor (size: int)
      requires size >= 2
      ensures fresh(table) && fresh(table.entry) && fresh(dt)
      ensures table.Valid() && table.AsRing() == Init(size)
    {
      table := new HashTable(size);
      dt := new Sel.DtTable();
    }

    // Puts the peers of the entry at index in order and fills in a record for
    // the requestor.  With asked set, a requestor seen among the peers looked at
    // is marked as downloading.  The source skips the requestor's own address
    // without moving past it, so the record ends there.
    method PrepPeers(index: int, from: Ip, world: World, now: nat, asked: bool, ghost k: nat)
        returns (info: Info, found: bool, ghost shuffled: seq<Peer>)
      requires table.Valid() && table.InWindow(index, k)
      modifies table.entry, dt
      ensures table.Valid()
      ensures var e := old(table.Window())[k];
              && multiset(shuffled) == multiset(e.peers)
              && info == Info(e.hash, Offered(shuffled, from))
              && (found <==> asked && SeesRequestor(shuffled, from))
              && table.Window() == old(table.Window())[k :=
                   Entry(e.hash, if found then WithRequestor(shuffled, from) else shuffled)]
              && Sel.Shuffled(old(dt.rows), world.coop, Sel.CoopOf(old(dt.rows), world.coop, from), now,
                              e.peers, dt.rows, shuffled)
    {
      hide Offered, SeesRequestor, Sel.CoopOf, HashTable.Window;
      table.AtSlot(index, k);
      var e := table.entry[index];
      var mine := Sel.CoopOf(dt.rows, world.coop, from);
      var peers := dt.Shuffle(e.peers, mine, world.coop, now);
      shuffled := peers;
      assert multiset(shuffled) == multiset(e.peers);
      SameMembers(e.peers, shuffled);
      hide Sel.Shuffled;
      var offered: seq<Peer>;
      offered, peers, found := FillRecord(peers, from, asked);
      info := Info(e.hash, offered);
      table.StoreEntry(index, Entry(e.hash, peers), k);
    }

    static method FillRecord(peers: seq<Peer>, from: Ip, asked: bool)
        returns (offered: seq<Peer>, peers': seq<Peer>, found: bool)
      ensures offered == Offered(peers, from)
      ensures found <==> asked && SeesRequestor(peers, from)
      ensures peers' == if found then WithRequestor(peers, from) else peers
    {
      offered, peers', found := [], peers, false;
      var numpeers := Min(|peers|, PEERS_PER_PREDICTION);
      var i := 0;
      while |offered| < numpeers
        invariant i == |offered| <= numpeers <= Min(|peers|, PEERS_PER_PREDICTION) && offered == peers[..i]
        invariant forall j | 0 <= j < i :: peers[j].ip != from
        invariant numpeers < Min(|peers|, PEERS_PER_PREDICTION) ==> peers[i].ip == from && found == asked
        invariant numpeers == Min(|peers|, PEERS_PER_PREDICTION) ==> !found
        invariant peers' == if found then peers[i := Peer(from, Downloading)] else peers
        decreases numpeers - |offered|
      {
        if peers'[i].ip == from {
          if asked {
            found := true;
            peers' := peers'[i := Peer(from, Downloading)];
          }
          numpeers := numpeers - 1;
        } else {
          offered := offered + [peers'[i]];
          i := i + 1;
        }
      }
      OfferedIs(peers, from, i);
    }

    // The reply to a lookup, and its length in bytes.
    method DoLookup(hash: Hash, from: Ip, world: World) returns (reply: seq<Info>, len: nat, ghost t: Trace)
      requires table.Valid() && hash != 0
      modifies table, table.entry, dt
      ensures table.Shaped() && (table.entry == old(table.entry) || fresh(table.entry))
      ensures Step(old(table.AsRing()), Lookup(hash, from), table.Outcome())
      ensures len == 16 + InfosLength(reply)
      ensures table.head == table.tail ==> reply == [Info(hash, [])]
      ensures table.head != table.tail ==>
                && table.Valid()
                && var k := FindHash(table.Window(), hash);
                   k >= 0 && reply == ReplyTo(table.Window(), k, from)
      ensures var o := old(table.Window());
              var k := FindHash(o, hash);
              if k < 0 then dt.rows == old(dt.rows) && reply == [Info(hash, [])]
              else
                && LookedUp(o, k, from, world, t, table.Window(), reply)
                && t.rows[0] == old(dt.rows) && t.rows[|reply|] == dt.rows
    {
      hide LookedUp, LookupEffect, ReplyTo, InfosLength, FindHash, HashTable.Window;
      ghost var o := table.Window();
      t := Trace([dt.rows], []);
      var index := table.GetPeers(hash);
      if index >= 0 {
        reply, len, t := LookupKnown(index, from, world, FindHash(o, hash));
        SamePlace(o, FindHash(o, hash), from, table.Window(), hash);
      } else {
        reply, len := LookupNew(hash, from);
      }
    }

    // A lookup of a hash that is not listed.
    method LookupNew(hash: Hash, from: Ip) returns (reply: seq<Info>, len: nat)
      requires table.Valid() && hash != 0 && FindHash(table.Window(), hash) < 0
      modifies table, table.entry
      ensures table.Shaped() && (table.entry == old(table.entry) || fresh(table.entry))
      ensures table.Outcome() == Claim(old(table.AsRing()), Entry(hash, [Peer(from, Downloading)]))
      ensures reply == [Info(hash, [])] && len == 16 + InfosLength(reply)
      ensures table.head != table.tail ==>
                && table.Valid()
                && var k := FindHash(table.Window(), hash);
                   k >= 0 && reply == ReplyTo(table.Window(), k, from)
    {
      ghost var o := table.Window();
      reply, len := [Info(hash, [])], 16 + 16;
      table.AddRequest(hash, [Peer(from, Downloading)]);
      FirstReply(o, hash, from);
    }

    // A lookup of the hash at index: its own record, then up to PREDICTIONS records
    // of the requests made after it.
    method LookupKnown(index: int, from: Ip, world: World, ghost k: nat)
        returns (reply: seq<Info>, len: nat, ghost t: Trace)
      requires table.Valid() && table.InWindow(index, k)
      modifies table.entry, dt
      ensures table.Valid() && LookupEffect(old(table.Window()), k, from, table.Window())
      ensures reply == ReplyTo(table.Window(), k, from) && len == 16 + InfosLength(reply)
      ensures LookedUp(old(table.Window()), k, from, world, t, table.Window(), reply)
      ensures t.rows[0] == old(dt.rows) && t.rows[|reply|] == dt.rows
    {
      hide HashTable.Window, Shuffles, Offered, Answered;
      ghost var o := table.Window();
      var info, found;
      ghost var shuffled;
      info, found, shuffled, t := PrepAsked(index, from, world, k);
      reply, len, t := Predict(index, from, world, info, o, k, table.Window()[k], t);
      if !found {
        TraceStays(o, k, from, world, t, table.Window(), reply, AddPeer(table.Window()[k], Peer(from, Downloading)));
        AddRequestor(index, from, o, k, reply);
      }
      AnsweredIsLookup(o, table.Window(), k, from, reply, shuffled);
    }

    // The record of the asked request.
    method PrepAsked(index: int, from: Ip, world: World, ghost k: nat)
        returns (info: Info, found: bool, ghost shuffled: seq<Peer>, ghost t: Trace)
      requires table.Valid() && table.InWindow(index, k)
      modifies table.entry, dt
      ensures var o := old(table.Window());
              && k < |table.Window()|
              && Predicted(o, k, from, table.Window()[k], world, t, [info], 16 + InfoLength(info))
              && multiset(shuffled) == multiset(o[k].peers) && (found <==> SeesRequestor(shuffled, from))
              && table.Window()[k].peers == if found then WithRequestor(shuffled, from) else shuffled
      ensures t == Trace([old(dt.rows), dt.rows], [shuffled])
    {
      hide Sel.Shuffled, Offered;
      ghost var o, rows := table.Window(), dt.rows;
      info, found, shuffled := PrepPeers(index, from, world, world.clock(0), true, k);
      AnswerStarts(o, k, from, shuffled, found);
      TraceStarts(o, k, from, world, rows, dt.rows, shuffled, table.Window());
      t := Trace([rows, dt.rows], [shuffled]);
      LengthGrows([], info);
      assert [] + [info] == [info];
    }

    method AddRequestor(index: int, from: Ip, ghost o: Order, ghost k: nat, ghost reply: seq<Info>)
      requires table.Valid() && table.InWindow(index, k) && reply != []
      requires Answered(o, table.Window(), k, from, |reply|, reply)
      requires !SeesRequestor(table.Window()[k].peers, from)
      modifies table.entry
      ensures table.Valid() && Answered(o, table.Window(), k, from, |reply|, reply)
      ensures table.Window() == old(table.Window())[k := AddPeer(old(table.Window())[k], Peer(from, Downloading))]
      ensures table.Window()[k].peers == WithRequestor(old(table.Window())[k].peers, from)
    {
      AnswerStays(o, table.Window(), k, from, |reply|, reply);
      table.AtSlot(index, k);
      table.StoreEntry(index, AddPeer(table.entry[index], Peer(from, Downloading)), k);
    }

    // The reply has its records so far, and the entry asked for is still e.
    ghost predicate Predicted(o: Order, k: nat, from: Ip, e: Entry, world: World, t: Trace, reply: seq<Info>, len: nat)
      reads table, table.entry, dt
    {
      && table.Valid() && k < |table.Window()| && table.Window()[k] == e
      && Answered(o, table.Window(), k, from, |reply|, reply)
      && Traced(o, k, from, world, t, table.Window(), reply) && t.rows[|reply|] == dt.rows
      && len == 16 + InfosLength(reply)
    }

    method Predict(index: int, from: Ip, world: World, info: Info, ghost o: Order, ghost k: nat, ghost e: Entry,
                   ghost t0: Trace)
        returns (reply: seq<Info>, len: nat, ghost t: Trace)
      requires table.Valid() && table.InWindow(index, k)
      requires Predicted(o, k, from, e, world, t0, [info], 16 + InfoLength(info))
      modifies table.entry, dt
      ensures |reply| == 1 + Min(k, PREDICTIONS) && Predicted(o, k, from, e, world, t, reply, len)
      ensures t.rows[0] == t0.rows[0] && t.lists[0] == t0.lists[0]
    {
      hide Answered, Traced, HashTable.Window;
      TraceSizes(o, k, from, world, t0, table.Window(), [info]);
      reply, len, t := [info], 16 + InfoLength(info), t0;
      var nextIndex := index;
      var j := 0;
      while j < PREDICTIONS
        invariant 0 <= j <= Min(k, PREDICTIONS) && |reply| == 1 + j
        invariant Predicted(o, k, from, e, world, t, reply, len) && table.InWindow(nextIndex, k - j)
        invariant |t.rows| == |t.lists| + 1 && |t.lists| == 1 + j
        invariant t.rows[0] == t0.rows[0] && t.lists[0] == t0.lists[0]
      {
        var next := table.GetNextPeers(nextIndex, k - j);
        // The source also stops when the search comes back to index, which it cannot.
        if next == -1 {
          break;
        }
        reply, len, t := AddPrediction(next, from, world, reply, len, o, k, e, t);
        nextIndex, j := next, j + 1;
      }
      assert j == Min(k, PREDICTIONS);
    }

    // One more record: that of the next request after those in the reply.
    method AddPrediction(index: int, from: Ip, world: World, reply: seq<Info>, len: nat,
                         ghost o: Order, ghost k: nat, ghost e: Entry, ghost t: Trace)
        returns (reply': seq<Info>, len': nat, ghost t': Trace)
      requires Predicted(o, k, from, e, world, t, reply, len)
      requires 0 < |reply| <= k && table.InWindow(index, k - |reply|)
      modifies table.entry, dt
      ensures |reply'| == |reply| + 1 && Predicted(o, k, from, e, world, t', reply', len')
      ensures |t.rows| == |t.lists| + 1 == |reply| + 1 && |t'.rows| == |t'.lists| + 1 == |reply'| + 1
      ensures t'.rows[0] == t.rows[0] && t'.lists[0] == t.lists[0]
    {
      hide HashTable.Window, Sel.Shuffled;
      var info, found;
      ghost var shuffled;
      ghost var w, n := table.Window(), |reply|;
      info, found, shuffled := PrepPeers(index, from, world, world.clock(|reply|), false, k - n);
      AnswerGrows(o, w, k, from, n, reply, shuffled);
      TraceGrows(o, k, from, world, t, w, reply, dt.rows, shuffled, table.Window());
      t' := Trace(t.rows + [dt.rows], t.lists + [shuffled]);
      LengthGrows(reply, info);
      reply', len' := reply + [info], len + InfoLength(info);
    }

    // ----- the other messages

    method RegisterHash(hash: Hash, ips: seq<Ip>, from: Ip)
      requires table.Valid() && hash != 0
      modifies table, table.entry
      ensures table.Shaped() && (table.entry == old(table.entry) || fresh(table.entry))
      ensures Step(old(table.AsRing()), Register(hash, ips, from), table.Outcome())
      ensures table.head != table.tail ==> table.Valid()
    {
      var named := if ips == [] then [from] else ips;
      var index := table.GetPeers(hash);
      if index >= 0 {
        RegisterKnown(index, named, FindHash(table.Window(), hash));
      } else {
        var peers := ReadyAll(named);
        table.AddRequest(hash, peers);
      }
    }

    method RegisterKnown(index: int, named: seq<Ip>, ghost k: nat)
      requires table.Valid() && table.InWindow(index, k)
      modifies table.entry
      ensures table.Valid()
      ensures var e := old(table.Window())[k];
              table.Window() == old(table.Window())[k := Entry(e.hash, RegisterPeers(e.peers, named))]
    {
      table.AtSlot(index, k);
      var peers := RegisterAll(table.entry[index].peers, named);
      table.StoreEntry(index, Entry(table.entry[index].hash, peers), k);
    }

    static method RegisterAll(peers: seq<Peer>, ips: seq<Ip>) returns (peers': seq<Peer>)
      ensures peers' == RegisterPeers(peers, ips)
    {
      peers' := peers;
      var j := 0;
      while j < |ips|
        invariant 0 <= j <= |ips| && peers' == RegisterPeers(peers, ips[..j])
      {
        assert ips[..j + 1][..j] == ips[..j];
        peers' := RegisterPeer(peers', ips[j]);
        j := j + 1;
      }
      assert ips[..j] == ips;
    }

    static method RegisterPeer(peers: seq<Peer>, ip: Ip) returns (peers': seq<Peer>)
      ensures var k := FindPeer(peers, ip);
              peers' == RegisteredOne(peers, ip)
    {
      var k := 0;
      while k < |peers|
        invariant 0 <= k <= |peers|
        invariant forall j | 0 <= j < k :: peers[j].ip != ip
      {
        if peers[k].ip == ip {
          FindPeerIs(peers, ip, k);
          return peers[k := peers[k].(state := Ready)];
        }
        k := k + 1;
      }
      return peers + [Peer(ip, Ready)];
    }

    static method ReadyAll(ips: seq<Ip>) returns (peers: seq<Peer>)
      ensures peers == AllReady(ips)
    {
      peers := [];
      var j := 0;
      while j < |ips|
        invariant 0 <= j <= |ips| && peers == AllReady(ips[..j])
      {
        peers := peers + [Peer(ips[j], Ready)];
        j := j + 1;
      }
      assert ips[..j] == ips;
    }

    method UnregisterHash(hash: Hash, ips: seq<Ip>)
      requires table.Valid() && hash != 0
      modifies table, table.entry
      ensures table.Shaped() && table.entry == old(table.entry)
      ensures Step(old(table.AsRing()), Unregister(hash, ips), table.Outcome())
      ensures table.head != table.tail ==> table.Valid()
    {
      table.UnregisterHash(hash, ips);
    }

    method UnregisterAll(from: Ip)
      requires table.Valid()
      modifies table, table.entry, dt
      ensures table.Shaped() && table.entry == old(table.entry)
      ensures Step(old(table.AsRing()), PeerDone(from), table.Outcome())
      ensures table.head != table.tail ==> table.Valid()
      ensures Sel.LastAssigned(dt.rows, from) == 0 && dt.rows == Sel.Cleared(old(dt.rows), from)
    {
      table.UnregisterAll(from);
      dt.ClearEntry(from);
    }

    // ----- the main loop

    // Serves one message.
    method Handle(m: Message, world: World) returns (reply: seq<Info>)
      requires table.Valid() && Sendable(m)
      modifies table, table.entry, dt
      ensures table.Shaped() && (table.entry == old(table.entry) || fresh(table.entry))
      ensures Served(old(table.AsRing()), old(dt.rows), m, world, table.Outcome(), dt.rows, reply)
      ensures if table.head == table.tail then Corner(old(table.AsRing()), m) else table.Valid()
    {
      table.ValidIsInv();
      reply := HandleMessage(m, world);
      StuckOnlyInCorner(old(table.AsRing()), m, table.Outcome());
    }

    method HandleMessage(m: Message, world: World) returns (reply: seq<Info>)
      requires table.Valid() && Sendable(m)
      modifies table, table.entry, dt
      ensures table.Shaped() && (table.entry == old(table.entry) || fresh(table.entry))
      ensures Served(old(table.AsRing()), old(dt.rows), m, world, table.Outcome(), dt.rows, reply)
      ensures table.head != table.tail ==> table.Valid()
    {
      hide LookedUp, Sel.Cleared, LookupEffect, Claim;
      reply := [];
      match m
      case Lookup(hash, from) =>
        ghost var t;
        var len;
        reply, len, t := DoLookup(hash, from, world);
      case Register(hash, ips, from) =>
        RegisterHash(hash, ips, from);
      case Unregister(hash, ips) =>
        UnregisterHash(hash, ips);
      case PeerDone(from) =>
        UnregisterAll(from);
    }

    // Serves messages, checking the table after each.  It stops early only at a
    // message that runs head onto tail; the source goes on.  A full table then reads as an
    // empty one, and in an emptied one the next new request takes tail's slot, where
    // lookups find it and PEER_DONE does not come to it.
    method Serve(ms: seq<Message>, world: nat -> World)
        returns (served: nat, ok: bool, sent: seq<seq<Info>>, ghost rs: seq<Ring>, ghost dts: seq<seq<Sel.Row>>)
      requires table.Valid() && forall m | m in ms :: Sendable(m)
      modifies table, table.entry, dt
      ensures served <= |ms| && |sent| == served == |dts| - 1
      ensures Run(rs, ms[..served]) && rs[0] == old(table.AsRing()) && dts[0] == old(dt.rows)
      ensures forall i {:trigger ms[i]} | 0 <= i < served ::
                Served(rs[i], dts[i], ms[i], world(i), Some(rs[i + 1]), dts[i + 1], sent[i])
      ensures ok
      ensures served < |ms| <==> table.head == table.tail
      ensures served < |ms| ==> Corner(rs[served], ms[served])
      ensures served == |ms| ==> table.Valid() && table.AsRing() == rs[served] && dt.rows == dts[served]
    {
      hide HashTable.Window;
      hide Step, Inv, Served, Corner;
      served, ok, rs := 0, true, [table.AsRing()];
      sent, dts := [], [dt.rows];
      while served < |ms| && ok
        invariant served <= |ms| && ok && table.Valid()
        invariant table.entry == old(table.entry) || fresh(table.entry)
        invariant Run(rs, ms[..served]) && rs[0] == old(table.AsRing()) && rs[served] == table.AsRing()
        invariant AllServed(ms, world, rs, dts, sent, served)
        invariant dts[0] == old(dt.rows) && dts[served] == dt.rows
      {
        var reply := Handle(ms[served], world(served));
        if table.head == table.tail {
          return;
        }
        ServedSteps(rs[served], dts[served], ms[served], world(served), table.Outcome(), dt.rows, reply);
        ok := table.Verify();
        Extend(rs, ms[..served], ms[served], table.AsRing());
        assert ms[..served + 1] == ms[..served] + [ms[served]];
        OneMoreServed(ms, world, rs, dts, sent, served, table.AsRing(), dt.rows, reply);
        rs, dts, sent := rs + [table.AsRing()], dts + [dt.rows], sent + [reply];
        served := served + 1;
      }
    }
  }

  lemma ServedSteps(r: Ring, rows: seq<Sel.Row>, m: Message, world: World,
                    out: Option<Ring>, rows': seq<Sel.Row>, reply: seq<Info>)
    requires Served(r, rows, m, world, out, rows', reply)
    ensures Step(r, m, out)
  {
  }

  // The first n messages have been served.
  ghost predicate AllServed(ms: seq<Message>, world: nat -> World, rs: seq<Ring>, dts: seq<seq<Sel.Row>>,
                            sent: seq<seq<Info>>, n: nat) {
    && n <= |ms| && |rs| == n + 1 == |dts| && |sent| == n
    && forall i {:trigger ms[i]} | 0 <= i < n ::
         Served(rs[i], dts[i], ms[i], world(i), Some(rs[i + 1]), dts[i + 1], sent[i])
  }

  lemma OneMoreServed(ms: seq<Message>, world: nat -> World, rs: seq<Ring>, dts: seq<seq<Sel.Row>>,
                      sent: seq<seq<Info>>, n: nat, r: Ring, rows: seq<Sel.Row>, reply: seq<Info>)
    requires AllServed(ms, world, rs, dts, sent, n) && n < |ms|
    requires Served(rs[n], dts[n], ms[n], world(n), Some(r), rows, reply)
    ensures AllServed(ms, world, rs + [r], dts + [rows], sent + [reply], n + 1)
  {
    hide Served;
    var rs', dts', sent' := rs + [r], dts + [rows], sent + [reply];
    forall i | 0 <= i < n + 1
      ensures Served(rs'[i], dts'[i], ms[i], world(i), Some(rs'[i + 1]), dts'[i + 1], sent'[i])
    {
      if i < n {
        assert rs'[i] == rs[i] && rs'[i + 1] == rs[i + 1] && dts'[i] == dts[i] && dts'[i + 1] == dts[i + 1];
        assert sent'[i] == sent[i];
      }
    }
  }
}
