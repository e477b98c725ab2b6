/**
 Where the tracker does less than its messages promise, with the exact condition
 under which it does what they promise.
 */
module TrackerLimits {
  import opened Arithmetic
  import opened TrackerTypes
  import opened RequestOrder
  import opened RunningOut
  import opened TrackerRun

  // ----- the corner states are met

  // On a fresh server, the first PEER_DONE runs head onto tail.
  lemma FreshPeerDone(size: int, from: Ip)
    requires size >= 2
    ensures Inv(Init(size)) && Corner(Init(size), PeerDone(from))
    ensures forall out | Step(Init(size), PeerDone(from), out) :: out == None
  {
  }

  ghost predicate BelowHash(o: Order, next: nat) {
    forall i | 0 <= i < |o| :: o[i].hash < next
  }

  // Registering n new hashes in a table that has room below its top slot.
  lemma {:induction false} FillUp(rs: seq<Ring>, ms: seq<Message>, next: nat, n: nat, from: Ip)
      returns (rs': seq<Ring>, ms': seq<Message>)
    requires Run(rs, ms) && Inv(rs[|ms|]) && BelowHash(rs[|ms|].order, next)
    requires 0 < next && next + n <= 0x1_0000_0000_0000_0000
    requires rs[|ms|].head + n < rs[|ms|].size && |rs[|ms|].order| + n <= rs[|ms|].size - 2
    ensures Run(rs', ms') && rs'[0] == rs[0] && Inv(rs'[|ms'|]) && BelowHash(rs'[|ms'|].order, next + n)
    ensures var r, r' := rs[|ms|], rs'[|ms'|];
            r'.size == r.size && r'.head == r.head + n && |r'.order| == |r.order| + n
  {
    if n == 0 {
      rs', ms' := rs, ms;
    } else {
      rs', ms' := FillUp(rs, ms, next, n - 1, from);
      var r := rs'[|ms'|];
      var m := Register(next + n - 1, [], from);
      var r' := Claim(r, Entry(m.hash, AllReady([from]))).value;
      assert Step(r, m, Some(r'));
      StepKeepsInv(r, m, r');
      Extend(rs', ms', m, r');
      rs', ms' := rs' + [r'], ms' + [m];
    }
  }

  // Removing the only peer of the older of two files leaves the newer.
  lemma OlderIsDropped(newer: Entry, older: Entry, from: Ip)
    requires newer.hash != 0 && newer.hash != older.hash
    requires |older.peers| == 1 && older.peers[0].ip == from
    ensures FindHash([newer, older], older.hash) == 1
    ensures UnregisterAt([newer, older], 1, [from]) == [newer]
  {
    FindHashIs([newer, older], older.hash, 1);
    hide FindHash;
    assert DropAt([newer, older], 1, from) == [newer] + [FREE];
    LiveCons(newer, [FREE]);
    assert Live([FREE]) == [];
    assert UnregisterAt([newer, older], 1, [from]) == UnregisterAt([newer], 1, []);
  }

  // Two files are registered and the older is dropped: tail now lies on slot 0.
  lemma OpeningRun(from: Ip) returns (rs: seq<Ring>, ms: seq<Message>)
    ensures Run(rs, ms) && rs[0] == Init(HASH_TABLE_ENTRIES) && Inv(rs[|ms|]) && BelowHash(rs[|ms|].order, 3)
    ensures rs[|ms|].size == HASH_TABLE_ENTRIES && rs[|ms|].head == 2 && |rs[|ms|].order| == 1
  {
    var size, p := HASH_TABLE_ENTRIES, Peer(from, Ready);
    var e1, e2 := Entry(1, [p]), Entry(2, [p]);
    var r0, r1, r2, r3 := Init(size), Ring(1, size, [e1]), Ring(2, size, [e2, e1]), Ring(2, size, [e2]);
    assert AllReady([from]) == [p] && [e1] + [] == [e1] && [e2] + [e1] == [e2, e1];
    assert Step(r0, Register(1, [], from), Some(r1));
    assert Step(r1, Register(2, [], from), Some(r2));
    assert Step(r2, Unregister(1, [from]), Some(r3)) by {
      OlderIsDropped(e2, e1, from);
    }
    hide Step;
    rs, ms := [r0, r1, r2, r3], [Register(1, [], from), Register(2, [], from), Unregister(1, [from])];
  }

  // Registering on from there leads to a full table whose head has to wrap: the
  // next new file runs head onto tail.
  lemma FullCornerReachable(from: Ip) returns (rs: seq<Ring>, ms: seq<Message>, m: Message)
    ensures Run(rs, ms) && rs[0] == Init(HASH_TABLE_ENTRIES)
    ensures Sendable(m) && m.Register? && Corner(rs[|ms|], m)
  {
    rs, ms := OpeningRun(from);
    rs, ms := FillUp(rs, ms, 3, HASH_TABLE_ENTRIES - 3, from);
    m := Register(HASH_TABLE_ENTRIES, [], from);
  }

  // ----- PEER_DONE forgets a host that no entry lists twice, and only then

  // How often ip is listed.
  function Listings(ps: seq<Peer>, ip: Ip): nat {
    if ps == [] then 0 else (if ps[0].ip == ip then 1 else 0) + Listings(ps[1..], ip)
  }

  lemma {:induction false} ListingsConcat(a: seq<Peer>, b: seq<Peer>, ip: Ip)
    ensures Listings(a + b, ip) == Listings(a, ip) + Listings(b, ip)
  {
    if a == [] {
      assert a + b == b;
    } else {
      assert (a + b)[1..] == a[1..] + b;
      ListingsConcat(a[1..], b, ip);
    }
  }

  lemma {:induction false} ListingsMentions(ps: seq<Peer>, ip: Ip)
    ensures Listings(ps, ip) > 0 <==> FindPeer(ps, ip) >= 0
  {
    if ps != [] {
      ListingsMentions(ps[1..], ip);
    }
  }

  // Removing a peer takes away exactly one listing of it, and none of another.
  lemma DropListings(e: Entry, gone: Ip, ip: Ip)
    ensures Listings(DropPeer(e, gone).peers, ip) ==
            Listings(e.peers, ip) - (if ip == gone && Listings(e.peers, gone) > 0 then 1 else 0)
  {
    var ps := e.peers;
    var k := FindPeer(ps, gone);
    ListingsMentions(ps, gone);
    if k >= 0 {
      ListingsWithout(ps, k, ip);
      assert |ps| == 1 ==> ps[..k] + ps[k + 1..] == [];
    }
  }

  lemma ListingsWithout(ps: seq<Peer>, k: nat, ip: Ip)
    requires k < |ps|
    ensures Listings(ps, ip) == Listings(ps[..k] + ps[k + 1..], ip) + (if ps[k].ip == ip then 1 else 0)
  {
    assert ps == ps[..k] + ps[k..];
    ListingsConcat(ps[..k], ps[k..], ip);
    ListingsConcat(ps[..k], ps[k + 1..], ip);
  }

  lemma PeerDoneForgetsIff(o: Order, ip: Ip)
    requires WellFormed(o)
    ensures (forall e | e in Live(DropFromFirst(o, ip, |o|)) :: Listings(e.peers, ip) == 0) <==>
            (forall e | e in o :: Listings(e.peers, ip) <= 1)
  {
    var w := DropFromFirst(o, ip, |o|);
    DropFromFirstAt(o, ip, |o|);
    LiveAreUsed(w);
    forall k | 0 <= k < |o|
      ensures Listings(w[k].peers, ip) == 0 <==> Listings(o[k].peers, ip) <= 1
      ensures w[k].hash == 0 ==> Listings(w[k].peers, ip) == 0
    {
      DropListings(o[k], ip, ip);
    }
    forall k | 0 <= k < |w| && w[k].hash != 0
      ensures w[k] in Live(w)
    {
      UsedIsLive(w, k);
    }
    if forall e | e in Live(w) :: Listings(e.peers, ip) == 0 {
      forall e | e in o
        ensures Listings(e.peers, ip) <= 1
      {
        var k :| 0 <= k < |o| && o[k] == e;
        assert w[k].hash != 0 ==> w[k] in Live(w);
      }
    }
  }

  lemma {:induction false} UsedIsLive(w: seq<Entry>, k: nat)
    requires k < |w| && w[k].hash != 0
    ensures w[k] in Live(w)
  {
    if k > 0 {
      UsedIsLive(w[1..], k - 1);
    }
  }

  // A lookup lists the requestor once more unless it sees it among the first
  // PEERS_PER_PREDICTION peers; so a host can come to be listed twice.
  lemma LookupListings(ps: seq<Peer>, from: Ip)
    ensures Listings(WithRequestor(ps, from), from) ==
            Listings(ps, from) + (if FindPeer(ps[..Min(|ps|, PEERS_PER_PREDICTION)], from) < 0 then 1 else 0)
  {
    var k := FindPeer(ps[..Min(|ps|, PEERS_PER_PREDICTION)], from);
    var p := Peer(from, Downloading);
    if k < 0 {
      ListingsConcat(ps, [p], from);
    } else {
      ListingsWithout(ps, k, from);
      ListingsWithout(ps[k := p], k, from);
      assert ps[k := p][..k] == ps[..k] && ps[k := p][k + 1..] == ps[k + 1..];
    }
  }

  // ----- the peers a lookup offers

  // Every other peer among the first PEERS_PER_PREDICTION is offered exactly when
  // nothing but the requestor comes after the requestor.
  lemma OffersAllOthersIff(ps: seq<Peer>, from: Ip)
    ensures var first := ps[..Min(|ps|, PEERS_PER_PREDICTION)];
            (forall i | 0 <= i < |first| && first[i].ip != from :: i < |Offered(ps, from)|) <==>
            (forall i, j | 0 <= i < j < |first| && first[i].ip == from :: first[j].ip == from)
  {
  }

  // Behind the requestor's own listing nobody is offered, whatever the states of the peers.
  lemma OffersNone(from: Ip, a: Ip, own: PeerState, other: PeerState)
    requires a != from
    ensures Offered([Peer(from, own), Peer(a, other)], from) == []
  {
  }

  // ----- UNREGISTER with several peers

  // The entry runs out of peers before the last peer of the message is removed.
  predicate EmptiesEarly(e: Entry, ips: seq<Ip>) {
    |ips| > 1 && RunsOut(e, ips[..|ips| - 1])
  }

  lemma EmptiesEarlyStep(e: Entry, ip: Ip, ips: seq<Ip>)
    requires IsLive(e)
    ensures EmptiesEarly(e, [ip] + ips) <==>
            ips != [] && (DropPeer(e, ip) == FREE || EmptiesEarly(DropPeer(e, ip), ips))
  {
    hide RunsOut, DropPeer;
    if ips != [] {
      assert ([ip] + ips)[..|ips|] == [ip] + ips[..|ips| - 1];
      RunsOutStep(e, ip, ips[..|ips| - 1]);
      if |ips| == 1 && DropPeer(e, ip) != FREE {
        var none := ips[..|ips| - 1];
        assert none == [];
        DropFreesOrKeeps(e, ip);
        NeedsSome(DropPeer(e, ip));
      }
    }
  }

  // Every entry but the one of hash h is in both lists, unchanged.
  ghost predicate OnlyTouches(o: Order, o': Order, h: Hash) {
    forall e: Entry | e.hash != h :: e in o <==> e in o'
  }

  lemma {:induction false} LocalUnlessEarly(o: Order, k: nat, ips: seq<Ip>, h: Hash)
    requires WellFormed(o) && k < |o| && o[k].hash == h
    requires !EmptiesEarly(o[k], ips)
    ensures OnlyTouches(o, UnregisterAt(o, k, ips), h)
    decreases |ips|
  {
    if ips != [] {
      var w := DropAt(o, k, ips[0]);
      DropIsLocal(o, k, ips[0]);
      assert ips == [ips[0]] + ips[1..];
      EmptiesEarlyStep(o[k], ips[0], ips[1..]);
      DropFreesOrKeeps(o[k], ips[0]);
      if DropPeer(o[k], ips[0]) == FREE {
        assert ips[1..] == [];
      } else {
        LiveAll(w);
        DropAtKeepsWellFormed(o, k, ips[0]);
        LocalUnlessEarly(w, k, ips[1..], h);
      }
    }
  }

  lemma DropIsLocal(o: Order, k: nat, ip: Ip)
    requires WellFormed(o) && k < |o|
    ensures OnlyTouches(o, Live(DropAt(o, k, ip)), o[k].hash)
  {
    var w := DropAt(o, k, ip);
    LiveAreUsed(w);
    forall e: Entry | e.hash != o[k].hash
      ensures e in o <==> e in Live(w)
    {
      if e in o {
        var j :| 0 <= j < |o| && o[j] == e;
        UsedIsLive(w, j);
      }
      if e in Live(w) {
        var j :| 0 <= j < |w| && w[j] == e;
      }
    }
  }

  // The files the message does not name keep their peers, whatever the list, in
  // exactly the cases where the named entry does not run out of peers early.
  lemma UnregisterIsLocalIff(e: Entry, ips: seq<Ip>)
    requires IsLive(e)
    ensures (forall o: Order, k: nat | WellFormed(o) && k < |o| && o[k] == e ::
               OnlyTouches(o, UnregisterAt(o, k, ips), e.hash))
            <==> !EmptiesEarly(e, ips)
  {
    if EmptiesEarly(e, ips) {
      var o := EarlyHurts(e, ips);
      assert WellFormed(o) && 0 < |o| && o[0] == e && !OnlyTouches(o, UnregisterAt(o, 0, ips), e.hash);
    } else {
      forall o: Order, k: nat | WellFormed(o) && k < |o| && o[k] == e
        ensures OnlyTouches(o, UnregisterAt(o, k, ips), e.hash)
      {
        LocalUnlessEarly(o, k, ips, e.hash);
      }
    }
  }

  // The peer to remove next is removed from the next older file, here its only one.
  lemma NextLosesPeer(e: Entry, other: Entry, ips: seq<Ip>)
    requires |ips| > 1 && DropPeer(e, ips[0]) == FREE && other.hash != 0
    requires |other.peers| == 1 && other.peers[0].ip == ips[1]
    ensures UnregisterAt([e, other], 0, ips) == []
  {
    var o := [e, other];
    assert DropAt(o, 0, ips[0]) == [FREE] + [other];
    LiveCons(FREE, [other]);
    LiveAll([other]);
    assert UnregisterAt(o, 0, ips) == UnregisterAt([other], 0, ips[1..]);
    assert DropAt([other], 0, ips[1]) == [FREE];
    assert Live([FREE]) == [];
    assert UnregisterAt([other], 0, ips[1..]) == UnregisterAt([], 0, ips[1..][1..]) == [];
  }

  // The next older file loses a peer that the message named for another file.
  lemma {:induction false} EarlyHurts(e: Entry, ips: seq<Ip>) returns (o: Order)
    requires IsLive(e) && EmptiesEarly(e, ips)
    ensures WellFormed(o) && |o| == 2 && o[0] == e && |o[1].peers| == 1
    ensures o[1] !in UnregisterAt(o, 0, ips)
    ensures !OnlyTouches(o, UnregisterAt(o, 0, ips), e.hash)
    decreases |ips|
  {
    hide DropPeer, RunsOut, UnregisterAt;
    var rest := DropPeer(e, ips[0]);
    assert |ips| > 1 && ips == [ips[0]] + ips[1..];
    EmptiesEarlyStep(e, ips[0], ips[1..]);
    DropFreesOrKeeps(e, ips[0]);
    if rest == FREE {
      var other := Entry(if e.hash == 1 then 2 else 1, [Peer(ips[1], Ready)]);
      o := [e, other];
      NextLosesPeer(e, other, ips);
      assert o[1] in o;
    } else {
      var o' := EarlyHurts(rest, ips[1..]);
      o := [e, o'[1]];
      GoesOn(o, o', ips);
      assert o[1] in o;
    }
  }

  lemma GoesOn(o: Order, o': Order, ips: seq<Ip>)
    requires o != [] && ips != [] && o' == o[0 := DropPeer(o[0], ips[0])] && WellFormed(o')
    ensures UnregisterAt(o, 0, ips) == UnregisterAt(o', 0, ips[1..])
  {
    LiveAll(o');
    assert DropAt(o, 0, ips[0]) == o';
  }
}
