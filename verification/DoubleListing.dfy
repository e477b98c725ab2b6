/**
 How a host comes to be listed twice with one file, so that its PEER_DONE leaves one
 of the listings behind.
 */
module DoubleListing {
  import opened Sequences
  import opened TrackerTypes
  import opened RequestOrder
  import opened TrackerRun
  import opened TrackerLimits
  import opened PeerSelection

  // The coop groups of the peers are known where they matter, and do not decide.
  ghost predicate CoopsEqual(rows: seq<Row>, resolve: Ip -> Coop, mine: Coop, ps: seq<Peer>) {
    && (forall p | p in ps :: CoopKnown(KeyOf(rows, resolve, p), mine))
    && (forall p, q | p in ps && q in ps ::
          StrangerRank(KeyOf(rows, resolve, p), mine) == StrangerRank(KeyOf(rows, resolve, q), mine))
  }

  // Then a shuffle puts ready peers before the others.
  lemma ReadyComeFirst(rows: seq<Row>, resolve: Ip -> Coop, mine: Coop, now: nat,
                       ps: seq<Peer>, rows': seq<Row>, ps': seq<Peer>)
    requires Shuffled(rows, resolve, mine, now, ps, rows', ps')
    requires CoopsEqual(rows, resolve, mine, ps)
    ensures forall i, j | 0 <= i < j < |ps'| && ps'[j].state == Ready :: ps'[i].state == Ready
  {
    var keys, keys' := KeysOf(rows, resolve, ps), KeysOf(rows, resolve, ps');
    SameMembers(ps, ps');
    if None in Coops(keys) {
      var k :| k in keys && k.coop == None;
    }
    forall i, j | 0 <= i < j < |ps'| && ps'[j].state == Ready
      ensures ps'[i].state == Ready
    {
      assert Le(keys'[i], keys'[j], mine) && ps'[i] in ps && ps'[j] in ps;
    }
  }

  function Three(a: Ip, b: Ip, c: Ip): seq<Peer> {
    [Peer(a, Ready), Peer(b, Ready), Peer(c, Ready)]
  }

  function Entered(a: Ip, b: Ip, c: Ip, x: Ip): seq<Peer> {
    [Peer(x, Downloading)] + Three(a, b, c)
  }

  // So one that is not ready comes behind three that are.
  lemma DownloadingIsLast(a: Ip, b: Ip, c: Ip, x: Ip, ps: seq<Peer>)
    requires |{a, b, c, x}| == 4 && multiset(ps) == multiset(Entered(a, b, c, x))
    requires forall i, j | 0 <= i < j < |ps| && ps[j].state == Ready :: ps[i].state == Ready
    ensures |ps| == 4 && ps[3] == Peer(x, Downloading) && forall i | 0 <= i < 3 :: ps[i].ip != x
  {
    var p := Peer(x, Downloading);
    SameMembers(ps, Entered(a, b, c, x));
    assert forall q | q in Three(a, b, c) :: q.state == Ready && q.ip != x;
    hide Three;
    assert p in ps;
    assert ps[3] in ps;
    assert ps[3] == p;
    TakeOut(ps, 3);
    assert ps[..3] + ps[4..] == ps[..3];
    assert multiset(ps[..3]) == multiset(Three(a, b, c));
    SameMembers(ps[..3], Three(a, b, c));
    assert forall i | 0 <= i < 3 :: ps[i] in ps[..3];
  }

  lemma ShuffledLast(a: Ip, b: Ip, c: Ip, x: Ip, rows: seq<Row>, resolve: Ip -> Coop, mine: Coop, now: nat,
                     rows': seq<Row>, ps: seq<Peer>)
    requires |{a, b, c, x}| == 4
    requires Shuffled(rows, resolve, mine, now, Entered(a, b, c, x), rows', ps)
    requires CoopsEqual(rows, resolve, mine, Entered(a, b, c, x))
    ensures multiset(ps) == multiset(Entered(a, b, c, x))
    ensures |ps| == 4 && ps[3] == Peer(x, Downloading) && forall i | 0 <= i < 3 :: ps[i].ip != x
  {
    hide CoopsEqual;
    ReadyComeFirst(rows, resolve, mine, now, Entered(a, b, c, x), rows', ps);
    DownloadingIsLast(a, b, c, x, ps);
  }

  // It does come to be listed twice: x asks for a file, three hosts that have it are
  // registered, x asks again.  Whatever order the shuffle puts the four in, x is not
  // seen among the first three and added again, and its PEER_DONE leaves one listing.
  lemma TwiceListed(hash: Hash, a: Ip, b: Ip, c: Ip, x: Ip,
                    rows: seq<Row>, resolve: Ip -> Coop, mine: Coop, now: nat, rows': seq<Row>, ps: seq<Peer>)
      returns (rs: seq<Ring>)
    requires hash != 0 && |{a, b, c, x}| == 4
    requires Shuffled(rows, resolve, mine, now, Entered(a, b, c, x), rows', ps)
    requires CoopsEqual(rows, resolve, mine, Entered(a, b, c, x))
    ensures Run(rs, [Lookup(hash, x), Register(hash, [a, b, c], a), Lookup(hash, x), PeerDone(x)])
    ensures rs[0] == Init(HASH_TABLE_ENTRIES) && rs[2].order == [Entry(hash, Entered(a, b, c, x))]
    ensures rs[3].order == [Entry(hash, ps + [Peer(x, Downloading)])] && Listings(rs[3].order[0].peers, x) == 2
    ensures |rs[4].order| == 1 && Listings(rs[4].order[0].peers, x) == 1
  {
    hide Step, Listings, DropPeer, WithRequestor, Shuffled, CoopsEqual, Run;
    var ps0, p := Entered(a, b, c, x), Peer(x, Downloading);
    ShuffledLast(a, b, c, x, rows, resolve, mine, now, rows', ps);
    ListedAgain(ps, x, hash);
    TwiceInEntry(ps, x);
    var r0, r1, r2 := Init(HASH_TABLE_ENTRIES), One(Entry(hash, [p])), One(Entry(hash, ps0));
    var r3, r4 := One(Entry(hash, ps + [p])), One(Entry(hash, ps));
    FirstLookup(hash, x);
    RegisterThree(hash, a, b, c, x);
    LookupOfOne(r2, Entry(hash, ps0), x, ps);
    PeerDoneOfOne(r3, Entry(hash, ps + [p]), x);
    rs := FourSteps(r0, Lookup(hash, x), r1, Register(hash, [a, b, c], a), r2, Lookup(hash, x), r3, PeerDone(x), r4);
  }

  lemma FourSteps(r0: Ring, m0: Message, r1: Ring, m1: Message, r2: Ring, m2: Message, r3: Ring, m3: Message, r4: Ring)
      returns (rs: seq<Ring>)
    requires Sendable(m0) && Step(r0, m0, Some(r1)) && Sendable(m1) && Step(r1, m1, Some(r2))
    requires Sendable(m2) && Step(r2, m2, Some(r3)) && Sendable(m3) && Step(r3, m3, Some(r4))
    ensures rs == [r0, r1, r2, r3, r4] && Run(rs, [m0, m1, m2, m3])
  {
    hide Step;
    rs := [r0, r1, r2, r3, r4];
  }

  // A table with one entry, made from a fresh one.
  function One(e: Entry): Ring {
    Ring(1, HASH_TABLE_ENTRIES, [e])
  }

  lemma FirstLookup(hash: Hash, x: Ip)
    ensures Step(Init(HASH_TABLE_ENTRIES), Lookup(hash, x), Some(One(Entry(hash, [Peer(x, Downloading)]))))
  {
    var e := Entry(hash, [Peer(x, Downloading)]);
    assert [e] + [] == [e];
  }

  lemma LookupOfOne(r: Ring, e: Entry, x: Ip, ps: seq<Peer>)
    requires r == One(e) && multiset(ps) == multiset(e.peers)
    ensures Step(r, Lookup(e.hash, x), Some(One(Entry(e.hash, WithRequestor(ps, x)))))
  {
    assert LookupEffect([e], 0, x, [Entry(e.hash, WithRequestor(ps, x))]);
  }

  lemma PeerDoneOfOne(r: Ring, e: Entry, x: Ip)
    requires r == One(e) && DropPeer(e, x).hash != 0
    ensures Step(r, PeerDone(x), Some(One(DropPeer(e, x))))
  {
    hide DropPeer;
    DropFromFirstAt([e], x, 1);
    assert DropFromFirst([e], x, 1) == [DropPeer(e, x)];
    LiveAll([DropPeer(e, x)]);
  }

  lemma RegisterThree(hash: Hash, a: Ip, b: Ip, c: Ip, x: Ip)
    requires |{a, b, c, x}| == 4
    ensures Step(One(Entry(hash, [Peer(x, Downloading)])), Register(hash, [a, b, c], a),
                 Some(One(Entry(hash, Entered(a, b, c, x)))))
  {
    var ps := [Peer(x, Downloading)];
    assert [a, b, c][..2] == [a, b] && [a, b][..1] == [a];
    assert RegisterPeers(ps, [a]) == ps + [Peer(a, Ready)];
    assert RegisterPeers(ps, [a, b]) == ps + [Peer(a, Ready)] + [Peer(b, Ready)];
    assert RegisterPeers(ps, [a, b, c]) == Entered(a, b, c, x);
    var o, o' := [Entry(hash, ps)], [Entry(hash, Entered(a, b, c, x))];
    assert FindHash(o, hash) == 0 && o[0 := o'[0]] == o';
  }

  lemma ListedAgain(ps: seq<Peer>, x: Ip, h: Hash)
    requires h != 0 && |ps| == 4 && ps[3] == Peer(x, Downloading) && forall i | 0 <= i < 3 :: ps[i].ip != x
    ensures WithRequestor(ps, x) == ps + [Peer(x, Downloading)]
    ensures DropPeer(Entry(h, ps + [Peer(x, Downloading)]), x) == Entry(h, ps)
  {
    hide FindPeer;
    var ps' := ps + [Peer(x, Downloading)];
    FindPeerIs(ps', x, 3);
    assert ps'[..3] + ps'[4..] == ps;
  }

  lemma TwiceInEntry(ps: seq<Peer>, x: Ip)
    requires |ps| == 4 && ps[3] == Peer(x, Downloading) && forall i | 0 <= i < 3 :: ps[i].ip != x
    ensures Listings(ps, x) == 1
    ensures Listings(ps + [Peer(x, Downloading)], x) == 2
  {
    var p := Peer(x, Downloading);
    assert Listings([p], x) == 1 + Listings([], x);
    hide Listings, FindPeer;
    assert ps == ps[..3] + [p];
    ListingsMentions(ps[..3], x);
    ListingsConcat(ps[..3], [p], x);
    ListingsConcat(ps, [p], x);
  }
}
