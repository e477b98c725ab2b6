/**
 What a lookup offers: the best peers first, by the coop group of the requestor, by who
 is ready and by who was assigned least recently; and whom it stamps as assigned now.
 */
module LookupLaws {
  import opened Arithmetic
  import opened Sequences
  import opened TrackerTypes
  import opened RequestOrder
  import opened PeerSelection
  import opened PeerLaws
  import opened Tracker

  // p is of the requestor's group if q is; of the same standing there it is ready if q is;
  // and else it was assigned no later than q.
  ghost predicate NoWorse(rows: seq<Row>, coop: Ip -> Coop, mine: Coop, p: Peer, q: Peer) {
    var own, own' := mine == None || CoopOf(rows, coop, p.ip) == mine, mine == None || CoopOf(rows, coop, q.ip) == mine;
    && (own' ==> own)
    && (own == own' && q.state == Ready ==> p.state == Ready)
    && (own == own' && p.state == q.state ==> LastAssigned(rows, p.ip) <= LastAssigned(rows, q.ip))
  }

  // The groups of the peers are known, as far as the requestor has one.
  ghost predicate GroupsKnown(rows: seq<Row>, coop: Ip -> Coop, mine: Coop, ps: seq<Peer>) {
    mine == None || forall p | p in ps :: CoopOf(rows, coop, p.ip) != None
  }

  lemma SortedIsBestFirst(rows: seq<Row>, coop: Ip -> Coop, mine: Coop, now: nat,
                          ps: seq<Peer>, rows': seq<Row>, ps': seq<Peer>)
    requires Shuffled(rows, coop, mine, now, ps, rows', ps') && GroupsKnown(rows, coop, mine, ps)
    ensures forall i, j | 0 <= i < j < |ps'| :: NoWorse(rows, coop, mine, ps'[i], ps'[j])
  {
    var keys, keys' := KeysOf(rows, coop, ps), KeysOf(rows, coop, ps');
    SameMembers(ps, ps');
    assert forall k | k in keys :: CoopKnown(k, mine);
    forall i, j | 0 <= i < j < |ps'|
      ensures NoWorse(rows, coop, mine, ps'[i], ps'[j])
    {
      assert Le(keys'[i], keys'[j], mine) && ps'[i] in ps && ps'[j] in ps;
      CompareIsLexicographic(keys'[i], keys'[j], mine);
    }
  }

  // The peers of the i-th record of a reply are the best of its list, best first; the
  // others of the list are no better than any of them.
  lemma RecordIsBestFirst(o: Order, k: nat, from: Ip, world: World, t: Trace, w: Order, reply: seq<Info>, i: nat)
      returns (others: seq<Peer>)
    requires LookedUp(o, k, from, world, t, w, reply) && i < |reply|
    requires GroupsKnown(t.rows[i], world.coop, CoopOf(t.rows[i], world.coop, from), o[k - i].peers)
    ensures reply[i].hash == o[k - i].hash
    ensures multiset(o[k - i].peers) == multiset(reply[i].peers) + multiset(others)
    ensures var rows, mine, best := t.rows[i], CoopOf(t.rows[i], world.coop, from), reply[i].peers;
            && (forall a, b | 0 <= a < b < |best| :: NoWorse(rows, world.coop, mine, best[a], best[b]))
            && (forall p, q | p in best && q in others :: NoWorse(rows, world.coop, mine, p, q))
  {
    hide NoWorse, Offered;
    var ps := t.lists[i];
    var n := |reply[i].peers|;
    SortedIsBestFirst(t.rows[i], world.coop, CoopOf(t.rows[i], world.coop, from), world.clock(i),
                      o[k - i].peers, t.rows[i + 1], ps);
    assert Offered(ps, from) == ps[..n];
    others := ps[n..];
    assert ps == ps[..n] + ps[n..];
    hide Shuffled, LookedUp;
  }

  // They are as many as there are, but at most three, and none behind the requestor: where
  // it is not listed, all or the best three.
  lemma RecordIsFull(o: Order, k: nat, from: Ip, world: World, t: Trace, w: Order, reply: seq<Info>, i: nat)
    requires LookedUp(o, k, from, world, t, w, reply) && i < |reply|
    requires forall p | p in o[k - i].peers :: p.ip != from
    ensures |reply[i].peers| == if |o[k - i].peers| < 3 then |o[k - i].peers| else 3
  {
    var ps := t.lists[i];
    assert Shuffled(t.rows[i], world.coop, CoopOf(t.rows[i], world.coop, from), world.clock(i),
                    o[k - i].peers, t.rows[i + 1], ps);
    SameMembers(o[k - i].peers, ps);
    hide Shuffled, LookedUp;
    forall j | 0 <= j < |ps|
      ensures ps[j].ip != from
    {
      assert ps[j] in ps;
    }
    var n := |reply[i].peers|;
    if n < |ps| {
      OfferedIff(ps, from, n);
    }
    if n > 0 {
      OfferedIff(ps, from, n - 1);
    }
  }

  // Of a list of several peers, the first to be offered is stamped with the time of the
  // lookup, and no other host is; of a list of one nobody is.
  lemma FirstIsStamped(o: Order, k: nat, from: Ip, world: World, t: Trace, w: Order, reply: seq<Info>, i: nat, host: Ip)
    requires LookedUp(o, k, from, world, t, w, reply) && i < |reply| && host != 0 && reply[i].peers != []
    ensures LastAssigned(t.rows[i + 1], host) ==
            if |o[k - i].peers| > 1 && host == reply[i].peers[0].ip then world.clock(i)
            else LastAssigned(t.rows[i], host)
  {
    assert Shuffled(t.rows[i], world.coop, CoopOf(t.rows[i], world.coop, from), world.clock(i),
                    o[k - i].peers, t.rows[i + 1], t.lists[i]);
    assert Offered(t.lists[i], from) <= t.lists[i];
    hide Offered;
  }

  // ----- with the numbers written out

  // With ten later requests the reply has eleven records, with twenty no more.
  lemma ElevenRecords(o: Order, k: nat, from: Ip)
    requires k < |o|
    ensures |ReplyTo(o, k, from)| == if k < 10 then k + 1 else 11
    ensures forall i | 0 <= i < |ReplyTo(o, k, from)| :: ReplyTo(o, k, from)[i].hash == o[k - i].hash
  {
  }

  // Of four peers the first three are offered.
  lemma ThreePeers(a: Peer, b: Peer, c: Peer, d: Peer, from: Ip)
    requires from !in {a.ip, b.ip, c.ip, d.ip}
    ensures Offered([a, b, c, d], from) == [a, b, c]
  {
    var ps := [a, b, c, d];
    OfferedIff(ps, from, 2);
    OfferedIff(ps, from, 3);
    assert ps[..3] == [a, b, c];
  }
}
