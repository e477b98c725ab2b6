/**
 Taking turns: among peers that only their last assignment tells apart, repeated
 shuffles of a list put each peer first once before any comes first again.
 */
module PeerTurns {
  import opened TrackerTypes
  import opened PeerSelection

  // A run of shuffles of one peer list with nothing else stamped in between.
  ghost predicate ShuffleRun(rows: seq<seq<Row>>, ps: seq<seq<Peer>>, resolve: Ip -> Coop, mine: Coop, now: seq<nat>) {
    && |rows| == |ps| == |now| + 1
    && forall i {:trigger now[i]} | 0 <= i < |now| ::
        Shuffled(rows[i], resolve, mine, now[i], ps[i], rows[i + 1], ps[i + 1])
  }

  function Hosts(ps: seq<Peer>): set<Ip> {
    set p | p in ps :: p.ip
  }

  // Peers that only their last assignment tells apart: one entry for each host,
  // the same state, and all or none in the requestor's coop group.
  ghost predicate EqualStanding(rows: seq<Row>, ps: seq<Peer>, resolve: Ip -> Coop, mine: Coop) {
    && |Hosts(ps)| == |ps| && 0 !in Hosts(ps)
    && (forall p, q | p in ps && q in ps :: p.state == q.state)
    && (forall p | p in ps :: CoopKnown(KeyOf(rows, resolve, p), mine))
    && (forall p, q | p in ps && q in ps ::
          StrangerRank(KeyOf(rows, resolve, p), mine) == StrangerRank(KeyOf(rows, resolve, q), mine))
  }

  lemma SamePeers(ps: seq<Peer>, ps': seq<Peer>)
    requires multiset(ps) == multiset(ps')
    ensures |ps'| == |ps| && Hosts(ps') == Hosts(ps)
    ensures forall p :: p in ps <==> p in ps'
  {
    assert |multiset(ps)| == |multiset(ps')|;
    forall p
      ensures p in ps <==> p in ps'
    {
      assert p in ps <==> p in multiset(ps);
      assert p in ps' <==> p in multiset(ps');
    }
  }

  lemma EqualStandingStays(rows: seq<Row>, resolve: Ip -> Coop, mine: Coop, now: nat,
                           ps: seq<Peer>, rows': seq<Row>, ps': seq<Peer>)
    requires Shuffled(rows, resolve, mine, now, ps, rows', ps')
    requires EqualStanding(rows, ps, resolve, mine)
    ensures |ps'| == |ps| && Hosts(ps') == Hosts(ps) && EqualStanding(rows', ps', resolve, mine)
  {
    SamePeers(ps, ps');
    forall p | p in ps'
      ensures p in ps && CoopOf(rows', resolve, p.ip) == CoopOf(rows, resolve, p.ip)
    {
      assert p.ip in Hosts(ps);
    }
  }

  // Of peers of equal standing, a shuffle puts first one assigned no later than any.
  lemma OldestFirst(rows: seq<Row>, resolve: Ip -> Coop, mine: Coop, now: nat,
                    ps: seq<Peer>, rows': seq<Row>, ps': seq<Peer>, p: Peer)
    requires Shuffled(rows, resolve, mine, now, ps, rows', ps')
    requires EqualStanding(rows, ps, resolve, mine) && p in ps
    ensures ps' != [] && LastAssigned(rows, ps'[0].ip) <= LastAssigned(rows, p.ip)
  {
    SamePeers(ps, ps');
    var keys, keys' := KeysOf(rows, resolve, ps), KeysOf(rows, resolve, ps');
    if None in Coops(keys) {
      var k :| k in keys && k.coop == None;
    }
    var j :| 0 <= j < |ps'| && ps'[j] == p;
    if j > 0 {
      assert Le(keys'[0], keys'[j], mine) && ps'[0] in ps;
    }
  }

  // One step seen host by host: it assigns first, a host assigned no later than
  // any other, and stamps it with now.
  ghost predicate Turn(hosts: set<Ip>, rows: seq<Row>, first: Ip, now: nat, rows': seq<Row>) {
    && first in hosts
    && (forall h | h in hosts :: LastAssigned(rows', h) == if h == first then now else LastAssigned(rows, h))
    && (forall h | h in hosts :: LastAssigned(rows, first) <= LastAssigned(rows, h))
  }

  ghost predicate Turns(hosts: set<Ip>, rows: seq<seq<Row>>, first: seq<Ip>, now: seq<nat>) {
    && |first| < |rows| && |first| <= |now|
    && forall i {:trigger first[i]} | 0 <= i < |first| :: Turn(hosts, rows[i], first[i], now[i], rows[i + 1])
  }

  // The hosts whose turn it was were stamped since the start, the others are as
  // they were.
  ghost predicate Stamped(hosts: set<Ip>, rows0: seq<Row>, served: seq<Ip>, now0: nat, rows: seq<Row>) {
    && (forall h | h in hosts && h !in served :: LastAssigned(rows, h) == LastAssigned(rows0, h))
    && (forall h | h in served :: h in hosts && LastAssigned(rows, h) >= now0)
  }

  lemma StampedStep(hosts: set<Ip>, rows0: seq<Row>, served: seq<Ip>, now0: nat, rows: seq<Row>,
                    first: Ip, now: nat, rows': seq<Row>)
    requires Stamped(hosts, rows0, served, now0, rows) && Turn(hosts, rows, first, now, rows')
    requires |served| < |hosts| && now0 <= now
    requires forall h | h in hosts :: LastAssigned(rows0, h) < now0
    ensures first !in served && Stamped(hosts, rows0, served + [first], now0, rows')
  {
    var waiting := SomeoneWaits(hosts, served);
    assert LastAssigned(rows, first) <= LastAssigned(rows, waiting) < now0;
  }

  lemma NoneStamped(hosts: set<Ip>, rows0: seq<Row>, now0: nat)
    ensures Stamped(hosts, rows0, [], now0, rows0)
  {
  }

  // The first n steps of a run give n different hosts their turn.
  lemma {:induction false} TurnsSoFar(hosts: set<Ip>, rows: seq<seq<Row>>, first: seq<Ip>, now: seq<nat>, n: nat)
    requires Turns(hosts, rows, first, now) && n <= |first| == |now| <= |hosts| && |now| > 0
    requires forall i | 0 < i < |now| :: now[0] < now[i]
    requires forall h | h in hosts :: LastAssigned(rows[0], h) < now[0]
    ensures forall i, j | 0 <= i < j < n :: first[i] != first[j]
    ensures Stamped(hosts, rows[0], first[..n], now[0], rows[n])
  {
    hide Turn, Stamped;
    if n == 0 {
      NoneStamped(hosts, rows[0], now[0]);
    } else {
      TurnsSoFar(hosts, rows, first, now, n - 1);
      StampedStep(hosts, rows[0], first[..n - 1], now[0], rows[n - 1], first[n - 1], now[n - 1], rows[n]);
      assert first[..n] == first[..n - 1] + [first[n - 1]];
      assert forall i | 0 <= i < n - 1 :: first[i] in first[..n - 1];
    }
  }

  lemma {:induction false} SomeoneWaits(hosts: set<Ip>, served: seq<Ip>) returns (h: Ip)
    requires |served| < |hosts|
    ensures h in hosts && h !in served
  {
    if served == [] {
      h :| h in hosts;
    } else {
      h := SomeoneWaits(hosts - {served[0]}, served[1..]);
    }
  }

  // Different hosts, all from one set, are no more than the set has.
  lemma {:induction false} NoMoreThan(hosts: set<Ip>, l: seq<Ip>)
    requires forall i | 0 <= i < |l| :: l[i] in hosts
    requires forall i, j | 0 <= i < j < |l| :: l[i] != l[j]
    ensures |l| <= |hosts|
  {
    if l != [] {
      NoMoreThan(hosts - {l[0]}, l[1..]);
    }
  }

  lemma {:induction false} StandingInRun(rows: seq<seq<Row>>, ps: seq<seq<Peer>>, resolve: Ip -> Coop, mine: Coop,
                                         now: seq<nat>, n: nat)
    requires ShuffleRun(rows, ps, resolve, mine, now) && EqualStanding(rows[0], ps[0], resolve, mine)
    requires n <= |now|
    ensures |ps[n]| == |ps[0]| && Hosts(ps[n]) == Hosts(ps[0]) && EqualStanding(rows[n], ps[n], resolve, mine)
  {
    if n > 0 {
      StandingInRun(rows, ps, resolve, mine, now, n - 1);
      EqualStandingStays(rows[n - 1], resolve, mine, now[n - 1], ps[n - 1], rows[n], ps[n]);
    }
  }

  lemma TurnOfStep(rows: seq<seq<Row>>, ps: seq<seq<Peer>>, resolve: Ip -> Coop, mine: Coop, now: seq<nat>, i: nat)
    requires ShuffleRun(rows, ps, resolve, mine, now) && EqualStanding(rows[0], ps[0], resolve, mine)
    requires i < |now| && |ps[0]| > 1
    ensures ps[i + 1] != [] && Turn(Hosts(ps[0]), rows[i], ps[i + 1][0].ip, now[i], rows[i + 1])
  {
    StandingInRun(rows, ps, resolve, mine, now, i);
    StandingInRun(rows, ps, resolve, mine, now, i + 1);
    assert Shuffled(rows[i], resolve, mine, now[i], ps[i], rows[i + 1], ps[i + 1]);
    assert ps[i + 1][0] in ps[i + 1] && ps[i + 1][0].ip in Hosts(ps[i + 1]);
    forall h | h in Hosts(ps[0])
      ensures LastAssigned(rows[i], ps[i + 1][0].ip) <= LastAssigned(rows[i], h)
    {
      assert h in Hosts(ps[i]);
      var p :| p in ps[i] && p.ip == h;
      OldestFirst(rows[i], resolve, mine, now[i], ps[i], rows[i + 1], ps[i + 1], p);
    }
  }

  // The hosts that came first, step by step.
  ghost predicate AreFirst(ps: seq<seq<Peer>>, first: seq<Ip>) {
    |first| < |ps| && forall i {:trigger first[i]} | 0 <= i < |first| :: ps[i + 1] != [] && ps[i + 1][0].ip == first[i]
  }

  lemma {:induction false} FirstsOfRun(rows: seq<seq<Row>>, ps: seq<seq<Peer>>, resolve: Ip -> Coop, mine: Coop,
                                       now: seq<nat>, n: nat)
      returns (first: seq<Ip>)
    requires ShuffleRun(rows, ps, resolve, mine, now) && EqualStanding(rows[0], ps[0], resolve, mine)
    requires n <= |now| && |ps[0]| > 1
    ensures |first| == n && AreFirst(ps, first) && Turns(Hosts(ps[0]), rows, first, now)
  {
    if n == 0 {
      first := [];
    } else {
      var before := FirstsOfRun(rows, ps, resolve, mine, now, n - 1);
      TurnOfStep(rows, ps, resolve, mine, now, n - 1);
      first := before + [ps[n][0].ip];
      AppendTurn(ps, rows, Hosts(ps[0]), before, ps[n][0].ip, now);
    }
  }

  lemma AppendTurn(ps: seq<seq<Peer>>, rows: seq<seq<Row>>, hosts: set<Ip>, first: seq<Ip>, next: Ip, now: seq<nat>)
    requires AreFirst(ps, first) && Turns(hosts, rows, first, now)
    requires |first| + 1 < |ps| && |first| + 1 < |rows| && |first| < |now|
    requires ps[|first| + 1] != [] && ps[|first| + 1][0].ip == next
    requires Turn(hosts, rows[|first|], next, now[|first|], rows[|first| + 1])
    ensures AreFirst(ps, first + [next]) && Turns(hosts, rows, first + [next], now)
  {
  }

  // With a clock that moves on, as many shuffles as there are peers of equal
  // standing put every host first exactly once.
  lemma EveryPeerTakesItsTurn(rows: seq<seq<Row>>, ps: seq<seq<Peer>>, resolve: Ip -> Coop, mine: Coop, now: seq<nat>)
      returns (first: seq<Ip>)
    requires ShuffleRun(rows, ps, resolve, mine, now) && EqualStanding(rows[0], ps[0], resolve, mine)
    requires |now| == |ps[0]| > 1
    requires forall i, j | 0 <= i < j < |now| :: now[i] < now[j]
    requires forall h | h in Hosts(ps[0]) :: LastAssigned(rows[0], h) < now[0]
    ensures |first| == |now| && AreFirst(ps, first)
    ensures forall i, j | 0 <= i < j < |first| :: first[i] != first[j]
    ensures forall h :: h in Hosts(ps[0]) <==> h in first
  {
    var hosts, n := Hosts(ps[0]), |now|;
    first := FirstsOfRun(rows, ps, resolve, mine, now, n);
    TurnsSoFar(hosts, rows, first, now, n);
    forall h | h in hosts
      ensures h in first
    {
      if h !in first {
        NoMoreThan(hosts - {h}, first);
      }
    }
  }
}
