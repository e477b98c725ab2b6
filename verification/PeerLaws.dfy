/** What the messages do to the peers listed with one file: who is listed, where, and in which state. */
module PeerLaws {
  import opened Arithmetic
  import opened Sequences
  import opened TrackerTypes
  import opened RequestOrder
  import opened RunningOut
  import opened TrackerRun
  import opened TrackerLimits

  // Place j is the first that lists its host.
  predicate IsFirst(ps: seq<Peer>, j: nat) {
    j < |ps| && forall i | 0 <= i < j :: ps[i].ip != ps[j].ip
  }

  // ----- REGISTER

  // a is named before b is, if b is named at all.
  ghost predicate NamedBefore(ips: seq<Ip>, a: Ip, b: Ip) {
    exists k :: 0 <= k < |ips| && ips[k] == a && forall l | 0 <= l <= k :: ips[l] != b
  }

  // Who was listed stays where it was, and is ready if it is named and this is its first
  // listing.
  ghost predicate KeepsListed(ps: seq<Peer>, ips: seq<Ip>, r: seq<Peer>) {
    && |r| >= |ps|
    && forall j | 0 <= j < |ps| :: r[j] == if IsFirst(ps, j) && ps[j].ip in ips then Peer(ps[j].ip, Ready) else ps[j]
  }

  // The others are named and ready, and listed once.
  ghost predicate AddsNamed(n: nat, ips: seq<Ip>, r: seq<Peer>) {
    forall j | n <= j < |r| :: r[j].ip in ips && r[j].state == Ready && IsFirst(r, j)
  }

  // They are appended in the order in which they are first named, and nobody is left out.
  ghost predicate Registers(ps: seq<Peer>, ips: seq<Ip>, r: seq<Peer>) {
    && KeepsListed(ps, ips, r)
    && AddsNamed(|ps|, ips, r)
    && InOrder(ips, r[|ps|..])
    && (forall ip | ip in ips :: FindPeer(r, ip) >= 0)
  }

  ghost predicate InOrder(ips: seq<Ip>, r: seq<Peer>) {
    forall i, j | 0 <= i < j < |r| :: NamedBefore(ips, r[i].ip, r[j].ip)
  }

  lemma {:induction false} RegisterIs(ps: seq<Peer>, ips: seq<Ip>)
    ensures Registers(ps, ips, RegisterPeers(ps, ips))
    decreases |ips|
  {
    if ips != [] {
      var front, ip := ips[..|ips| - 1], ips[|ips| - 1];
      RegisterIs(ps, front);
      assert ips == front + [ip];
      RegisterOne(ps, front, ip, RegisterPeers(ps, front), RegisterPeers(ps, ips));
    }
  }

  lemma RegisterOne(ps: seq<Peer>, ips: seq<Ip>, ip: Ip, r: seq<Peer>, r': seq<Peer>)
    requires Registers(ps, ips, r)
    requires r' == RegisteredOne(r, ip)
    ensures Registers(ps, ips + [ip], r')
  {
    hide InOrder, IsFirst;
    KeepOn(ps, ips, ip, r);
    AddOn(|ps|, ips, ip, r);
    hide KeepsListed;
    OrderOn(ips, ip, r[|ps|..], r'[|ps|..]);
    forall q | q in ips + [ip] {
      FoundOn(r, ip, q);
    }
  }

  lemma FoundOn(r: seq<Peer>, ip: Ip, q: Ip)
    requires q == ip || FindPeer(r, q) >= 0
    ensures FindPeer(RegisteredOne(r, ip), q) >= 0
  {
    var r', k := RegisteredOne(r, ip), FindPeer(r, ip);
    assert r'[if q != ip then FindPeer(r, q) else if k < 0 then |r| else k].ip == q;
  }

  lemma KeepOn(ps: seq<Peer>, ips: seq<Ip>, ip: Ip, r: seq<Peer>)
    requires KeepsListed(ps, ips, r)
    ensures KeepsListed(ps, ips + [ip], RegisteredOne(r, ip))
  {
    forall j | 0 <= j < |ps| && ps[j].ip == ip
      ensures IsFirst(ps, j) <==> FindPeer(r, ip) == j
    {
      assert forall i | 0 <= i <= j :: r[i].ip == ps[i].ip;
    }
  }

  lemma AddOn(n: nat, ips: seq<Ip>, ip: Ip, r: seq<Peer>)
    requires AddsNamed(n, ips, r)
    ensures AddsNamed(n, ips + [ip], RegisteredOne(r, ip))
  {
    var r' := RegisteredOne(r, ip);
    forall j | n <= j < |r'|
      ensures r'[j].ip in ips + [ip] && r'[j].state == Ready && IsFirst(r', j)
    {
      if j < |r| {
        assert IsFirst(r, j);
      }
    }
  }

  lemma OrderOn(ips: seq<Ip>, ip: Ip, news: seq<Peer>, news': seq<Peer>)
    requires InOrder(ips, news) && (forall j | 0 <= j < |news| :: news[j].ip in ips)
    requires |news'| == |news| || (|news'| == |news| + 1 && news'[|news|].ip == ip && ip !in ips)
    requires forall j | 0 <= j < |news| :: news'[j].ip == news[j].ip
    ensures InOrder(ips + [ip], news')
  {
    hide NamedBefore;
    forall i, j | 0 <= i < j < |news'|
      ensures NamedBefore(ips + [ip], news'[i].ip, news'[j].ip)
    {
      if j < |news| {
        NamedOn(ips, ip, news[i].ip, news[j].ip);
      } else {
        NamedFirst(ips, ip, news[i].ip);
      }
    }
  }

  lemma NamedOn(ips: seq<Ip>, ip: Ip, a: Ip, b: Ip)
    requires NamedBefore(ips, a, b)
    ensures NamedBefore(ips + [ip], a, b)
  {
    var k :| 0 <= k < |ips| && ips[k] == a && forall l | 0 <= l <= k :: ips[l] != b;
    assert (ips + [ip])[k] == a;
  }

  lemma NamedFirst(ips: seq<Ip>, ip: Ip, a: Ip)
    requires a in ips && ip !in ips
    ensures NamedBefore(ips + [ip], a, ip)
  {
    var k :| 0 <= k < |ips| && ips[k] == a;
    assert (ips + [ip])[k] == a;
  }

  // So the first listing of everyone named is ready, which is the one that counts.
  lemma NamedAreReady(ps: seq<Peer>, ips: seq<Ip>, ip: Ip)
    requires ip in ips
    ensures var r := RegisterPeers(ps, ips);
            var k := FindPeer(r, ip);
            k >= 0 && r[k] == Peer(ip, Ready)
  {
    RegisterIs(ps, ips);
    var r := RegisterPeers(ps, ips);
    var k := FindPeer(r, ip);
    if 0 <= k < |ps| {
      assert IsFirst(ps, k);
    }
  }

  // The message names its peers, or without any the host that sent it.
  predicate IsNamed(ips: seq<Ip>, from: Ip, ip: Ip) {
    if |ips| == 0 then ip == from else ip in ips
  }

  // After a REGISTER message its file is listed with everyone named, ready; with a file
  // that was listed before the other peers are as they were, and a new file is listed
  // with nobody else.
  lemma StepRegisters(r: Ring, m: Message, r': Ring, ip: Ip)
    requires Inv(r) && m.Register? && Sendable(m) && Step(r, m, Some(r'))
    ensures var k, k' := FindHash(r.order, m.hash), FindHash(r'.order, m.hash);
            && k' >= 0 && k' == (if k < 0 then 0 else k)
            && var ps' := r'.order[k'].peers;
               && (IsNamed(m.ips, m.from, ip) ==> FindPeer(ps', ip) >= 0 && ps'[FindPeer(ps', ip)].state == Ready)
               && (k < 0 ==> forall p | p in ps' :: p.state == Ready && IsNamed(m.ips, m.from, p.ip))
               && (k >= 0 ==> Registers(r.order[k].peers, if m.ips == [] then [m.from] else m.ips, ps'))
  {
    var k, ips := FindHash(r.order, m.hash), if m.ips == [] then [m.from] else m.ips;
    assert IsNamed(m.ips, m.from, ip) <==> ip in ips;
    if k < 0 {
      AllReadyAre(ips, ip);
      FindHashIs(r'.order, m.hash, 0);
    } else {
      RegisterIs(r.order[k].peers, ips);
      if ip in ips {
        NamedAreReady(r.order[k].peers, ips, ip);
      }
      FindHashIs(r'.order, m.hash, k);
    }
  }

  lemma AllReadyAre(ips: seq<Ip>, ip: Ip)
    ensures var r := AllReady(ips);
            && |r| == |ips| && (forall i | 0 <= i < |r| :: r[i].ip == ips[i] && r[i].state == Ready)
            && (ip in ips ==> FindPeer(r, ip) >= 0)
  {
    if ip in ips {
      var i :| 0 <= i < |ips| && ips[i] == ip;
      assert AllReady(ips)[i].ip == ip;
    }
  }

  // ----- LOOKUP

  // The requestor becomes downloading where it is first seen among three peers, and else
  // is appended so; all other peers stay.
  lemma RequestorIsMarked(ps: seq<Peer>, from: Ip)
    ensures var r := WithRequestor(ps, from);
            && (forall j | 0 <= j < |ps| :: r[j] == if IsFirst(ps, j) && j < 3 && ps[j].ip == from
                                                    then Peer(from, Downloading) else ps[j])
            && (if exists j :: 0 <= j < |ps| && j < 3 && ps[j].ip == from then |r| == |ps|
                else |r| == |ps| + 1 && r[|ps|] == Peer(from, Downloading))
  {
    var first := ps[..Min(|ps|, PEERS_PER_PREDICTION)];
    var k := FindPeer(first, from);
    assert forall j | 0 <= j < |first| :: first[j] == ps[j];
    if k >= 0 {
      assert ps[k].ip == from && k < 3;
    }
  }

  // After a LOOKUP message its file lists the requestor: a file that was not listed as the
  // newest, with nobody else, downloading; and one that was in its place, with the other
  // peers.  No other file comes, goes or moves, or has other peers than before.
  lemma StepLooksUp(r: Ring, m: Message, r': Ring)
    requires Inv(r) && m.Lookup? && Step(r, m, Some(r'))
    ensures var o, o', k := r.order, r'.order, FindHash(r.order, m.hash);
            if k < 0 then o' == [Entry(m.hash, [Peer(m.from, Downloading)])] + o
            else
              && |o'| == |o| && FindPeer(o'[k].peers, m.from) >= 0
              && (forall ip | ip != m.from :: Mentions(o'[k].peers, ip) <==> Mentions(o[k].peers, ip))
              && (forall j | 0 <= j < |o| :: o'[j].hash == o[j].hash)
              && (forall j | 0 <= j < |o| && j != k :: multiset(o'[j].peers) == multiset(o[j].peers))
  {
    hide LookupEffect, FindHash;
    var k := FindHash(r.order, m.hash);
    if k >= 0 {
      LookupLists(r.order, k, m.from, r'.order);
    }
  }

  lemma LookupLists(o: Order, k: nat, from: Ip, o': Order)
    requires LookupEffect(o, k, from, o')
    ensures |o'| == |o| && FindPeer(o'[k].peers, from) >= 0
    ensures forall ip | ip != from :: Mentions(o'[k].peers, ip) <==> Mentions(o[k].peers, ip)
    ensures forall j | 0 <= j < |o| :: o'[j].hash == o[j].hash
    ensures forall j | 0 <= j < |o| && j != k :: multiset(o'[j].peers) == multiset(o[j].peers)
  {
    var ps :| multiset(ps) == multiset(o[k].peers) && o'[k].peers == WithRequestor(ps, from);
    hide WithRequestor, Mentions;
    forall ip {
      LookupMentions(o[k].peers, ps, from, ip);
    }
    MentionedIsFound(o'[k].peers, from);
  }

  lemma MentionedIsFound(ps: seq<Peer>, ip: Ip)
    requires Mentions(ps, ip)
    ensures FindPeer(ps, ip) >= 0
  {
    var j :| 0 <= j < |ps| && ps[j].ip == ip;
  }

  // Of the first three peers exactly those are offered that have not the requestor before
  // them, nor are it.
  lemma OfferedIff(ps: seq<Peer>, from: Ip, i: nat)
    requires i < |ps|
    ensures i < |Offered(ps, from)| <==> i < 3 && forall j | 0 <= j <= i :: ps[j].ip != from
    ensures i < |Offered(ps, from)| ==> Offered(ps, from)[i] == ps[i]
  {
    var first := ps[..Min(|ps|, PEERS_PER_PREDICTION)];
    assert forall j | 0 <= j < |first| :: first[j] == ps[j];
  }

  // ----- removing a peer

  // Putting one listing of the host back in front of any other gives the entry as it was.
  lemma DropIsUndone(e: Entry, ip: Ip) returns (k: nat, was: PeerState)
    requires IsLive(e) && FindPeer(e.peers, ip) >= 0
    ensures var left := DropPeer(e, ip).peers;
            && k <= |left| && e.peers == left[..k] + [Peer(ip, was)] + left[k..]
            && (forall j | 0 <= j < k :: left[j].ip != ip)
    ensures if |e.peers| == 1 then DropPeer(e, ip) == FREE else DropPeer(e, ip).hash == e.hash
  {
    k := FindPeer(e.peers, ip);
    was := e.peers[k].state;
    PutBack(e.peers, k);
  }

  lemma PutBack(ps: seq<Peer>, k: nat)
    requires k < |ps|
    ensures var left := ps[..k] + ps[k + 1..];
            left[..k] == ps[..k] && ps == left[..k] + [ps[k]] + left[k..]
  {
    var left := ps[..k] + ps[k + 1..];
    assert left[k..] == ps[k + 1..];
  }

  lemma NothingToDrop(e: Entry, ip: Ip)
    requires forall p | p in e.peers :: p.ip != ip
    ensures DropPeer(e, ip) == e
  {
    assert FindPeer(e.peers, ip) < 0;
  }

  // What an UNREGISTER leaves in place of entry e: each named peer is listed less often by
  // as often as it is named, and the others, in their states, as before; nothing is left of
  // an entry all of whose peers are named.
  ghost predicate Unregistered(e: Entry, ips: seq<Ip>, left: Order) {
    if RunsOut(e, ips) then left == []
    else
      && |left| == 1 && left[0].hash == e.hash
      && multiset(left[0].peers) <= multiset(e.peers)
      && multiset(Addresses(left[0].peers)) == multiset(Addresses(e.peers)) - multiset(ips)
  }

  // Unless the entry runs out of peers before the last one named, only it is changed.
  lemma {:induction false} UnregisterIs(o: Order, k: nat, ips: seq<Ip>) returns (left: Order)
    requires WellFormed(o) && k < |o| && !EmptiesEarly(o[k], ips)
    ensures UnregisterAt(o, k, ips) == o[..k] + left + o[k + 1..] && Unregistered(o[k], ips, left)
    decreases |ips|
  {
    hide RunsOut, DropPeer, EmptiesEarly, Unregistered;
    if ips == [] {
      left := [o[k]];
      NeedsSome(o[k]);
      NothingUnregistered(o[k]);
      assert o == o[..k] + [o[k]] + o[k + 1..];
    } else {
      var w := DropAt(o, k, ips[0]);
      assert ips == [ips[0]] + ips[1..];
      EmptiesEarlyStep(o[k], ips[0], ips[1..]);
      RunsOutStep(o[k], ips[0], ips[1..]);
      DropFreesOrKeeps(o[k], ips[0]);
      assert w[..k] == o[..k] && w[k + 1..] == o[k + 1..];
      if DropPeer(o[k], ips[0]) == FREE {
        left := [];
        LiveWithout(w, k);
        AllUnregistered(o[k], ips);
        assert UnregisterAt(o, k, ips) == UnregisterAt(Live(w), k, []);
        assert o[..k] + [] + o[k + 1..] == o[..k] + o[k + 1..];
      } else {
        LiveAll(w);
        DropAtKeepsWellFormed(o, k, ips[0]);
        NoneIsNotEarly(w[k], ips[1..]);
        left := UnregisterIs(w, k, ips[1..]);
        UnregisteredStep(o[k], ips[0], ips[1..], left);
      }
    }
  }

  lemma AllUnregistered(e: Entry, ips: seq<Ip>)
    requires RunsOut(e, ips)
    ensures Unregistered(e, ips, [])
  {
  }

  lemma NoneIsNotEarly(e: Entry, ips: seq<Ip>)
    ensures ips == [] ==> !EmptiesEarly(e, ips)
  {
  }

  lemma NothingUnregistered(e: Entry)
    requires !RunsOut(e, [])
    ensures Unregistered(e, [], [e])
  {
  }

  lemma UnregisteredStep(e: Entry, ip: Ip, ips: seq<Ip>, left: Order)
    requires IsLive(e) && DropPeer(e, ip) != FREE && Unregistered(DropPeer(e, ip), ips, left)
    requires RunsOut(e, [ip] + ips) <==> RunsOut(DropPeer(e, ip), ips)
    ensures Unregistered(e, [ip] + ips, left)
  {
    hide RunsOut;
    DropFreesOrKeeps(e, ip);
    DropAddresses(e, ip);
    DropLeaves(e, ip);
    hide DropPeer;
    assert multiset([ip] + ips) == multiset{ip} + multiset(ips);
  }

  lemma DropLeaves(e: Entry, ip: Ip)
    ensures multiset(DropPeer(e, ip).peers) <= multiset(e.peers)
  {
    var k := FindPeer(e.peers, ip);
    if k >= 0 {
      assert e.peers == e.peers[..k] + [e.peers[k]] + e.peers[k + 1..];
    }
  }

  lemma LiveWithout(w: seq<Entry>, k: nat)
    requires k < |w| && w[k].hash == 0 && forall j | 0 <= j < |w| && j != k :: w[j].hash != 0
    ensures Live(w) == w[..k] + w[k + 1..]
  {
    hide Live;
    SplitAt(w, k);
    LiveAround(w[..k], w[k], w[k + 1..]);
  }

  lemma SplitAt(w: seq<Entry>, k: nat)
    requires k < |w|
    ensures w == w[..k] + ([w[k]] + w[k + 1..])
  {
  }

  lemma LiveAround(front: seq<Entry>, e: Entry, back: seq<Entry>)
    requires e.hash == 0 && forall j | 0 <= j < |front| :: front[j].hash != 0
    requires forall j | 0 <= j < |back| :: back[j].hash != 0
    ensures Live(front + ([e] + back)) == front + back
  {
    hide Live;
    LiveConcat(front, [e] + back);
    LiveCons(e, back);
    LiveAll(front);
    LiveAll(back);
    assert [] + back == back;
  }

  // An UNREGISTER message does that to the file it names, and nothing when it is not listed.
  lemma StepUnregisters(r: Ring, m: Message, r': Ring)
    requires Inv(r) && m.Unregister? && Step(r, m, Some(r'))
    ensures r'.head == r.head && r'.size == r.size
    ensures var o, o', k := r.order, r'.order, FindHash(r.order, m.hash);
            if k < 0 then o' == o
            else !EmptiesEarly(o[k], m.ips) ==>
              exists left: Order :: Unregistered(o[k], m.ips, left) && o' == o[..k] + left + o[k + 1..]
  {
    hide UnregisterAt, Unregistered, EmptiesEarly, RunsOut, FindHash;
    var o, k := r.order, FindHash(r.order, m.hash);
    if k >= 0 && !EmptiesEarly(o[k], m.ips) {
      var left := UnregisterIs(o, k, m.ips);
      assert Unregistered(o[k], m.ips, left) && r'.order == o[..k] + left + o[k + 1..];
    }
  }

  // After a PEER_DONE exactly those files are listed that have a peer besides one listing
  // of the sender, with all peers but that one.
  lemma StepForgets(r: Ring, from: Ip, r': Ring, e: Entry)
    requires Inv(r) && Step(r, PeerDone(from), Some(r'))
    ensures r'.head == r.head && r'.size == r.size
    ensures e in r'.order <==> exists k :: 0 <= k < |r.order| && DropPeer(r.order[k], from) == e != FREE
  {
    var o := r.order;
    var w := DropFromFirst(o, from, |o|);
    hide DropPeer, Live, DropFromFirst;
    DropFromFirstAt(o, from, |o|);
    LiveHolds(w, e);
    if e != FREE && e in w {
      var k :| 0 <= k < |w| && w[k] == e;
      assert DropPeer(o[k], from) == e;
      DropFreesOrKeeps(o[k], from);
    }
    if k :| 0 <= k < |o| && DropPeer(o[k], from) == e != FREE {
      DropFreesOrKeeps(o[k], from);
      assert w[k] == e;
    }
  }

  lemma LiveHolds(w: seq<Entry>, e: Entry)
    ensures e in Live(w) <==> e in w && e.hash != 0
  {
    LiveAreUsed(w);
    hide Live;
    if e in w && e.hash != 0 {
      var k :| 0 <= k < |w| && w[k] == e;
      UsedIsLive(w, k);
    }
  }
}
