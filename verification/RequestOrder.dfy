/**
 What the request table stands for: the list of requested hashes, newest
 request first, each with the peers that hold it.  Every tracker message has
 an effect on this list; the ring buffer in RequestTable is proved to have
 exactly that effect.
 */
module RequestOrder {
  import opened Arithmetic
  import opened Sequences
  import opened TrackerTypes

  // Newest request first.
  type Order = seq<Entry>

  // No hash is listed twice, and every entry is live.
  ghost predicate WellFormed(o: Order) {
    && (forall k | 0 <= k < |o| :: IsLive(o[k]))
    && (forall j, k | 0 <= j < k < |o| :: o[j].hash != o[k].hash)
  }

  // ----- entries still in use

  // The entries in use, in the same order.
  function Live(w: seq<Entry>): (r: seq<Entry>)
    ensures |r| <= |w|
  {
    if w == [] then []
    else if w[0].hash != 0 then [w[0]] + Live(w[1..])
    else Live(w[1..])
  }

  lemma {:induction false} LiveConcat(a: seq<Entry>, b: seq<Entry>)
    ensures Live(a + b) == Live(a) + Live(b)
  {
    if a == [] {
      assert a + b == b;
    } else {
      LiveConcat(a[1..], b);
      assert (a + b)[0] == a[0] && (a + b)[1..] == a[1..] + b;
      Regroup([a[0]], Live(a[1..]), Live(b));
    }
  }

  lemma {:induction false} LiveAll(w: seq<Entry>)
    requires forall k | 0 <= k < |w| :: w[k].hash != 0
    ensures Live(w) == w
  {
    if w != [] {
      LiveAll(w[1..]);
    }
  }

  lemma {:induction false} LiveNone(w: seq<Entry>)
    requires forall k | 0 <= k < |w| :: w[k].hash == 0
    ensures Live(w) == []
  {
    if w != [] {
      LiveNone(w[1..]);
    }
  }

  lemma LiveCons(e: Entry, rest: seq<Entry>)
    ensures Live([e] + rest) == (if e.hash != 0 then [e] else []) + Live(rest)
  {
    assert ([e] + rest)[1..] == rest;
  }

  // Moving the next entry in use over a run of free slots keeps the list of
  // entries in use.
  lemma LiveMove(front: seq<Entry>, free: Entry, gap: seq<Entry>, e: Entry, back: seq<Entry>)
    requires free.hash == 0 && e.hash != 0
    requires forall k | 0 <= k < |gap| :: gap[k].hash == 0
    ensures Live(front + ([free] + (gap + ([e] + back)))) == Live(front + ([e] + (gap + ([FREE] + back))))
  {
    LiveConcat(front, [free] + (gap + ([e] + back)));
    LiveConcat(front, [e] + (gap + ([FREE] + back)));
    LiveCons(free, gap + ([e] + back));
    LiveCons(e, gap + ([FREE] + back));
    LiveNone(gap);
    LiveConcat(gap, [e] + back);
    LiveConcat(gap, [FREE] + back);
    LiveCons(e, back);
    LiveCons(FREE, back);
  }

  lemma Pieces(w: seq<Entry>, f: nat, a: nat)
    requires f < a < |w|
    ensures w == w[..f] + ([w[f]] + (w[f + 1..a] + ([w[a]] + w[a + 1..])))
  {
  }

  lemma LiveMoveAt(w: seq<Entry>, f: nat, a: nat)
    requires f < a < |w|
    requires forall k | f <= k < a :: w[k].hash == 0
    requires w[a].hash != 0
    ensures Live(w[f := w[a]][a := FREE]) == Live(w)
  {
    var front, gap, back := w[..f], w[f + 1..a], w[a + 1..];
    Pieces(w, f, a);
    var w' := w[f := w[a]][a := FREE];
    Pieces(w', f, a);
    assert w'[..f] == front && w'[f + 1..a] == gap && w'[a + 1..] == back;
    LiveMove(front, w[f], gap, w[a], back);
  }

  lemma LivePrefix(w: seq<Entry>, n: nat)
    requires n <= |w|
    requires forall k | 0 <= k < n :: w[k].hash != 0
    requires forall k | n <= k < |w| :: w[k].hash == 0
    ensures Live(w) == w[..n]
  {
    assert w == w[..n] + w[n..];
    LiveConcat(w[..n], w[n..]);
    LiveAll(w[..n]);
    LiveNone(w[n..]);
    assert w[..n] + [] == w[..n];
  }

  lemma {:induction false} LiveAreUsed(w: seq<Entry>)
    ensures forall k | 0 <= k < |Live(w)| :: Live(w)[k].hash != 0 && Live(w)[k] in w
  {
    if w != [] {
      LiveAreUsed(w[1..]);
    }
  }

  // ----- finding a hash, finding a peer

  // The place of hash in the list, or -1.
  function FindHash(o: seq<Entry>, hash: Hash): (k: int)
    ensures -1 <= k < |o|
    ensures k >= 0 ==> o[k].hash == hash
    ensures forall j | 0 <= j < (if k < 0 then |o| else k) :: o[j].hash != hash
  {
    if o == [] then -1
    else if o[0].hash == hash then 0
    else
      var k := FindHash(o[1..], hash);
      if k < 0 then -1 else k + 1
  }

  lemma FindHashIs(o: seq<Entry>, hash: Hash, k: nat)
    requires k < |o| && o[k].hash == hash
    requires forall j | 0 <= j < k :: o[j].hash != hash
    ensures FindHash(o, hash) == k
  {
  }

  // The place of the first peer with address ip, or -1.
  function FindPeer(ps: seq<Peer>, ip: Ip): (k: int)
    ensures -1 <= k < |ps|
    ensures k >= 0 ==> ps[k].ip == ip
    ensures forall j | 0 <= j < (if k < 0 then |ps| else k) :: ps[j].ip != ip
  {
    if ps == [] then -1
    else if ps[0].ip == ip then 0
    else
      var k := FindPeer(ps[1..], ip);
      if k < 0 then -1 else k + 1
  }

  lemma FindPeerIs(ps: seq<Peer>, ip: Ip, k: nat)
    requires k < |ps| && ps[k].ip == ip
    requires forall j | 0 <= j < k :: ps[j].ip != ip
    ensures FindPeer(ps, ip) == k
  {
  }

  // ----- removing a peer

  // What removing one peer leaves of an entry: its first mention of ip is
  // dropped, and an entry that would have no peer left is freed.
  function DropPeer(e: Entry, ip: Ip): Entry {
    var k := FindPeer(e.peers, ip);
    if k < 0 then e
    else if |e.peers| == 1 then FREE
    else Entry(e.hash, e.peers[..k] + e.peers[k + 1..])
  }

  function DropAt(w: seq<Entry>, k: nat, ip: Ip): (w': seq<Entry>)
    requires k < |w|
    ensures |w'| == |w|
  {
    w[k := DropPeer(w[k], ip)]
  }

  // The first n entries with one peer removed from each.
  function DropFromFirst(w: seq<Entry>, ip: Ip, n: nat): (w': seq<Entry>)
    requires n <= |w|
    ensures |w'| == |w|
  {
    if n == 0 then w else DropAt(DropFromFirst(w, ip, n - 1), n - 1, ip)
  }

  lemma {:induction false} DropFromFirstAt(w: seq<Entry>, ip: Ip, n: nat)
    requires n <= |w|
    ensures forall k | 0 <= k < |w| :: DropFromFirst(w, ip, n)[k] == if k < n then DropPeer(w[k], ip) else w[k]
  {
    if n > 0 {
      DropFromFirstAt(w, ip, n - 1);
    }
  }

  lemma DropFreesOrKeeps(e: Entry, ip: Ip)
    requires IsLive(e)
    ensures DropPeer(e, ip) == FREE || (IsLive(DropPeer(e, ip)) && DropPeer(e, ip).hash == e.hash)
  {
    var k := FindPeer(e.peers, ip);
    assert k >= 0 ==> |e.peers[..k] + e.peers[k + 1..]| == |e.peers| - 1;
  }

  // What is left after removing one peer from each of the first n entries is
  // well formed again.
  lemma DropKeepsWellFormed(o: Order, ip: Ip, n: nat)
    requires WellFormed(o) && n <= |o|
    ensures WellFormed(Live(DropFromFirst(o, ip, n)))
  {
    hide DropPeer, Live;
    DropFromFirstAt(o, ip, n);
    forall k | 0 <= k < |o| {
      DropFreesOrKeeps(o[k], ip);
    }
    LiveKeepsWellFormed(DropFromFirst(o, ip, n));
  }

  lemma DropAtKeepsWellFormed(o: Order, k: nat, ip: Ip)
    requires WellFormed(o) && k < |o|
    ensures WellFormed(Live(DropAt(o, k, ip)))
  {
    hide DropPeer, Live;
    DropFreesOrKeeps(o[k], ip);
    LiveKeepsWellFormed(DropAt(o, k, ip));
  }

  lemma {:induction false} LiveKeepsWellFormed(w: seq<Entry>)
    requires forall k | 0 <= k < |w| :: w[k] == FREE || IsLive(w[k])
    requires forall j, k | 0 <= j < k < |w| :: w[j].hash == 0 || w[j].hash != w[k].hash
    ensures WellFormed(Live(w))
  {
    if w != [] {
      LiveKeepsWellFormed(w[1..]);
      LiveAreUsed(w[1..]);
    }
  }

  // ----- what each message does to the list

  // The peers a REGISTER message leaves: each named peer is ready, where it was
  // listed first, or else at the end.
  function RegisterPeers(ps: seq<Peer>, ips: seq<Ip>): (ps': seq<Peer>)
    ensures |ps'| >= |ps|
    decreases |ips|
  {
    if ips == [] then ps else RegisteredOne(RegisterPeers(ps, ips[..|ips| - 1]), ips[|ips| - 1])
  }

  function RegisteredOne(ps: seq<Peer>, ip: Ip): seq<Peer> {
    var k := FindPeer(ps, ip);
    if k < 0 then ps + [Peer(ip, Ready)] else ps[k := Peer(ip, Ready)]
  }

  function AllReady(ips: seq<Ip>): seq<Peer> {
    seq(|ips|, i requires 0 <= i < |ips| => Peer(ips[i], Ready))
  }

  // The peers offered to a requestor: of the first PEERS_PER_PREDICTION, those
  // before its own address.
  function Offered(ps: seq<Peer>, from: Ip): (r: seq<Peer>)
    ensures r <= ps && |r| <= PEERS_PER_PREDICTION
    ensures forall p | p in r :: p.ip != from
  {
    var first := ps[..Min(|ps|, PEERS_PER_PREDICTION)];
    var k := FindPeer(first, from);
    if k < 0 then first else first[..k]
  }

  // The requestor is one of the peers a lookup looks at.
  predicate SeesRequestor(ps: seq<Peer>, from: Ip) {
    FindPeer(ps[..Min(|ps|, PEERS_PER_PREDICTION)], from) >= 0
  }

  // The peers of the requested hash after a lookup that put them in order ps:
  // the requestor is marked where it is seen among the first
  // PEERS_PER_PREDICTION, and added at the end where it is not.
  function WithRequestor(ps: seq<Peer>, from: Ip): seq<Peer> {
    var k := FindPeer(ps[..Min(|ps|, PEERS_PER_PREDICTION)], from);
    if k < 0 then ps + [Peer(from, Downloading)] else ps[k := Peer(from, Downloading)]
  }

  // A lookup of the hash at place k reorders the peers of that entry and of up
  // to PREDICTIONS later requests, and lists the requestor with the entry.
  ghost predicate LookupEffect(o: Order, k: nat, from: Ip, o': Order) {
    && k < |o| == |o'|
    && (forall j | 0 <= j < |o| :: o'[j].hash == o[j].hash)
    && (forall j | 0 <= j < |o| && !(k - PREDICTIONS <= j <= k) :: o'[j] == o[j])
    && (forall j | 0 <= j < k :: multiset(o'[j].peers) == multiset(o[j].peers))
    && exists ps :: multiset(ps) == multiset(o[k].peers) && o'[k].peers == WithRequestor(ps, from)
  }

  // The entry at place k of the list loses the named peers one after another.
  // Place k is looked up only once: when the entry is freed, the next older
  // one takes its place and the remaining peers are removed from that one.
  function UnregisterAt(o: Order, k: nat, ips: seq<Ip>): Order
    decreases |ips|
  {
    if ips == [] || k >= |o| then o
    else UnregisterAt(Live(DropAt(o, k, ips[0])), k, ips[1..])
  }
}
