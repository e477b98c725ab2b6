/**
 The tracker as a state machine: each message takes the ring buffer from one
 state to the next, or runs head onto tail.  What every run keeps is proved here.
 */
module TrackerRun {
  import opened Arithmetic
  import opened TrackerTypes
  import opened RequestOrder
  import opened RunningOut

  // The table between two messages: where head is, how many slots there are,
  // and the list the slots behind head hold.  Tail follows from these.
  datatype Ring = Ring(head: int, size: int, order: Order)

  datatype Message =
    | Lookup(hash: Hash, from: Ip)
    | Register(hash: Hash, ips: seq<Ip>, from: Ip)
    | Unregister(hash: Hash, ips: seq<Ip>)
    | PeerDone(from: Ip)

  ghost predicate Inv(r: Ring) {
    r.size >= 2 && 0 <= r.head < r.size && |r.order| <= r.size - 2 && WellFormed(r.order)
  }

  // A hash of 0 marks a free slot and cannot be sent.
  predicate Sendable(m: Message) {
    m.PeerDone? || m.hash != 0
  }

  // ----- one step; None says that head has run onto tail

  // Claiming a slot for a new entry.  A full table grows, unless head has to wrap.
  function Claim(r: Ring, e: Entry): Option<Ring> {
    var full := |r.order| == r.size - 2;
    if full && r.head == r.size - 1 then None
    else
      var size := if full then r.size + HASH_TABLE_ENTRIES else r.size;
      Some(Ring(if r.head + 1 == size then 0 else r.head + 1, size, [e] + r.order))
  }

  // Giving freed slots back.
  function Reclaim(r: Ring, o: Order): Option<Ring> {
    if o == [] && r.head == 0 then None else Some(r.(order := o))
  }

  function Named(ips: seq<Ip>, from: Ip): seq<Ip> {
    if ips == [] then [from] else ips
  }

  ghost predicate Step(r: Ring, m: Message, out: Option<Ring>) {
    match m
    case Lookup(hash, from) =>
      var k := FindHash(r.order, hash);
      if k < 0 then out == Claim(r, Entry(hash, [Peer(from, Downloading)]))
      else out.Some? && out.value == r.(order := out.value.order) && LookupEffect(r.order, k, from, out.value.order)
    case Register(hash, ips, from) =>
      var k := FindHash(r.order, hash);
      if k < 0 then out == Claim(r, Entry(hash, AllReady(Named(ips, from))))
      else out == Some(r.(order := r.order[k := Entry(hash, RegisterPeers(r.order[k].peers, Named(ips, from)))]))
    case Unregister(hash, ips) =>
      var k := FindHash(r.order, hash);
      if k < 0 then out == Some(r) else out == Reclaim(r, UnregisterAt(r.order, k, ips))
    case PeerDone(from) =>
      out == Reclaim(r, Live(DropFromFirst(r.order, from, |r.order|)))
  }

  // The states in which a message runs head onto tail.
  ghost predicate Corner(r: Ring, m: Message) {
    match m
    case Lookup(hash, _) => FindHash(r.order, hash) < 0 && |r.order| == r.size - 2 && r.head == r.size - 1
    case Register(hash, _, _) => FindHash(r.order, hash) < 0 && |r.order| == r.size - 2 && r.head == r.size - 1
    case Unregister(hash, ips) =>
      r.head == 0 && r.order != [] && r.order[0].hash == hash && AllRunOut(r.order, ips)
    case PeerDone(from) => r.head == 0 && forall e | e in r.order :: |e.peers| == 1 && e.peers[0].ip == from
  }

  // ----- each step keeps the invariant, outside the corner states

  lemma StepKeepsInv(r: Ring, m: Message, r': Ring)
    requires Inv(r) && Sendable(m) && Step(r, m, Some(r'))
    ensures Inv(r')
  {
    match m
    case Lookup(hash, from) =>
      var k := FindHash(r.order, hash);
      if k >= 0 {
        LookupKeepsWellFormed(r.order, k, from, r'.order);
      }
    case Register(hash, ips, from) =>
    case Unregister(hash, ips) =>
      var k := FindHash(r.order, hash);
      if k >= 0 {
        UnregisterKeepsWellFormed(r.order, k, ips);
      }
    case PeerDone(from) =>
      DropKeepsWellFormed(r.order, from, |r.order|);
  }

  lemma LookupKeepsWellFormed(o: Order, k: nat, from: Ip, o': Order)
    requires WellFormed(o) && LookupEffect(o, k, from, o')
    ensures WellFormed(o')
  {
    forall j | 0 <= j < |o|
      ensures IsLive(o'[j])
    {
      if o'[j] != o[j] && j < k {
        assert |multiset(o'[j].peers)| == |multiset(o[j].peers)|;
      }
    }
  }

  lemma {:induction false} UnregisterKeepsWellFormed(o: Order, k: nat, ips: seq<Ip>)
    requires WellFormed(o)
    ensures WellFormed(UnregisterAt(o, k, ips)) && |UnregisterAt(o, k, ips)| <= |o|
    decreases |ips|
  {
    if ips != [] && k < |o| {
      DropAtKeepsWellFormed(o, k, ips[0]);
      UnregisterKeepsWellFormed(Live(DropAt(o, k, ips[0])), k, ips[1..]);
    }
  }

  // Head runs onto tail in exactly the corner states.
  lemma StuckOnlyInCorner(r: Ring, m: Message, out: Option<Ring>)
    requires Inv(r) && Sendable(m) && Step(r, m, out)
    ensures out.None? <==> Corner(r, m)
  {
    if m.Unregister? && FindHash(r.order, m.hash) >= 0 {
      UnregisterLeavesNothingIff(r.order, FindHash(r.order, m.hash), m.ips);
    }
    if m.PeerDone? {
      var w := DropFromFirst(r.order, m.from, |r.order|);
      DropFromFirstAt(r.order, m.from, |r.order|);
      LiveEmpty(w);
      forall j | 0 <= j < |r.order|
        ensures w[j].hash == 0 <==> |r.order[j].peers| == 1 && r.order[j].peers[0].ip == m.from
      {
        assert IsLive(r.order[j]);
      }
    }
  }

  lemma {:induction false} LiveEmpty(w: seq<Entry>)
    ensures Live(w) == [] <==> forall k | 0 <= k < |w| :: w[k].hash == 0
  {
    if w != [] {
      LiveEmpty(w[1..]);
    }
  }

  // ----- whole runs

  function Init(size: int): Ring {
    Ring(0, size, [])
  }

  // rs are the states met while the messages ms are served.
  ghost predicate Run(rs: seq<Ring>, ms: seq<Message>) {
    && |rs| == |ms| + 1
    && forall i {:trigger ms[i]} | 0 <= i < |ms| :: Sendable(ms[i]) && Step(rs[i], ms[i], Some(rs[i + 1]))
  }

  lemma Extend(rs: seq<Ring>, ms: seq<Message>, m: Message, r: Ring)
    requires Run(rs, ms) && Sendable(m) && Step(rs[|ms|], m, Some(r))
    ensures Run(rs + [r], ms + [m])
  {
    var rs', ms' := rs + [r], ms + [m];
    forall i | 0 <= i < |ms'|
      ensures Sendable(ms'[i]) && Step(rs'[i], ms'[i], Some(rs'[i + 1]))
    {
      if i < |ms| {
        assert rs'[i] == rs[i] && rs'[i + 1] == rs[i + 1] && ms'[i] == ms[i];
      }
    }
  }

  lemma {:induction false} RunKeepsInv(rs: seq<Ring>, ms: seq<Message>, n: nat)
    requires Run(rs, ms) && Inv(rs[0]) && n <= |ms|
    ensures Inv(rs[n])
  {
    if n > 0 {
      RunKeepsInv(rs, ms, n - 1);
      StepKeepsInv(rs[n - 1], ms[n - 1], rs[n]);
    }
  }

  // ----- requests stay in the order they were made

  predicate Listed(o: seq<Entry>, h: Hash) {
    FindHash(o, h) >= 0
  }

  // a was requested after b.
  predicate Newer(o: seq<Entry>, a: Hash, b: Hash) {
    exists i, j | 0 <= i < j < |o| :: o[i].hash == a && o[j].hash == b
  }

  lemma {:induction false} LiveKeepsNewer(w: seq<Entry>, a: Hash, b: Hash)
    requires a != 0 && b != 0
    ensures Listed(Live(w), a) <==> Listed(w, a)
    ensures Newer(Live(w), a, b) <==> Newer(w, a, b)
  {
    if w != [] {
      var t := w[1..];
      LiveKeepsNewer(t, a, b);
      LiveKeepsListed(t, b);
      assert w == [w[0]] + t;
      ListedCons(w[0], t, a);
      NewerCons(w[0], t, a, b);
      if w[0].hash != 0 {
        ListedCons(w[0], Live(t), a);
        NewerCons(w[0], Live(t), a, b);
      }
    }
  }

  lemma {:induction false} LiveKeepsListed(w: seq<Entry>, h: Hash)
    requires h != 0
    ensures Listed(Live(w), h) <==> Listed(w, h)
  {
    if w != [] {
      LiveKeepsListed(w[1..], h);
      assert w == [w[0]] + w[1..];
      ListedCons(w[0], w[1..], h);
      if w[0].hash != 0 {
        ListedCons(w[0], Live(w[1..]), h);
      }
    }
  }

  lemma ListedCons(e: Entry, t: seq<Entry>, h: Hash)
    ensures Listed([e] + t, h) <==> e.hash == h || Listed(t, h)
  {
    var o := [e] + t;
    if e.hash == h {
      assert o[0].hash == h;
    }
    if Listed(t, h) {
      var i :| 0 <= i < |t| && t[i].hash == h;
      assert o[i + 1].hash == h;
    }
    if Listed(o, h) && e.hash != h {
      var i :| 0 <= i < |o| && o[i].hash == h;
      assert t[i - 1].hash == h;
    }
  }

  lemma NewerCons(e: Entry, t: seq<Entry>, a: Hash, b: Hash)
    ensures Newer([e] + t, a, b) <==> (e.hash == a && Listed(t, b)) || Newer(t, a, b)
  {
    var o := [e] + t;
    if e.hash == a && Listed(t, b) {
      var j :| 0 <= j < |t| && t[j].hash == b;
      assert o[0].hash == a && o[j + 1].hash == b;
    }
    if Newer(t, a, b) {
      var i, j :| 0 <= i < j < |t| && t[i].hash == a && t[j].hash == b;
      assert o[i + 1].hash == a && o[j + 1].hash == b;
    }
    if Newer(o, a, b) {
      var i, j :| 0 <= i < j < |o| && o[i].hash == a && o[j].hash == b;
      assert t[j - 1].hash == b;
      if i > 0 {
        assert t[i - 1].hash == a;
      }
    }
  }

  // Freeing some entries leaves the others in their order.
  lemma FreeingKeepsNewer(o: Order, w: seq<Entry>, a: Hash, b: Hash)
    requires WellFormed(o) && |w| == |o| && a != 0 && b != 0
    requires forall i | 0 <= i < |o| :: w[i].hash == o[i].hash || w[i].hash == 0
    ensures Listed(Live(w), a) ==> Listed(o, a)
    ensures Listed(Live(w), a) && Listed(Live(w), b) ==> (Newer(Live(w), a, b) <==> Newer(o, a, b))
  {
    LiveKeepsNewer(w, a, b);
    LiveKeepsListed(w, b);
    if Listed(w, a) {
      var i :| 0 <= i < |w| && w[i].hash == a;
      assert o[i].hash == a;
      if Listed(w, b) {
        var j :| 0 <= j < |w| && w[j].hash == b;
        assert o[j].hash == b;
        if i < j {
          assert Newer(w, a, b) && Newer(o, a, b);
        }
      }
    }
  }

  lemma {:induction false} UnregisterKeepsNewer(o: Order, k: nat, ips: seq<Ip>, a: Hash, b: Hash)
    requires WellFormed(o) && a != 0 && b != 0
    ensures Listed(UnregisterAt(o, k, ips), a) ==> Listed(o, a)
    ensures Listed(UnregisterAt(o, k, ips), a) && Listed(UnregisterAt(o, k, ips), b) ==>
              (Newer(UnregisterAt(o, k, ips), a, b) <==> Newer(o, a, b))
    decreases |ips|
  {
    if ips != [] && k < |o| {
      var w := DropAt(o, k, ips[0]);
      FreeingKeepsNewer(o, w, a, b);
      FreeingKeepsNewer(o, w, b, a);
      DropAtKeepsWellFormed(o, k, ips[0]);
      UnregisterKeepsNewer(Live(w), k, ips[1..], a, b);
      UnregisterKeepsNewer(Live(w), k, ips[1..], b, a);
    }
  }

  lemma SameHashesSameOrder(o: Order, o': Order, a: Hash, b: Hash)
    requires |o| == |o'| && forall i | 0 <= i < |o| :: o[i].hash == o'[i].hash
    ensures Newer(o, a, b) ==> Newer(o', a, b)
  {
    if Newer(o, a, b) {
      var i, j :| 0 <= i < j < |o| && o[i].hash == a && o[j].hash == b;
      assert o'[i].hash == a && o'[j].hash == b;
    }
  }

  // While two hashes stay listed, no message changes which was requested first.
  lemma StepKeepsNewer(r: Ring, m: Message, r': Ring, a: Hash, b: Hash)
    requires Inv(r) && Sendable(m) && Step(r, m, Some(r'))
    requires Listed(r.order, a) && Listed(r.order, b) && Listed(r'.order, a) && Listed(r'.order, b)
    ensures Newer(r'.order, a, b) <==> Newer(r.order, a, b)
  {
    match m
    case Lookup(hash, from) =>
      if FindHash(r.order, hash) < 0 {
        NewerCons(r'.order[0], r.order, a, b);
      } else {
        SameHashesSameOrder(r.order, r'.order, a, b);
        SameHashesSameOrder(r'.order, r.order, a, b);
      }
    case Register(hash, ips, from) =>
      if FindHash(r.order, hash) < 0 {
        NewerCons(r'.order[0], r.order, a, b);
      } else {
        SameHashesSameOrder(r.order, r'.order, a, b);
        SameHashesSameOrder(r'.order, r.order, a, b);
      }
    case Unregister(hash, ips) =>
      if FindHash(r.order, hash) >= 0 {
        UnregisterKeepsNewer(r.order, FindHash(r.order, hash), ips, a, b);
      }
    case PeerDone(from) =>
      DropFromFirstAt(r.order, from, |r.order|);
      FreeingKeepsNewer(r.order, DropFromFirst(r.order, from, |r.order|), a, b);
  }

  // Both hashes are listed in every state from i to n.
  predicate StayListed(rs: seq<Ring>, i: nat, n: nat, a: Hash, b: Hash)
    requires i <= n < |rs|
  {
    Listed(rs[n].order, a) && Listed(rs[n].order, b) && (i < n ==> StayListed(rs, i, n - 1, a, b))
  }

  // Over a whole run: two hashes that stay listed keep their order.
  lemma {:induction false} RunKeepsNewer(rs: seq<Ring>, ms: seq<Message>, i: nat, n: nat, a: Hash, b: Hash)
    requires Run(rs, ms) && Inv(rs[0]) && i <= n <= |ms| && StayListed(rs, i, n, a, b)
    ensures Newer(rs[n].order, a, b) <==> Newer(rs[i].order, a, b)
    decreases n
  {
    if i < n {
      RunKeepsNewer(rs, ms, i, n - 1, a, b);
      RunKeepsInv(rs, ms, n - 1);
      StepKeepsNewer(rs[n - 1], ms[n - 1], rs[n], a, b);
    }
  }

  // ----- no peer is listed that was not announced

  // The message says that ip has, or will have, the file of hash h.
  predicate Announces(m: Message, h: Hash, ip: Ip) {
    match m
    case Lookup(hash, from) => hash == h && from == ip
    case Register(hash, ips, from) => hash == h && ip in Named(ips, from)
    case _ => false
  }

  predicate Mentions(ps: seq<Peer>, ip: Ip) {
    exists i | 0 <= i < |ps| :: ps[i].ip == ip
  }

  // Some entry of hash h lists ip.
  predicate Offers(o: seq<Entry>, h: Hash, ip: Ip) {
    exists i | 0 <= i < |o| :: o[i].hash == h && Mentions(o[i].peers, ip)
  }

  lemma {:induction false} LiveOffers(w: seq<Entry>, h: Hash, ip: Ip)
    ensures Offers(Live(w), h, ip) ==> Offers(w, h, ip)
  {
    LiveAreUsed(w);
    if Offers(Live(w), h, ip) {
      var i :| 0 <= i < |Live(w)| && Live(w)[i].hash == h && Mentions(Live(w)[i].peers, ip);
      var j :| 0 <= j < |w| && w[j] == Live(w)[i];
    }
  }

  lemma DropOffers(e: Entry, gone: Ip, ip: Ip)
    ensures Mentions(DropPeer(e, gone).peers, ip) ==> Mentions(e.peers, ip) && DropPeer(e, gone).hash == e.hash
  {
    var k := FindPeer(e.peers, gone);
    if Mentions(DropPeer(e, gone).peers, ip) && k >= 0 && |e.peers| != 1 {
      var i :| 0 <= i < |e.peers| - 1 && DropPeer(e, gone).peers[i].ip == ip;
      assert e.peers[if i < k then i else i + 1].ip == ip;
    }
  }

  lemma {:induction false} UnregisterOffers(o: Order, k: nat, ips: seq<Ip>, h: Hash, ip: Ip)
    requires h != 0
    ensures Offers(UnregisterAt(o, k, ips), h, ip) ==> Offers(o, h, ip)
    decreases |ips|
  {
    if ips != [] && k < |o| {
      var w := DropAt(o, k, ips[0]);
      UnregisterOffers(Live(w), k, ips[1..], h, ip);
      LiveOffers(w, h, ip);
      DropOffers(o[k], ips[0], ip);
      if Offers(w, h, ip) {
        var i :| 0 <= i < |w| && w[i].hash == h && Mentions(w[i].peers, ip);
        assert o[i].hash == h && Mentions(o[i].peers, ip);
      }
    }
  }

  lemma {:induction false} RegisterMentions(ps: seq<Peer>, ips: seq<Ip>, ip: Ip)
    ensures Mentions(RegisterPeers(ps, ips), ip) <==> Mentions(ps, ip) || ip in ips
    decreases |ips|
  {
    if ips != [] {
      hide Mentions;
      var before, last := ips[..|ips| - 1], ips[|ips| - 1];
      RegisterMentions(ps, before, ip);
      assert ips == before + [last];
      RegisteredMentions(RegisterPeers(ps, before), last, ip);
    }
  }

  lemma RegisteredMentions(ps: seq<Peer>, last: Ip, ip: Ip)
    ensures Mentions(RegisteredOne(ps, last), ip) <==> Mentions(ps, ip) || ip == last
  {
    var ps', k := RegisteredOne(ps, last), FindPeer(ps, last);
    if Mentions(ps, ip) {
      var i :| 0 <= i < |ps| && ps[i].ip == ip;
      assert ps'[i].ip == ip;
    }
    if ip == last {
      assert ps'[if k < 0 then |ps| else k].ip == ip;
    }
    if Mentions(ps', ip) && ip != last {
      var i :| 0 <= i < |ps'| && ps'[i].ip == ip;
      assert ps[i].ip == ip;
    }
  }

  lemma LookupMentions(ps0: seq<Peer>, ps: seq<Peer>, from: Ip, ip: Ip)
    requires multiset(ps) == multiset(ps0)
    ensures Mentions(WithRequestor(ps, from), ip) <==> Mentions(ps0, ip) || ip == from
  {
    SameMentions(ps, ps0, ip);
    SameMentions(ps0, ps, ip);
    var ps' := WithRequestor(ps, from);
    var k := FindPeer(ps[..Min(|ps|, PEERS_PER_PREDICTION)], from);
    assert ps'[if k < 0 then |ps| else k].ip == from;
    if Mentions(ps, ip) {
      var i :| 0 <= i < |ps| && ps[i].ip == ip;
      assert ps'[i].ip == ip;
    }
    if Mentions(ps', ip) && ip != from {
      var i :| 0 <= i < |ps'| && ps'[i].ip == ip;
      assert ps[i].ip == ip;
    }
  }

  lemma SameMentions(ps: seq<Peer>, ps': seq<Peer>, ip: Ip)
    requires multiset(ps) == multiset(ps')
    ensures Mentions(ps, ip) ==> Mentions(ps', ip)
  {
    if Mentions(ps, ip) {
      var i :| 0 <= i < |ps| && ps[i].ip == ip;
      assert ps[i] in multiset(ps');
      assert ps[i] in ps';
    }
  }

  // A step offers nothing new but what its message announces.
  lemma StepOffers(r: Ring, m: Message, r': Ring, h: Hash, ip: Ip)
    requires Inv(r) && Sendable(m) && Step(r, m, Some(r')) && h != 0
    ensures Offers(r'.order, h, ip) ==> Offers(r.order, h, ip) || Announces(m, h, ip)
  {
    if Offers(r'.order, h, ip) {
      match m
      case Lookup(hash, from) =>
        LookupOffers(r, hash, from, r', h, ip);
      case Register(hash, ips, from) =>
        RegisterOffers(r, hash, ips, from, r', h, ip);
      case Unregister(hash, ips) =>
        if FindHash(r.order, hash) >= 0 {
          UnregisterOffers(r.order, FindHash(r.order, hash), ips, h, ip);
        }
      case PeerDone(from) =>
        var w := DropFromFirst(r.order, from, |r.order|);
        LiveOffers(w, h, ip);
        DropFromFirstAt(r.order, from, |r.order|);
        var i :| 0 <= i < |w| && w[i].hash == h && Mentions(w[i].peers, ip);
        DropOffers(r.order[i], from, ip);
    }
  }

  lemma LookupOffers(r: Ring, hash: Hash, from: Ip, r': Ring, h: Hash, ip: Ip)
    requires Step(r, Lookup(hash, from), Some(r')) && Offers(r'.order, h, ip)
    ensures Offers(r.order, h, ip) || (h == hash && ip == from)
  {
    var o, o' := r.order, r'.order;
    var k := FindHash(o, hash);
    var i :| 0 <= i < |o'| && o'[i].hash == h && Mentions(o'[i].peers, ip);
    if k < 0 {
      if i > 0 {
        assert o[i - 1].hash == h && Mentions(o[i - 1].peers, ip);
      }
    } else if i == k {
      var ps :| multiset(ps) == multiset(o[k].peers) && o'[k].peers == WithRequestor(ps, from);
      LookupMentions(o[k].peers, ps, from, ip);
    } else if i < k {
      SameMentions(o'[i].peers, o[i].peers, ip);
    }
  }

  lemma RegisterOffers(r: Ring, hash: Hash, ips: seq<Ip>, from: Ip, r': Ring, h: Hash, ip: Ip)
    requires Step(r, Register(hash, ips, from), Some(r')) && Offers(r'.order, h, ip)
    ensures Offers(r.order, h, ip) || (h == hash && ip in Named(ips, from))
  {
    var o, o' := r.order, r'.order;
    var k := FindHash(o, hash);
    var i :| 0 <= i < |o'| && o'[i].hash == h && Mentions(o'[i].peers, ip);
    if k < 0 {
      if i > 0 {
        assert o[i - 1].hash == h && Mentions(o[i - 1].peers, ip);
      }
    } else if i == k {
      RegisterMentions(o[k].peers, Named(ips, from), ip);
    }
  }

  // Whatever a run offers was announced by one of its messages.
  lemma {:induction false} OfferedWasAnnounced(rs: seq<Ring>, ms: seq<Message>, n: nat, h: Hash, ip: Ip)
    requires Run(rs, ms) && Inv(rs[0]) && rs[0].order == [] && n <= |ms| && h != 0
    requires Offers(rs[n].order, h, ip)
    ensures exists i :: 0 <= i < n && Announces(ms[i], h, ip)
  {
    if n > 0 {
      RunKeepsInv(rs, ms, n - 1);
      StepOffers(rs[n - 1], ms[n - 1], rs[n], h, ip);
      if Offers(rs[n - 1].order, h, ip) {
        OfferedWasAnnounced(rs, ms, n - 1, h, ip);
      }
    }
  }
}
