/**
 When an UNREGISTER leaves no request at all: the peers it names are removed at one
 place of the list, and run on to the next older file when a file has none left.
 */
module RunningOut {
  import opened Sequences
  import opened TrackerTypes
  import opened RequestOrder

  function Addresses(ps: seq<Peer>): (r: seq<Ip>)
    ensures |r| == |ps|
  {
    seq(|ps|, i requires 0 <= i < |ps| => ps[i].ip)
  }

  // The named addresses take all peers of the entry away.
  predicate RunsOut(e: Entry, ips: seq<Ip>) {
    multiset(Addresses(e.peers)) <= multiset(ips)
  }

  // A live entry has a peer.
  lemma NeedsSome(e: Entry)
    requires IsLive(e)
    ensures !RunsOut(e, [])
  {
    assert Addresses(e.peers)[0] in multiset(Addresses(e.peers));
  }

  // The named addresses fall into parts, one after another, that take all peers of
  // the entries away, from the newest to the oldest; some may be left over.
  ghost predicate AllRunOut(o: Order, ips: seq<Ip>)
    decreases |o|, 1
  {
    o == [] || exists n :: FirstPart(o, ips, n)
  }

  // The first n addresses are for the newest entry, and the others for the rest.
  ghost predicate FirstPart(o: Order, ips: seq<Ip>, n: int)
    requires o != []
    decreases |o|, 0
  {
    0 <= n <= |ips| && RunsOut(o[0], ips[..n]) && AllRunOut(o[1..], ips[n..])
  }

  lemma AddressesWithout(ps: seq<Peer>, k: nat)
    requires k < |ps|
    ensures multiset(Addresses(ps[..k] + ps[k + 1..])) == multiset(Addresses(ps)) - multiset{ps[k].ip}
  {
    TakeOut(Addresses(ps), k);
    assert Addresses(ps[..k] + ps[k + 1..]) == Addresses(ps)[..k] + Addresses(ps)[k + 1..];
  }

  lemma DropAddresses(e: Entry, ip: Ip)
    requires IsLive(e)
    ensures DropPeer(e, ip) == FREE ==> Addresses(e.peers) == [ip]
    ensures DropPeer(e, ip) != FREE ==>
              multiset(Addresses(DropPeer(e, ip).peers)) == multiset(Addresses(e.peers)) - multiset{ip}
  {
    var k := FindPeer(e.peers, ip);
    if k >= 0 {
      AddressesWithout(e.peers, k);
    } else {
      assert forall a | a in Addresses(e.peers) :: a != ip;
      assert ip !in multiset(Addresses(e.peers));
    }
  }

  // Taking one peer away, the named addresses are enough for the rest exactly when
  // with it they were enough before.
  lemma RunsOutStep(e: Entry, ip: Ip, ips: seq<Ip>)
    requires IsLive(e)
    ensures RunsOut(e, [ip] + ips) <==> DropPeer(e, ip) == FREE || RunsOut(DropPeer(e, ip), ips)
  {
    DropAddresses(e, ip);
    assert multiset([ip] + ips) == multiset{ip} + multiset(ips);
    assert DropPeer(e, ip) == FREE ==> multiset(Addresses(e.peers)) == multiset{ip};
  }

  lemma {:induction false} AllRunOutMore(o: Order, a: seq<Ip>, b: seq<Ip>)
    requires AllRunOut(o, b)
    ensures AllRunOut(o, a + b)
  {
    if o != [] {
      var n :| FirstPart(o, b, n);
      assert (a + b)[..|a| + n] == a + b[..n] && (a + b)[|a| + n..] == b[n..];
      assert FirstPart(o, a + b, |a| + n);
    }
  }

  lemma SomePart(o: Order, ips: seq<Ip>) returns (n: nat)
    requires o != [] && AllRunOut(o, ips)
    ensures n <= |ips| && FirstPart(o, ips, n)
  {
    n :| FirstPart(o, ips, n);
  }

  // So the part of a live entry has an address.
  lemma PartIsSome(o: Order, ips: seq<Ip>, n: int)
    requires o != [] && IsLive(o[0]) && FirstPart(o, ips, n)
    ensures n > 0
  {
    NeedsSome(o[0]);
  }

  // One more address in front goes with the first part.
  lemma {:induction false} PartWith(o: Order, e: Entry, ip: Ip, ips: seq<Ip>, n: nat)
    requires o != [] && IsLive(o[0]) && n <= |ips| && e == DropPeer(o[0], ip)
    ensures FirstPart(o, [ip] + ips, n + 1) <==> (e == FREE || RunsOut(e, ips[..n])) && AllRunOut(o[1..], ips[n..])
  {
    hide RunsOut, DropPeer, AllRunOut;
    RunsOutStep(o[0], ip, ips[..n]);
    assert ([ip] + ips)[..n + 1] == [ip] + ips[..n] && ([ip] + ips)[n + 1..] == ips[n..];
  }

  // Taking away the last peer of the newest entry leaves the other addresses to the
  // older entries.
  lemma RunsOutNow(o: Order, ip: Ip, ips: seq<Ip>)
    requires o != [] && IsLive(o[0]) && DropPeer(o[0], ip) == FREE
    ensures AllRunOut(o, [ip] + ips) <==> AllRunOut(o[1..], ips)
  {
    hide RunsOut, DropPeer, FirstPart;
    if AllRunOut(o, [ip] + ips) {
      var m := SomePart(o, [ip] + ips);
      PartIsSome(o, [ip] + ips, m);
      PartWith(o, FREE, ip, ips, m - 1);
      AllRunOutMore(o[1..], ips[..m - 1], ips[m - 1..]);
      assert ips[..m - 1] + ips[m - 1..] == ips;
    }
    PartWith(o, FREE, ip, ips, 0);
    assert ips[0..] == ips;
  }

  // Taking away another peer leaves them to what is left of it, too.
  lemma RunsOutLater(o: Order, o': Order, ip: Ip, ips: seq<Ip>)
    requires o != [] && IsLive(o[0]) && DropPeer(o[0], ip) != FREE && o' == [DropPeer(o[0], ip)] + o[1..]
    ensures AllRunOut(o, [ip] + ips) <==> AllRunOut(o', ips)
  {
    hide RunsOut, DropPeer;
    assert o'[1..] == o[1..];
    if AllRunOut(o, [ip] + ips) {
      var m := SomePart(o, [ip] + ips);
      PartIsSome(o, [ip] + ips, m);
      PartWith(o, o'[0], ip, ips, m - 1);
      assert FirstPart(o', ips, m - 1);
    }
    if AllRunOut(o', ips) {
      var n := SomePart(o', ips);
      PartWith(o, o'[0], ip, ips, n);
    }
  }

  // Removing peers at the newest place leaves nothing exactly when all run out.
  lemma {:induction false} UnregisterEmptiesIff(o: Order, ips: seq<Ip>)
    requires WellFormed(o)
    ensures UnregisterAt(o, 0, ips) == [] <==> AllRunOut(o, ips)
    decreases |ips|
  {
    hide AllRunOut, DropPeer;
    if o == [] {
      NothingLeft(ips);
    } else if ips == [] {
      SomethingLeft(o);
    } else {
      AfterDrop(o, ips[0]);
      var o' := Live(DropAt(o, 0, ips[0]));
      UnregisterEmptiesIff(o', ips[1..]);
      assert ips == [ips[0]] + ips[1..];
      if DropPeer(o[0], ips[0]) == FREE {
        RunsOutNow(o, ips[0], ips[1..]);
        assert o' == o[1..];
      } else {
        RunsOutLater(o, o', ips[0], ips[1..]);
      }
    }
  }

  lemma AfterDrop(o: Order, ip: Ip)
    requires WellFormed(o) && o != []
    ensures WellFormed(Live(DropAt(o, 0, ip)))
    ensures Live(DropAt(o, 0, ip)) == (if DropPeer(o[0], ip) == FREE then [] else [DropPeer(o[0], ip)]) + o[1..]
  {
    hide DropPeer;
    DropAtKeepsWellFormed(o, 0, ip);
    DropFreesOrKeeps(o[0], ip);
    assert DropAt(o, 0, ip) == [DropPeer(o[0], ip)] + o[1..];
    LiveCons(DropPeer(o[0], ip), o[1..]);
    LiveAll(o[1..]);
  }

  lemma NothingLeft(ips: seq<Ip>)
    ensures UnregisterAt([], 0, ips) == [] && AllRunOut([], ips)
  {
  }

  lemma SomethingLeft(o: Order)
    requires o != [] && IsLive(o[0])
    ensures !AllRunOut(o, [])
  {
    if n :| FirstPart(o, [], n) {
      PartIsSome(o, [], n);
    }
  }

  // Whatever is newer than the named file stays.
  lemma {:induction false} NewerStays(o: Order, k: nat, ips: seq<Ip>)
    requires o != [] && o[0].hash != 0 && k > 0
    ensures UnregisterAt(o, k, ips) != []
    decreases |ips|
  {
    if ips != [] && k < |o| {
      NewerStays(Live(DropAt(o, k, ips[0])), k, ips[1..]);
    }
  }

  // So an UNREGISTER leaves an empty list exactly when it names the newest file and
  // all files run out of peers.
  lemma UnregisterLeavesNothingIff(o: Order, k: nat, ips: seq<Ip>)
    requires WellFormed(o) && k < |o|
    ensures UnregisterAt(o, k, ips) == [] <==> k == 0 && AllRunOut(o, ips)
  {
    if k == 0 {
      UnregisterEmptiesIff(o, ips);
    } else {
      NewerStays(o, k, ips);
    }
  }
}
