/**
 Choosing which peers a lookup offers first: peers of the requestor's own coop
 group, then peers that are ready, then those assigned least recently.
 */
module PeerSelection {
  import opened Sequences
  import opened TrackerTypes

  type Coop = Option<string>

  // A row of the download timestamp table: when a host was last assigned.
  datatype Row = Row(host: Ip, timestamp: nat, coop: Coop)

  // A peer with what the comparison looks at.
  datatype Key = Key(peer: Peer, timestamp: nat, coop: Coop)

  // ----- the comparison

  // Below 0 when a goes first, above 0 when b does.
  function Compare(a: Key, b: Key, mine: Coop): int {
    if mine.Some? && a.coop.Some? && b.coop.Some? && a.coop != b.coop && (a.coop == mine || b.coop == mine) then
      if a.coop == mine then -1 else 1
    else if a.peer.state == b.peer.state then
      if a.timestamp < b.timestamp then -1 else if a.timestamp > b.timestamp then 1 else 0
    else if a.peer.state == Downloading then 1
    else -1
  }

  // What the comparison sorts by when every coop group is known.
  function StrangerRank(k: Key, mine: Coop): nat {
    if mine.None? || k.coop == mine then 0 else 1
  }

  function StateRank(k: Key): nat {
    if k.peer.state == Ready then 0 else 1
  }

  predicate Before(a: Key, b: Key, mine: Coop) {
    var p, q := StrangerRank(a, mine), StrangerRank(b, mine);
    p < q || (p == q && (StateRank(a) < StateRank(b) ||
                         (StateRank(a) == StateRank(b) && a.timestamp < b.timestamp)))
  }

  predicate CoopKnown(k: Key, mine: Coop) {
    mine.None? || k.coop.Some?
  }

  // With known coop groups the comparison is the lexicographic order of
  // (other coop group, not ready, time of last assignment).
  lemma CompareIsLexicographic(a: Key, b: Key, mine: Coop)
    requires CoopKnown(a, mine) && CoopKnown(b, mine)
    ensures Compare(a, b, mine) < 0 <==> Before(a, b, mine)
    ensures Compare(a, b, mine) > 0 <==> Before(b, a, mine)
  {
  }

  // The groups of a and b decide only if all three are known and one of the two alone is
  // of the requestor's group.
  predicate GroupsDecide(a: Key, b: Key, mine: Coop) {
    None !in {a.coop, b.coop, mine} && (a.coop == mine <==> b.coop != mine)
  }

  // Then the peer of the requestor's group goes first, and otherwise the ready one, or of
  // two in the same state the one assigned longer ago.
  lemma CompareDecides(a: Key, b: Key, mine: Coop)
    ensures GroupsDecide(a, b, mine) ==> (Compare(a, b, mine) < 0 <==> a.coop == mine)
    ensures GroupsDecide(a, b, mine) ==> (Compare(a, b, mine) > 0 <==> b.coop == mine)
    ensures !GroupsDecide(a, b, mine) ==> (Compare(a, b, mine) < 0 <==> AheadByStateAndTime(a, b))
    ensures !GroupsDecide(a, b, mine) ==> (Compare(a, b, mine) > 0 <==> AheadByStateAndTime(b, a))
  {
  }

  predicate AheadByStateAndTime(a: Key, b: Key) {
    if a.peer.state != b.peer.state then a.peer.state == Ready else a.timestamp < b.timestamp
  }

  // a does not go after b.
  predicate Le(a: Key, b: Key, mine: Coop) {
    Compare(a, b, mine) <= 0
  }

  // Among peers of these coop groups the comparison is transitive.
  ghost predicate TransitiveOver(coops: set<Coop>, mine: Coop) {
    forall a: Key, b: Key, c: Key | a.coop in coops && b.coop in coops && c.coop in coops
                                    && Le(a, b, mine) && Le(b, c, mine) :: Le(a, c, mine)
  }

  // One group is the requestor's, one is unknown and one is another.
  predicate MixesUnknown(coops: set<Coop>, mine: Coop) {
    mine.Some? && mine in coops && None in coops && coops - {mine, None} != {}
  }

  // That is where the comparison is not transitive, and nowhere else.
  lemma TransitiveIff(coops: set<Coop>, mine: Coop)
    ensures TransitiveOver(coops, mine) <==> !MixesUnknown(coops, mine)
  {
    if MixesUnknown(coops, mine) {
      var other :| other in coops - {mine, None};
      var p := Peer(0, Ready);
      var a, b, c := Key(p, 1, other), Key(p, 2, None), Key(p, 3, mine);
      assert Le(a, b, mine) && Le(b, c, mine) && !Le(a, c, mine);
    } else {
      forall a: Key, b: Key, c: Key | a.coop in coops && b.coop in coops && c.coop in coops
                                      && Le(a, b, mine) && Le(b, c, mine)
        ensures Le(a, c, mine)
      {
        if mine.Some? && mine in coops && None in coops {
          assert forall x | x in coops :: x in {mine, None} by {
            forall x | x in coops ensures x in {mine, None} {
              assert x !in coops - {mine, None};
            }
          }
        }
      }
    }
  }

  // ----- sorting

  ghost predicate Sorted(s: seq<Key>, mine: Coop) {
    forall i, j | 0 <= i < j < |s| :: Le(s[i], s[j], mine)
  }

  function Coops(s: seq<Key>): set<Coop> {
    set k | k in s :: k.coop
  }

  // The comparison can order these keys.
  predicate Sortable(s: seq<Key>, mine: Coop) {
    !MixesUnknown(Coops(s), mine)
  }

  method Insert(s: seq<Key>, k: Key, mine: Coop) returns (r: seq<Key>)
    ensures multiset(r) == multiset(s) + multiset{k}
    ensures Sortable(s + [k], mine) && Sorted(s, mine) ==> Sorted(r, mine)
  {
    var i := |s|;
    while i > 0 && Compare(k, s[i - 1], mine) < 0
      invariant 0 <= i <= |s|
      invariant forall j | i <= j < |s| :: Le(k, s[j], mine)
    {
      i := i - 1;
    }
    r := s[..i] + [k] + s[i..];
    assert s == s[..i] + s[i..];
    InsertKeepsSorted(s, k, i, mine);
  }

  lemma InsertKeepsSorted(s: seq<Key>, k: Key, i: nat, mine: Coop)
    requires i <= |s|
    requires forall j | i <= j < |s| :: Le(k, s[j], mine)
    requires i > 0 ==> Compare(k, s[i - 1], mine) >= 0
    ensures Sortable(s + [k], mine) && Sorted(s, mine) ==> Sorted(s[..i] + [k] + s[i..], mine)
  {
    if Sortable(s + [k], mine) && Sorted(s, mine) {
      BelowInserted(s, k, i, mine);
      SortedConcat(s[..i], [k], mine);
      forall x, y | x in s[..i] + [k] && y in s[i..]
        ensures Le(x, y, mine)
      {
        assert x in s[..i] || x == k;
      }
      SortedConcat(s[..i] + [k], s[i..], mine);
    }
  }

  lemma BelowInserted(s: seq<Key>, k: Key, i: nat, mine: Coop)
    requires i <= |s| && (i > 0 ==> Compare(k, s[i - 1], mine) >= 0)
    requires Sortable(s + [k], mine) && Sorted(s, mine)
    ensures forall j | 0 <= j < i :: Le(s[j], k, mine)
  {
    TransitiveIff(Coops(s + [k]), mine);
    assert forall x | x in s + [k] :: x.coop in Coops(s + [k]);
    assert k in s + [k] && forall x | x in s :: x in s + [k];
    if i > 0 {
      NotBefore(k, s[i - 1], mine);
    }
    hide Compare, MixesUnknown, Coops;
    forall j | 0 <= j < i
      ensures Le(s[j], k, mine)
    {
      assert j < i - 1 ==> Le(s[j], s[i - 1], mine);
    }
  }

  lemma NotBefore(a: Key, b: Key, mine: Coop)
    requires Compare(a, b, mine) >= 0
    ensures Le(b, a, mine)
  {
  }

  lemma SortedConcat(a: seq<Key>, b: seq<Key>, mine: Coop)
    requires Sorted(a, mine) && Sorted(b, mine) && forall x, y | x in a && y in b :: Le(x, y, mine)
    ensures Sorted(a + b, mine)
  {
  }

  // The library sort: any permutation when the comparison cannot order the
  // keys, a sorted one when it can.
  method Sort(keys: seq<Key>, mine: Coop) returns (r: seq<Key>)
    ensures multiset(r) == multiset(keys)
    ensures Sortable(keys, mine) ==> Sorted(r, mine)
  {
    r := [];
    var i := 0;
    while i < |keys|
      invariant 0 <= i <= |keys| && multiset(r) == multiset(keys[..i])
      invariant Sortable(keys, mine) ==> Sorted(r, mine)
    {
      assert keys[..i + 1] == keys[..i] + [keys[i]];
      SortableSome(keys, i, r, mine);
      r := Insert(r, keys[i], mine);
      i := i + 1;
    }
    assert keys[..|keys|] == keys;
  }

  lemma SortableSome(keys: seq<Key>, i: nat, r: seq<Key>, mine: Coop)
    requires i < |keys| && multiset(r) == multiset(keys[..i])
    ensures Sortable(keys, mine) ==> Sortable(r + [keys[i]], mine)
  {
    forall k | k in r + [keys[i]]
      ensures k in keys
    {
      if k in r {
        assert k in multiset(r);
        assert k in keys[..i];
      }
    }
    assert Coops(r + [keys[i]]) <= Coops(keys);
  }

  // ----- the table of last assignments

  function FindRow(rows: seq<Row>, host: Ip): (k: int)
    ensures -1 <= k < |rows|
    ensures k >= 0 ==> rows[k].host == host
    ensures forall j | 0 <= j < (if k < 0 then |rows| else k) :: rows[j].host != host
  {
    if rows == [] then -1
    else if rows[0].host == host then 0
    else
      var k := FindRow(rows[1..], host);
      if k < 0 then -1 else k + 1
  }

  lemma {:induction false} FindRowUpdate(rows: seq<Row>, i: nat, r: Row, host: Ip)
    requires i < |rows| && r.host == rows[i].host
    ensures FindRow(rows[i := r], host) == FindRow(rows, host)
  {
    if rows[0].host != host && i > 0 {
      assert rows[i := r][1..] == rows[1..][i - 1 := r];
      FindRowUpdate(rows[1..], i - 1, r, host);
    }
  }

  lemma {:induction false} FindRowAppend(rows: seq<Row>, r: Row, host: Ip)
    ensures FindRow(rows + [r], host) ==
            if FindRow(rows, host) >= 0 then FindRow(rows, host) else if r.host == host then |rows| else -1
  {
    if rows != [] {
      assert (rows + [r])[1..] == rows[1..] + [r];
      FindRowAppend(rows[1..], r, host);
    }
  }

  lemma {:induction false} FindRowIs(rows: seq<Row>, host: Ip, i: nat)
    requires i <= |rows| && forall j | 0 <= j < i :: rows[j].host != host
    requires i < |rows| ==> rows[i].host == host
    ensures FindRow(rows, host) == if i < |rows| then i else -1
  {
  }

  // When host was last assigned; 0 when never.
  function LastAssigned(rows: seq<Row>, host: Ip): nat {
    var k := FindRow(rows, host);
    if k < 0 then 0 else rows[k].timestamp
  }

  // The rows without what is known of host.
  function Cleared(rows: seq<Row>, host: Ip): seq<Row> {
    var k := FindRow(rows, host);
    if k < 0 then rows else rows[k := Row(host, 0, None)]
  }

  // The coop group recorded for host, or else the one the site gives it.
  function CoopOf(rows: seq<Row>, resolve: Ip -> Coop, host: Ip): Coop {
    var k := FindRow(rows, host);
    if k >= 0 && rows[k].coop.Some? then rows[k].coop else resolve(host)
  }

  function KeyOf(rows: seq<Row>, resolve: Ip -> Coop, p: Peer): Key {
    Key(p, LastAssigned(rows, p.ip), CoopOf(rows, resolve, p.ip))
  }

  function KeysOf(rows: seq<Row>, resolve: Ip -> Coop, ps: seq<Peer>): (r: seq<Key>)
    ensures |r| == |ps|
  {
    seq(|ps|, i requires 0 <= i < |ps| => KeyOf(rows, resolve, ps[i]))
  }

  function PeersOf(keys: seq<Key>): (r: seq<Peer>)
    ensures |r| == |keys|
  {
    seq(|keys|, i requires 0 <= i < |keys| => keys[i].peer)
  }

  // What one shuffle of two or more peers does: it sorts them by the table as it
  // was, and stamps the one that came first, and no other host, with now.
  ghost predicate Shuffled(rows: seq<Row>, resolve: Ip -> Coop, mine: Coop, now: nat,
                           ps: seq<Peer>, rows': seq<Row>, ps': seq<Peer>)
  {
    && multiset(ps') == multiset(ps)
    && (|ps| <= 1 ==> ps' == ps)
    && (Sortable(KeysOf(rows, resolve, ps), mine) ==> Sorted(KeysOf(rows, resolve, ps'), mine))
    && forall host: Ip | host != 0 ::
         && CoopOf(rows', resolve, host) == CoopOf(rows, resolve, host)
         && LastAssigned(rows', host) == if |ps| > 1 && host == ps'[0].ip then now else LastAssigned(rows, host)
  }

  class DtTable {
    // Rows fill the table from the start; a host of 0 marks the rest as free,
    // so that address is never recorded.
    var rows: seq<Row>

    constructor ()
      ensures rows == []
    {
      rows := [];
    }

    ghost predicate SameRows(old_: seq<Row>, resolve: Ip -> Coop)
      reads this
    {
      forall host: Ip ::
        && LastAssigned(rows, host) == LastAssigned(old_, host)
        && CoopOf(rows, resolve, host) == CoopOf(old_, resolve, host)
    }

    method LookupTimestamp(host: Ip, resolve: Ip -> Coop) returns (timestamp: nat, coop: Coop)
      modifies this
      ensures timestamp == LastAssigned(old(rows), host) && coop == CoopOf(old(rows), resolve, host)
      ensures SameRows(old(rows), resolve)
      ensures host != 0 ==> FindRow(rows, host) >= 0
      ensures forall h: Ip | FindRow(old(rows), h) >= 0 :: FindRow(rows, h) >= 0
    {
      var i := 0;
      while i < |rows|
        invariant 0 <= i <= |rows| && rows == old(rows)
        invariant forall j | 0 <= j < i :: rows[j].host != host
      {
        if rows[i].host == host {
          FindRowIs(rows, host, i);
          timestamp := rows[i].timestamp;
          if rows[i].coop.None? {
            RowUpdate(i, rows[i].(coop := resolve(host)));
          }
          coop := rows[i].coop;
          return;
        }
        i := i + 1;
      }
      FindRowIs(rows, host, i);
      timestamp, coop := 0, resolve(host);
      if host != 0 {
        forall h: Ip {
          FindRowAppend(rows, Row(host, 0, coop), h);
        }
        rows := rows + [Row(host, 0, coop)];
      }
    }

    method RowUpdate(i: nat, r: Row)
      requires i < |rows| && r.host == rows[i].host
      modifies this
      ensures rows == old(rows)[i := r]
      ensures forall h: Ip :: FindRow(rows, h) == FindRow(old(rows), h)
    {
      forall h: Ip {
        FindRowUpdate(rows, i, r, h);
      }
      rows := rows[i := r];
    }

    // Stamps the row of host, if there is one.
    method UpdateTimestamp(host: Ip, resolve: Ip -> Coop, now: nat)
      modifies this
      ensures forall h: Ip :: CoopOf(rows, resolve, h) == CoopOf(old(rows), resolve, h)
      ensures forall h: Ip :: FindRow(rows, h) == FindRow(old(rows), h)
      ensures forall h: Ip :: LastAssigned(rows, h) ==
                if h == host && FindRow(rows, h) >= 0 then now else LastAssigned(old(rows), h)
    {
      var i := 0;
      while i < |rows|
        invariant 0 <= i <= |rows| && rows == old(rows)
        invariant forall j | 0 <= j < i :: rows[j].host != host
      {
        if rows[i].host == host {
          FindRowIs(rows, host, i);
          RowUpdate(i, rows[i].(timestamp := now));
          return;
        }
        i := i + 1;
      }
      FindRowIs(rows, host, i);
    }

    // Forgets when host was assigned, and its coop group.
    method ClearEntry(host: Ip)
      modifies this
      ensures rows == Cleared(old(rows), host)
      ensures forall h: Ip :: FindRow(rows, h) == FindRow(old(rows), h)
      ensures forall h: Ip :: LastAssigned(rows, h) == if h == host then 0 else LastAssigned(old(rows), h)
      ensures FindRow(rows, host) >= 0 ==> rows[FindRow(rows, host)].coop.None?
    {
      var i := 0;
      while i < |rows|
        invariant 0 <= i <= |rows| && rows == old(rows)
        invariant forall j | 0 <= j < i :: rows[j].host != host
      {
        if rows[i].host == host {
          FindRowIs(rows, host, i);
          RowUpdate(i, rows[i].(timestamp := 0, coop := None));
          return;
        }
        i := i + 1;
      }
      FindRowIs(rows, host, i);
    }

    method Shuffle(ps: seq<Peer>, mine: Coop, resolve: Ip -> Coop, now: nat) returns (ps': seq<Peer>)
      modifies this
      ensures Shuffled(old(rows), resolve, mine, now, ps, rows, ps')
    {
      var keys := [];
      var i := 0;
      while i < |ps|
        invariant 0 <= i <= |ps| && keys == KeysOf(old(rows), resolve, ps[..i])
        invariant SameRows(old(rows), resolve)
        invariant forall j | 0 <= j < i && ps[j].ip != 0 :: FindRow(rows, ps[j].ip) >= 0
      {
        var timestamp, coop := LookupTimestamp(ps[i].ip, resolve);
        keys := keys + [Key(ps[i], timestamp, coop)];
        i := i + 1;
      }
      assert ps[..i] == ps;
      ps' := ps;
      if |ps| > 1 {
        var sorted := Sort(keys, mine);
        ps' := PeersOf(sorted);
        SortedPeers(old(rows), resolve, ps, sorted);
        assert ps'[0] in multiset(ps);
        assert ps'[0] in ps;
        UpdateTimestamp(ps'[0].ip, resolve, now);
      }
    }
  }

  // A permutation of the keys of ps is the list of keys of a permutation of ps.
  lemma SortedPeers(rows: seq<Row>, resolve: Ip -> Coop, ps: seq<Peer>, sorted: seq<Key>)
    requires multiset(sorted) == multiset(KeysOf(rows, resolve, ps))
    ensures sorted == KeysOf(rows, resolve, PeersOf(sorted))
    ensures multiset(PeersOf(sorted)) == multiset(ps)
  {
    forall i | 0 <= i < |sorted|
      ensures sorted[i] == KeyOf(rows, resolve, sorted[i].peer)
    {
      assert sorted[i] in multiset(sorted);
      assert sorted[i] in KeysOf(rows, resolve, ps);
    }
    PeersOfPermutation(sorted, KeysOf(rows, resolve, ps));
    assert PeersOf(KeysOf(rows, resolve, ps)) == ps;
  }

  lemma {:induction false} PeersOfPermutation(a: seq<Key>, b: seq<Key>)
    decreases |a|
    requires multiset(a) == multiset(b)
    ensures multiset(PeersOf(a)) == multiset(PeersOf(b))
  {
    hide PeersOf;
    if a == [] {
      SameMembers(a, b);
    } else {
      var i := OneLess(a, b);
      PeersOfPermutation(a[1..], b[..i] + b[i + 1..]);
      PeersOfTakeOut(a, 0);
      assert a[..0] + a[1..] == a[1..];
      PeersOfTakeOut(b, i);
    }
  }

  lemma PeersOfTakeOut(s: seq<Key>, i: nat)
    requires i < |s|
    ensures multiset(PeersOf(s)) == multiset(PeersOf(s[..i] + s[i + 1..])) + multiset{s[i].peer}
  {
    TakeOut(PeersOf(s), i);
    assert PeersOf(s)[..i] + PeersOf(s)[i + 1..] == PeersOf(s[..i] + s[i + 1..]);
  }
}
