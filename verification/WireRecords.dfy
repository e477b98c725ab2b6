/**
 The bytes of a lookup reply, and how the server writes its records.  Numbers are
 written with the lowest byte first.
 */
module WireRecords {
  import opened TrackerTypes
  import opened RequestOrder
  import opened Tracker

  type Byte = b: int | 0 <= b < 256

  const HEADER := 16
  const BUFFER := 64 * 1024
  const LOOKUP := 1

  // ----- numbers as bytes

  function Value(bs: seq<Byte>): nat {
    if bs == [] then 0 else bs[0] + 256 * Value(bs[1..])
  }

  function Bytes(v: nat, n: nat): (bs: seq<Byte>)
    ensures |bs| == n
  {
    if n == 0 then [] else [v % 256] + Bytes(v / 256, n - 1)
  }

  // How many numbers n bytes can hold.
  function Range(n: nat): nat {
    if n == 0 then 1 else 256 * Range(n - 1)
  }

  lemma {:induction false} ValueOfBytes(v: nat, n: nat)
    requires v < Range(n)
    ensures Value(Bytes(v, n)) == v
  {
    if n > 0 {
      ValueOfBytes(v / 256, n - 1);
      assert Bytes(v, n)[1..] == Bytes(v / 256, n - 1);
    }
  }

  lemma {:induction false} BytesOfValue(bs: seq<Byte>)
    ensures Bytes(Value(bs), |bs|) == bs && Value(bs) < Range(|bs|)
  {
    if bs != [] {
      BytesOfValue(bs[1..]);
    }
  }

  lemma Ranges()
    ensures Range(2) == 0x1_0000 && Range(4) == 0x1_0000_0000 && Range(8) == 0x1_0000_0000_0000_0000
  {
    assert Range(3) == 256 * Range(2) && Range(5) == 256 * Range(4);
    assert Range(6) == 256 * Range(5) && Range(7) == 256 * Range(6);
  }

  function StateCode(s: PeerState): Byte {
    match s
    case Downloading => 1
    case Ready => 2
  }

  // The n bytes at some place.
  function Field(buf: seq<Byte>, at: nat, n: nat): nat
    requires at + n <= |buf|
  {
    Value(buf[at..at + n])
  }

  // ----- records in bytes; padding is left open

  predicate PeerAt(buf: seq<Byte>, at: nat, p: Peer) {
    at + 8 <= |buf| && Field(buf, at, 4) == p.ip && buf[at + 4] == StateCode(p.state)
  }

  predicate RecordAt(buf: seq<Byte>, at: nat, info: Info) {
    && at + InfoLength(info) <= |buf|
    && Field(buf, at, 8) == info.hash && Field(buf, at + 8, 2) == |info.peers|
    && forall j | 0 <= j < |info.peers| :: PeerAt(buf, at + 16 + 8 * j, info.peers[j])
  }

  predicate RecordsAt(buf: seq<Byte>, at: nat, infos: seq<Info>)
    decreases infos
  {
    infos == [] || (RecordAt(buf, at, infos[0]) && RecordsAt(buf, at + InfoLength(infos[0]), infos[1..]))
  }

  // The bytes hold at most one list of so many records.
  lemma {:induction false} RecordsAreDetermined(buf: seq<Byte>, at: nat, infos: seq<Info>, others: seq<Info>)
    requires RecordsAt(buf, at, infos) && RecordsAt(buf, at, others) && |infos| == |others|
    ensures infos == others
    decreases infos
  {
    if infos != [] {
      var a, b := infos[0], others[0];
      assert forall j | 0 <= j < |a.peers| :: a.peers[j] == b.peers[j];
      assert a == b;
      RecordsAreDetermined(buf, at + InfoLength(a), infos[1..], others[1..]);
    }
  }

  lemma {:induction false} FirstLength(infos: seq<Info>)
    requires infos != []
    ensures InfosLength(infos) == InfoLength(infos[0]) + InfosLength(infos[1..])
  {
    var last := |infos| - 1;
    if last > 0 {
      FirstLength(infos[..last]);
      assert infos[..last][1..] == infos[1..][..last - 1];
    }
  }

  lemma LengthNext(infos: seq<Info>, n: nat)
    requires n <= |infos|
    ensures n < |infos| ==> InfosLength(infos[..n + 1]) == InfosLength(infos[..n]) + InfoLength(infos[n])
    ensures n == |infos| ==> infos[..n] == infos
  {
    if n < |infos| {
      LengthGrows(infos[..n], infos[n]);
      assert infos[..n + 1] == infos[..n] + [infos[n]];
    }
  }

  // Short of all records, there are bytes left.
  lemma {:induction false} LengthBehind(infos: seq<Info>, k: nat)
    requires k <= |infos|
    ensures InfosLength(infos[..k]) < InfosLength(infos) <==> k < |infos|
    decreases |infos|
  {
    if k == |infos| {
      assert infos[..k] == infos;
    } else {
      var rest := infos[..|infos| - 1];
      LengthBehind(rest, k);
      assert rest[..k] == infos[..k];
    }
  }

  // The first n of the records are as long as they are, and the next one lies behind them.
  lemma {:induction false} RecordBehind(buf: seq<Byte>, at: nat, infos: seq<Info>, n: nat)
    requires RecordsAt(buf, at, infos) && n <= |infos|
    ensures at + InfosLength(infos[..n]) <= |buf| || n == 0
    ensures RecordsAt(buf, at + InfosLength(infos[..n]), infos[n..])
    ensures n < |infos| ==> RecordAt(buf, at + InfosLength(infos[..n]), infos[n])
    decreases n
  {
    hide Field, PeerAt;
    if n > 0 {
      RecordBehind(buf, at + InfoLength(infos[0]), infos[1..], n - 1);
      FirstLength(infos[..n]);
      assert infos[..n][1..] == infos[1..][..n - 1];
      assert infos[n..] == infos[1..][n - 1..];
    }
  }

  // Outside lo to hi the two buffers are the same.
  predicate Kept(buf: seq<Byte>, buf': seq<Byte>, lo: nat, hi: nat) {
    |buf| == |buf'| && forall i | 0 <= i < |buf| && !(lo <= i < hi) :: buf'[i] == buf[i]
  }

  lemma FieldKept(buf: seq<Byte>, buf': seq<Byte>, lo: nat, hi: nat, at: nat, n: nat)
    requires Kept(buf, buf', lo, hi) && at + n <= |buf| && (at + n <= lo || hi <= at)
    ensures Field(buf', at, n) == Field(buf, at, n)
  {
    assert buf'[at..at + n] == buf[at..at + n];
  }

  lemma PeerKept(buf: seq<Byte>, buf': seq<Byte>, lo: nat, hi: nat, at: nat, p: Peer)
    requires Kept(buf, buf', lo, hi) && PeerAt(buf, at, p) && (at + 8 <= lo || hi <= at)
    ensures PeerAt(buf', at, p)
  {
    FieldKept(buf, buf', lo, hi, at, 4);
  }

  lemma RecordKept(buf: seq<Byte>, buf': seq<Byte>, lo: nat, hi: nat, at: nat, info: Info)
    requires Kept(buf, buf', lo, hi) && RecordAt(buf, at, info) && at + InfoLength(info) <= lo
    ensures RecordAt(buf', at, info)
  {
    FieldKept(buf, buf', lo, hi, at, 8);
    FieldKept(buf, buf', lo, hi, at + 8, 2);
    forall j | 0 <= j < |info.peers|
      ensures PeerAt(buf', at + 16 + 8 * j, info.peers[j])
    {
      PeerKept(buf, buf', lo, hi, at + 16 + 8 * j, info.peers[j]);
    }
  }

  // Writing behind some records keeps them, and adds the record written there.
  lemma {:induction false} RecordsGrow(buf: seq<Byte>, buf': seq<Byte>, at: nat, infos: seq<Info>, info: Info)
    requires RecordsAt(buf, at, infos)
    requires Kept(buf, buf', at + InfosLength(infos), at + InfosLength(infos) + InfoLength(info))
    requires RecordAt(buf', at + InfosLength(infos), info)
    ensures RecordsAt(buf', at, infos + [info])
    decreases infos
  {
    hide RecordAt, Kept;
    if infos == [] {
      RecordsCons(buf', at, info, []);
      assert infos + [info] == [info] + [];
    } else {
      FirstLength(infos);
      RecordKept(buf, buf', at + InfosLength(infos), at + InfosLength(infos) + InfoLength(info), at, infos[0]);
      RecordsGrow(buf, buf', at + InfoLength(infos[0]), infos[1..], info);
      RecordsCons(buf', at, infos[0], infos[1..] + [info]);
      assert infos + [info] == [infos[0]] + (infos[1..] + [info]);
    }
  }

  lemma RecordsCons(buf: seq<Byte>, at: nat, info: Info, infos: seq<Info>)
    requires RecordAt(buf, at, info) && RecordsAt(buf, at + InfoLength(info), infos)
    ensures RecordsAt(buf, at, [info] + infos)
  {
    hide RecordAt;
    assert ([info] + infos)[1..] == infos;
  }

  // ----- writing

  // Writes a number as n bytes.
  method Put(buf: array<Byte>, at: nat, v: nat, n: nat)
    requires at + n <= buf.Length && v < Range(n)
    modifies buf
    ensures Kept(old(buf[..]), buf[..], at, at + n) && Field(buf[..], at, n) == v
  {
    ghost var bytes := Bytes(v, n);
    ValueOfBytes(v, n);
    var rest := v;
    var i := 0;
    while i < n
      invariant 0 <= i <= n && Kept(old(buf[..]), buf[..], at, at + n)
      invariant bytes[i..] == Bytes(rest, n - i)
      invariant forall j | 0 <= j < i :: buf[at + j] == bytes[j]
    {
      assert bytes[i] == rest % 256 && bytes[i + 1..] == bytes[i..][1..];
      buf[at + i] := rest % 256;
      rest := rest / 256;
      i := i + 1;
    }
    assert buf[..][at..at + n] == bytes;
  }

  method PutPeer(buf: array<Byte>, at: nat, p: Peer)
    requires at + 8 <= buf.Length
    modifies buf
    ensures Kept(old(buf[..]), buf[..], at, at + 8) && PeerAt(buf[..], at, p)
  {
    Ranges();
    Put(buf, at, p.ip, 4);
    ghost var before := buf[..];
    buf[at + 4] := StateCode(p.state);
    FieldKept(before, buf[..], at + 4, at + 5, at, 4);
  }

  // Writes one record; its padding stays as it was.
  method PutRecord(buf: array<Byte>, at: nat, info: Info)
    requires at + InfoLength(info) <= buf.Length && |info.peers| < 0x1_0000
    modifies buf
    ensures Kept(old(buf[..]), buf[..], at, at + InfoLength(info)) && RecordAt(buf[..], at, info)
  {
    Ranges();
    Put(buf, at, info.hash, 8);
    ghost var before := buf[..];
    Put(buf, at + 8, |info.peers|, 2);
    FieldKept(before, buf[..], at + 8, at + 10, at, 8);
    ghost var fields := buf[..];
    var i := 0;
    while i < |info.peers|
      invariant 0 <= i <= |info.peers| && Kept(old(buf[..]), buf[..], at, at + InfoLength(info))
      invariant Kept(fields, buf[..], at + 16, at + InfoLength(info))
      invariant forall j | 0 <= j < i :: PeerAt(buf[..], at + 16 + 8 * j, info.peers[j])
    {
      before := buf[..];
      PutPeer(buf, at + 16 + 8 * i, info.peers[i]);
      forall j | 0 <= j < i
        ensures PeerAt(buf[..], at + 16 + 8 * j, info.peers[j])
      {
        PeerKept(before, buf[..], at + 16 + 8 * i, at + 24 + 8 * i, at + 16 + 8 * j, info.peers[j]);
      }
      i := i + 1;
    }
    FieldKept(fields, buf[..], at + 16, at + InfoLength(info), at, 8);
    FieldKept(fields, buf[..], at + 16, at + InfoLength(info), at + 8, 2);
  }

  // A reply to the lookup with number seqno, of the given records.
  ghost predicate IsReply(packet: seq<Byte>, seqno: nat, infos: seq<Info>) {
    && HEADER <= |packet| == HEADER + InfosLength(infos)
    && Field(packet, 0, 2) == LOOKUP && Field(packet, 2, 2) == |packet|
    && Field(packet, 4, 4) == seqno && Field(packet, 8, 4) == |infos|
    && RecordsAt(packet, HEADER, infos)
  }

  lemma FieldBytes(buf: seq<Byte>, at: nat, n: nat, v: nat)
    requires at + n <= |buf| && Field(buf, at, n) == v
    ensures buf[at..at + n] == Bytes(v, n)
  {
    BytesOfValue(buf[at..at + n]);
  }

  lemma BytesNext(b: Byte, q: nat, n: nat)
    ensures Bytes(b + 256 * q, n + 1) == [b] + Bytes(q, n)
  {
    assert (b + 256 * q) % 256 == b && (b + 256 * q) / 256 == q;
  }

  lemma TwoBytes(a: Byte, b: Byte)
    ensures Bytes(a + 256 * b, 2) == [a, b]
  {
    BytesNext(a, b, 1);
    BytesNext(b, 0, 0);
  }

  lemma FourBytes(a: Byte, b: Byte, c: Byte, d: Byte)
    ensures Bytes(a + 256 * (b + 256 * (c + 256 * d)), 4) == [a, b, c, d]
  {
    hide Bytes;
    BytesNext(a, b + 256 * (c + 256 * d), 3);
    BytesNext(b, c + 256 * d, 2);
    TwoBytes(c, d);
    assert [b] + [c, d] == [b, c, d];
  }

  lemma EightBytes(a: Byte, b: Byte, c: Byte, d: Byte, rest: nat)
    ensures Bytes(a + 256 * (b + 256 * (c + 256 * (d + 256 * rest))), 8) == [a, b, c, d] + Bytes(rest, 4)
  {
    hide Bytes;
    BytesNext(a, b + 256 * (c + 256 * (d + 256 * rest)), 7);
    BytesNext(b, c + 256 * (d + 256 * rest), 6);
    BytesNext(c, d + 256 * rest, 5);
    BytesNext(d, rest, 4);
    assert [a] + ([b] + ([c] + ([d] + Bytes(rest, 4)))) == [a, b, c, d] + Bytes(rest, 4);
  }

  lemma HeaderBytes(packet: seq<Byte>)
    requires 12 <= |packet| && Field(packet, 0, 2) == LOOKUP && Field(packet, 2, 2) == 40
    requires Field(packet, 4, 4) == 0x0102 && Field(packet, 8, 4) == 1
    ensures packet[..12] == [1, 0, 40, 0, 2, 1, 0, 0, 1, 0, 0, 0]
  {
    hide Field, Bytes;
    FieldBytes(packet, 0, 2, 1);
    FieldBytes(packet, 2, 2, 40);
    FieldBytes(packet, 4, 4, 0x0102);
    FieldBytes(packet, 8, 4, 1);
    TwoBytes(1, 0);
    TwoBytes(40, 0);
    FourBytes(2, 1, 0, 0);
    FourBytes(1, 0, 0, 0);
    assert packet[..12] == packet[0..2] + packet[2..4] + packet[4..8] + packet[8..12];
  }

  lemma RecordBytes(packet: seq<Byte>, p: Peer)
    requires RecordAt(packet, 16, Info(0x0807060504030201, [p])) && p == Peer(0x6401A8C0, Ready)
    ensures packet[16..26] == [1, 2, 3, 4, 5, 6, 7, 8, 1, 0]
    ensures packet[32..37] == [192, 168, 1, 100, 2]
  {
    hide Field, Bytes;
    assert PeerAt(packet, 32, [p][0]);
    FieldBytes(packet, 16, 8, 0x0807060504030201);
    FieldBytes(packet, 24, 2, 1);
    FieldBytes(packet, 32, 4, 0x6401A8C0);
    EightBytes(1, 2, 3, 4, 0x08070605);
    FourBytes(5, 6, 7, 8);
    TwoBytes(1, 0);
    FourBytes(192, 168, 1, 100);
    assert packet[16..26] == packet[16..24] + packet[24..26];
    assert packet[32..37] == packet[32..36] + [packet[36]];
  }

  // The bytes of a reply with one record of one peer, but for its padding.
  lemma ReplyOfOne(packet: seq<Byte>, p: Peer)
    requires IsReply(packet, 0x0102, [Info(0x0807060504030201, [p])]) && p == Peer(0x6401A8C0, Ready)
    ensures |packet| == 40 && packet[..12] == [1, 0, 40, 0, 2, 1, 0, 0, 1, 0, 0, 0]
    ensures packet[16..26] == [1, 2, 3, 4, 5, 6, 7, 8, 1, 0] && packet[32..37] == [192, 168, 1, 100, 2]
  {
    hide RecordAt, Field;
    var info := Info(0x0807060504030201, [p]);
    FirstLength([info]);
    HeaderBytes(packet);
    assert RecordAt(packet, 16, [info][0]);
    RecordBytes(packet, p);
  }

  // Few enough records, each with few enough peers, for the server's buffer.
  predicate Small(infos: seq<Info>) {
    |infos| <= 1 + PREDICTIONS && forall info | info in infos :: |info.peers| <= PEERS_PER_PREDICTION
  }

  // A reply names at most PREDICTIONS later files and PEERS_PER_PREDICTION peers of
  // each, and never the one who asked.
  lemma ReplyIsSmall(o: Order, k: nat, from: Ip)
    requires k < |o|
    ensures Small(ReplyTo(o, k, from))
    ensures forall info, p | info in ReplyTo(o, k, from) && p in info.peers :: p.ip != from
  {
    var r := ReplyTo(o, k, from);
    forall i | 0 <= i < |r|
      ensures |r[i].peers| <= PEERS_PER_PREDICTION && forall p | p in r[i].peers :: p.ip != from
    {
      assert r[i] == Info(o[k - i].hash, Offered(o[k - i].peers, from));
    }
  }

  lemma {:induction false} SmallFits(infos: seq<Info>)
    requires forall info | info in infos :: |info.peers| <= PEERS_PER_PREDICTION
    ensures InfosLength(infos) <= 40 * |infos|
  {
    if infos != [] {
      SmallFits(infos[..|infos| - 1]);
    }
  }

  // Writes the reply to a lookup into the server's buffer.
  method PutReply(buf: array<Byte>, seqno: nat, infos: seq<Info>) returns (len: nat)
    requires buf.Length == BUFFER && seqno < 0x1_0000_0000 && Small(infos)
    modifies buf
    ensures len <= BUFFER && IsReply(buf[..len], seqno, infos)
  {
    Ranges();
    SmallFits(infos);
    len := PutRecords(buf, infos);
    ghost var before := buf[..];
    PutHeader(buf, seqno, |infos|, len);
    RecordsMoved(before, buf[..len], HEADER, infos);
    hide Field, RecordsAt;
    assert buf[..][..len] == buf[..len];
    HeaderOf(buf[..], len);
  }

  // A packet has its header at the start.
  lemma HeaderOf(buf: seq<Byte>, len: nat)
    requires HEADER <= len <= |buf|
    ensures Field(buf[..len], 0, 2) == Field(buf, 0, 2) && Field(buf[..len], 2, 2) == Field(buf, 2, 2)
    ensures Field(buf[..len], 4, 4) == Field(buf, 4, 4) && Field(buf[..len], 8, 4) == Field(buf, 8, 4)
  {
    hide Field;
    FieldShifted(buf, buf[..len], 0, 0, 2);
    FieldShifted(buf, buf[..len], 0, 2, 2);
    FieldShifted(buf, buf[..len], 0, 4, 4);
    FieldShifted(buf, buf[..len], 0, 8, 4);
  }

  method PutHeader(buf: array<Byte>, seqno: nat, count: nat, len: nat)
    requires buf.Length >= HEADER && seqno < 0x1_0000_0000 && count < 0x1_0000_0000 && len < 0x1_0000
    modifies buf
    ensures Kept(old(buf[..]), buf[..], 0, HEADER)
    ensures Field(buf[..], 0, 2) == LOOKUP && Field(buf[..], 2, 2) == len
    ensures Field(buf[..], 4, 4) == seqno && Field(buf[..], 8, 4) == count
  {
    Ranges();
    Put(buf, 0, LOOKUP, 2);
    ghost var b1 := buf[..];
    Put(buf, 4, seqno, 4);
    ghost var b2 := buf[..];
    Put(buf, 8, count, 4);
    ghost var b3 := buf[..];
    Put(buf, 2, len, 2);
    FieldKept(b1, b2, 4, 8, 0, 2);
    FieldKept(b2, b3, 8, 12, 0, 2);
    FieldKept(b2, b3, 8, 12, 4, 4);
    FieldKept(b3, buf[..], 2, 4, 0, 2);
    FieldKept(b3, buf[..], 2, 4, 4, 4);
    FieldKept(b3, buf[..], 2, 4, 8, 4);
  }

  method PutRecords(buf: array<Byte>, infos: seq<Info>) returns (len: nat)
    requires buf.Length == BUFFER && Small(infos)
    modifies buf
    ensures len == HEADER + InfosLength(infos) <= BUFFER && RecordsAt(buf[..], HEADER, infos)
  {
    hide RecordAt, Kept;
    len := HEADER;
    var i := 0;
    while i < |infos|
      invariant 0 <= i <= |infos| && len == HEADER + InfosLength(infos[..i])
      invariant RecordsAt(buf[..], HEADER, infos[..i])
    {
      SmallFits(infos[..i]);
      ghost var before := buf[..];
      PutRecord(buf, len, infos[i]);
      RecordsGrow(before, buf[..], HEADER, infos[..i], infos[i]);
      assert infos[..i + 1] == infos[..i] + [infos[i]];
      LengthGrows(infos[..i], infos[i]);
      len := len + InfoLength(infos[i]);
      i := i + 1;
    }
    assert infos[..i] == infos;
    SmallFits(infos);
  }

  // The records are still there in a buffer that agrees with the old one where they lie.
  lemma {:induction false} RecordsMoved(buf: seq<Byte>, buf': seq<Byte>, at: nat, infos: seq<Info>)
    requires RecordsAt(buf, at, infos) && at + InfosLength(infos) <= |buf'|
    requires forall i | at <= i < at + InfosLength(infos) :: i < |buf| && buf'[i] == buf[i]
    ensures RecordsAt(buf', at, infos)
    decreases infos
  {
    if infos != [] {
      FirstLength(infos);
      RecordShifted(buf, buf', 0, at, infos[0]);
      RecordsMoved(buf, buf', at + InfoLength(infos[0]), infos[1..]);
    }
  }

  lemma FieldShifted(buf: seq<Byte>, buf': seq<Byte>, off: nat, at: nat, n: nat)
    requires off + at + n <= |buf| && at + n <= |buf'| && forall i | at <= i < at + n :: buf'[i] == buf[off + i]
    ensures Field(buf', at, n) == Field(buf, off + at, n)
  {
    assert buf'[at..at + n] == buf[off + at..off + at + n];
  }

  lemma RecordShifted(buf: seq<Byte>, buf': seq<Byte>, off: nat, at: nat, info: Info)
    requires RecordAt(buf, off + at, info) && at + InfoLength(info) <= |buf'|
    requires forall i | at <= i < at + InfoLength(info) :: buf'[i] == buf[off + i]
    ensures RecordAt(buf', at, info)
  {
    FieldShifted(buf, buf', off, at, 8);
    FieldShifted(buf, buf', off, at + 8, 2);
    forall j | 0 <= j < |info.peers|
      ensures PeerAt(buf', at + 16 + 8 * j, info.peers[j])
    {
      assert PeerAt(buf, off + at + 16 + 8 * j, info.peers[j]);
      FieldShifted(buf, buf', off, at + 16 + 8 * j, 4);
    }
  }

  // A copy of the bytes from some place on holds the records that lie there.
  lemma {:induction false} RecordsCopied(buf: seq<Byte>, copy: seq<Byte>, off: nat, at: nat, infos: seq<Info>)
    requires RecordsAt(buf, off + at, infos) && at + InfosLength(infos) <= |copy|
    requires off + |copy| <= |buf| && forall i | 0 <= i < |copy| :: copy[i] == buf[off + i]
    ensures RecordsAt(copy, at, infos)
    decreases infos
  {
    if infos != [] {
      FirstLength(infos);
      RecordShifted(buf, copy, off, at, infos[0]);
      RecordsCopied(buf, copy, off, at + InfoLength(infos[0]), infos[1..]);
    }
  }
}
