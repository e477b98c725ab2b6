/**
 The client's side of a lookup: it takes the records out of the reply, saves all but
 the first as predictions, and finds files in them later.
 */
module TrackerClient {
  import opened Arithmetic
  import opened TrackerTypes
  import opened RequestOrder
  import opened TrackerRun
  import opened Tracker
  import opened WireRecords

  // ----- taking the reply

  // The client gives up on a packet that is no lookup message, and on a reply that
  // announces too many records or is shorter than its header.
  datatype Received = Records(info: seq<Byte>, count: nat) | Abort | Nothing

  // The client's buffer after it has received a packet; behind the packet it is as before.
  type Packet = buf: seq<Byte> | |buf| == BUFFER witness seq(BUFFER, i => 0)

  // A reply to another lookup, to be passed over.
  predicate IsOther(buf: Packet, seqno: nat) {
    Field(buf, 0, 2) == LOOKUP && Field(buf, 4, 4) != seqno
  }

  // The first packet that is not passed over.
  predicate IsFirstOwn(bufs: seq<Packet>, seqno: nat, i: nat)
    requires i < |bufs|
  {
    !IsOther(bufs[i], seqno) && forall j | 0 <= j < i :: IsOther(bufs[j], seqno)
  }

  predicate IsSound(buf: Packet) {
    Field(buf, 0, 2) == LOOKUP && Field(buf, 8, 4) <= 64 && Field(buf, 2, 2) >= HEADER
  }

  lemma FieldFits(buf: seq<Byte>, at: nat)
    requires at + 2 <= |buf|
    ensures Field(buf, at, 2) < 0x1_0000
  {
    var bs := buf[at..at + 2];
    assert Value(bs[1..]) == bs[1] + 256 * Value(bs[1..][1..]);
  }

  // Receives packets until one is for this lookup, or none comes in time.
  method Receive(bufs: seq<Packet>, seqno: nat) returns (r: Received)
    ensures r == Nothing <==> forall i | 0 <= i < |bufs| :: IsOther(bufs[i], seqno)
    ensures forall i | 0 <= i < |bufs| && IsFirstOwn(bufs, seqno, i) ::
              var length := Field(bufs[i], 2, 2);
              if IsSound(bufs[i]) then length <= BUFFER && r == Records(bufs[i][HEADER..length], Field(bufs[i], 8, 4))
              else r == Abort
  {
    var i := 0;
    while i < |bufs|
      invariant 0 <= i <= |bufs| && forall j | 0 <= j < i :: IsOther(bufs[j], seqno)
    {
      var buf := bufs[i];
      FieldFits(buf, 2);
      if Field(buf, 0, 2) != LOOKUP {
        return Abort;
      }
      if Field(buf, 4, 4) == seqno {
        var count := Field(buf, 8, 4);
        if count > 64 {
          return Abort;
        }
        var infosize := Field(buf, 2, 2) - HEADER;
        if infosize < 0 {
          return Abort;
        }
        return Records(buf[HEADER..HEADER + infosize], count);
      }
      i := i + 1;
    }
    return Nothing;
  }

  // A reply as the server writes it is sound, and what is taken out of it are its records.
  lemma ReplyIsSound(buf: Packet, len: nat, seqno: nat, infos: seq<Info>)
    requires len <= BUFFER && IsReply(buf[..len], seqno, infos) && |infos| <= 64
    ensures !IsOther(buf, seqno) && IsSound(buf)
    ensures Field(buf, 2, 2) == len == HEADER + InfosLength(infos) && Field(buf, 8, 4) == |infos|
    ensures RecordsAt(buf[HEADER..len], 0, infos)
  {
    hide Field, RecordsAt;
    HeaderOf(buf, len);
    RecordsCopied(buf[..len], buf[HEADER..len], HEADER, 0, infos);
  }

  // ----- saving and finding predictions

  // The length of the record at some place, read off its number of peers.
  function LengthAt(buf: seq<Byte>, at: nat): nat
    requires at + 10 <= |buf|
  {
    16 + 8 * Field(buf, at + 8, 2)
  }

  predicate IsFirst(infos: seq<Info>, hash: Hash, k: nat) {
    k < |infos| && infos[k].hash == hash && forall i | 0 <= i < k :: infos[i].hash != hash
  }

  class Client {
    var predictions: Option<seq<Byte>>
    var predictionsSize: int

    constructor ()
      ensures predictions == None
    {
      predictions, predictionsSize := None, 0;
    }

    // The saved bytes are those of the given records, and no more.
    ghost predicate Saved(infos: seq<Info>)
      reads this
    {
      && predictions.Some? && |predictions.value| == predictionsSize == InfosLength(infos)
      && RecordsAt(predictions.value, 0, infos)
    }

    // It has saved these records, or none.
    ghost predicate Knows(infos: seq<Info>)
      reads this
    {
      if predictions == None then infos == [] else Saved(infos)
    }

    // Saves all records but the first, unless there is only one.
    method SavePredictionInfo(info: seq<Byte>, count: int, ghost infos: seq<Info>)
      requires count == |infos| && |info| == InfosLength(infos) && RecordsAt(info, 0, infos)
      modifies this
      ensures count > 1 ==> Saved(infos[1..])
      ensures count <= 1 ==> predictions == old(predictions) && predictionsSize == old(predictionsSize)
    {
      if count <= 1 {
        return;
      }
      var first, totalsize := Sizes(info, count, infos);
      RecordBehind(info, 0, infos, 1);
      FirstLength(infos);
      assert infos[..1] == [infos[0]] && InfosLength([infos[0]]) == InfoLength(infos[0]);
      predictions := Some(info[first..first + totalsize]);
      predictionsSize := totalsize;
      RecordsCopied(info, predictions.value, first, 0, infos[1..]);
    }

    // The length of the first record, and of all others together.
    static method Sizes(info: seq<Byte>, count: int, ghost infos: seq<Info>) returns (first: nat, totalsize: nat)
      requires count == |infos| >= 1 && RecordsAt(info, 0, infos)
      ensures first == InfoLength(infos[0]) && first + totalsize == InfosLength(infos)
    {
      hide RecordsAt;
      RecordBehind(info, 0, infos, 0);
      LengthNext(infos, 0);
      first := LengthAt(info, 0);
      totalsize := 0;
      var i := 1;
      while i < count
        invariant 1 <= i <= count && first + totalsize == InfosLength(infos[..i])
      {
        RecordBehind(info, 0, infos, i);
        LengthNext(infos, i);
        totalsize := totalsize + LengthAt(info, first + totalsize);
        i := i + 1;
      }
      LengthNext(infos, i);
    }

    // Finds the first saved record of a hash.  All reading stays inside what was saved.
    method GetPrediction(hash: Hash, ghost infos: seq<Info>) returns (info: Option<seq<Byte>>)
      requires Knows(infos)
      ensures info == None <==> forall i | 0 <= i < |infos| :: infos[i].hash != hash
      ensures info.Some? ==>
                exists k: nat :: IsFirst(infos, hash, k) && |info.value| == InfoLength(infos[k]) &&
                    RecordAt(info.value, 0, infos[k])
    {
      hide RecordsAt;
      if predictions == None {
        return None;
      }
      ghost var k := 0;
      var at := 0;
      while at < predictionsSize
        invariant k <= |infos| && at == InfosLength(infos[..k])
        invariant forall i | 0 <= i < k :: infos[i].hash != hash
        decreases predictionsSize - at
      {
        LengthBehind(infos, k);
        RecordBehind(predictions.value, 0, infos, k);
        var size := LengthAt(predictions.value, at);
        if Field(predictions.value, at, 8) == hash {
          var found := predictions.value[at..at + size];
          RecordShifted(predictions.value, found, at, 0, infos[k]);
          assert IsFirst(infos, hash, k);
          return Some(found);
        }
        LengthNext(infos, k);
        at := at + size;
        k := k + 1;
      }
      LengthBehind(infos, k);
      return None;
    }
  }

  // ----- from the server's table to the client's answer

  // What the client has saved after a reply, with what it had saved before.
  function Known(infos: seq<Info>, saved: seq<Info>): seq<Info> {
    if |infos| > 1 then infos[1..] else saved
  }

  // After the reply has come, behind replies to other lookups, the client finds a file
  // exactly when a record after the first is for it, or when there was only one record
  // and the file is among what it had saved before.
  method Remember(client: Client, buf: array<Byte>, seqno: nat, infos: seq<Info>, late: seq<Packet>, stale: Packet,
                  hash: Hash, ghost saved: seq<Info>)
      returns (info: Option<seq<Byte>>)
    requires buf.Length == BUFFER && seqno < 0x1_0000_0000 && Small(infos) && infos != []
    requires client.Knows(saved)
    requires forall i | 0 <= i < |late| :: IsOther(late[i], seqno)
    modifies buf, client
    ensures client.Knows(Known(infos, saved))
    ensures info == None <==> forall i | 0 <= i < |Known(infos, saved)| :: Known(infos, saved)[i].hash != hash
    ensures info.Some? ==>
              exists k: nat :: IsFirst(Known(infos, saved), hash, k) && RecordAt(info.value, 0, Known(infos, saved)[k])
  {
    var len := PutReply(buf, seqno, infos);
    var packet: Packet := buf[..len] + stale[len..];
    assert packet[..len] == buf[..len];
    ReplyIsSound(packet, len, seqno, infos);
    var received := Receive(late + [packet], seqno);
    assert (late + [packet])[|late|] == packet && IsFirstOwn(late + [packet], seqno, |late|);
    client.SavePredictionInfo(received.info, received.count, infos);
    info := client.GetPrediction(hash, Known(infos, saved));
  }

  // The request at place i of the list is among the PREDICTIONS right after the one at place k.
  predicate IsNext(o: Order, k: int, i: int, hash: Hash) {
    0 <= i < |o| && k - PREDICTIONS <= i < k && o[i].hash == hash
  }

  // The records after the first are those of the requests right after the one asked for.
  lemma ReplyNames(o: Order, k: nat, w: Order, from: Ip, hash: Hash)
    requires k < |o| == |w| && forall i | 0 <= i < |o| :: w[i].hash == o[i].hash
    ensures var reply := ReplyTo(w, k, from);
            && |reply| == 1 + Min(k, PREDICTIONS)
            && ((exists i :: 1 <= i < |reply| && reply[i].hash == hash) <==> exists i :: IsNext(o, k, i, hash))
  {
    var reply := ReplyTo(w, k, from);
    if i :| 1 <= i < |reply| && reply[i].hash == hash {
      assert IsNext(o, k, k - i, hash);
    }
    if i :| IsNext(o, k, i, hash) {
      assert reply[k - i].hash == hash;
    }
  }

  // So they are in the reply of the server, which has nothing to predict for a file
  // that nobody has asked for.
  lemma LookupNames(r: Ring, hash: Hash, from: Ip, out: Option<Ring>, reply: seq<Info>, next: Hash)
    requires Step(r, Lookup(hash, from), out)
    requires out == None ==> reply == [Info(hash, [])]
    requires out.Some? ==>
               FindHash(out.value.order, hash) >= 0 &&
               reply == ReplyTo(out.value.order, FindHash(out.value.order, hash), from)
    ensures Small(reply) && reply != [] && (|reply| > 1 <==> FindHash(r.order, hash) > 0)
    ensures (exists i :: 1 <= i < |reply| && reply[i].hash == next) <==>
            exists i :: IsNext(r.order, FindHash(r.order, hash), i, next)
  {
    hide Offered;
    var k := FindHash(r.order, hash);
    if k >= 0 {
      SamePlace(r.order, k, from, out.value.order, hash);
      ReplyNames(r.order, k, out.value.order, from, next);
      ReplyIsSmall(out.value.order, k, from);
    } else {
      assert !exists i :: IsNext(r.order, k, i, next);
      if out.Some? {
        FirstReply(r.order, hash, from);
      }
      assert Small([Info(hash, [])]);
    }
  }

  // The whole way: a lookup on the server, its reply in bytes, and the client that has
  // saved it.  The client predicts next exactly when it is one of the up to PREDICTIONS
  // files that were requested right after the one it asked for; where that one is the
  // newest, or new, the client goes by what it had saved before.
  method Predict(server: Server, client: Client, buf: array<Byte>, seqno: nat, late: seq<Packet>, stale: Packet,
                 hash: Hash, from: Ip, world: World, next: Hash, ghost saved: seq<Info>)
      returns (info: Option<seq<Byte>>)
    requires server.table.Valid() && hash != 0 && client.Knows(saved)
    requires buf.Length == BUFFER && seqno < 0x1_0000_0000
    requires forall i | 0 <= i < |late| :: IsOther(late[i], seqno)
    modifies server.table, server.table.entry, server.dt, buf, client
    ensures var o := old(server.table.Window());
            var k := FindHash(o, hash);
            info.Some? <==> if k > 0 then exists i :: IsNext(o, k, i, next) else exists i :: IsAt(saved, i, next)
  {
    ghost var r := server.table.AsRing();
    ghost var t;
    var reply, len;
    reply, len, t := server.DoLookup(hash, from, world);
    LookupNames(r, hash, from, server.table.Outcome(), reply, next);
    info := Remember(client, buf, seqno, reply, late, stale, next, saved);
    KnownNames(reply, saved, next);
  }

  predicate IsAt(infos: seq<Info>, i: int, hash: Hash) {
    0 <= i < |infos| && infos[i].hash == hash
  }

  lemma KnownNames(infos: seq<Info>, saved: seq<Info>, hash: Hash)
    ensures var known := Known(infos, saved);
            (forall i | 0 <= i < |known| :: known[i].hash != hash) <==>
            if |infos| > 1 then !exists i :: 1 <= i < |infos| && infos[i].hash == hash
            else !exists i :: IsAt(saved, i, hash)
  {
    var known := Known(infos, saved);
    if |infos| > 1 {
      assert forall i | 1 <= i < |infos| :: infos[i] == known[i - 1];
      assert forall i | 0 <= i < |known| :: known[i] == infos[i + 1];
    } else {
      assert forall i | 0 <= i < |known| && known[i].hash == hash :: IsAt(saved, i, hash);
    }
  }
}
