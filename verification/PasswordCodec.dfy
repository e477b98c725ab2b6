/**
 Writing bytes as characters that stand for six bits each.  The characters of the
 alphabet differ, so the places in it are all that is looked at here.
 */
module PasswordCodec {
  import opened Arithmetic
  import opened Sequences
  import opened TrackerTypes

  type Byte = b: int | 0 <= b < 256
  type Digit = d: int | 0 <= d < 64

  function OfBytes(a: int, b: int, c: int): int {
    a + 256 * b + 65536 * c
  }

  function OfDigits(a: int, b: int, c: int, d: int): int {
    a + 64 * b + 4096 * c + 262144 * d
  }

  // Groups of three bytes give four digits; one byte that is left over gives two, and
  // so do two.
  function Encoded(bs: seq<Byte>): seq<Digit> {
    if |bs| == 0 then []
    else if |bs| == 1 then LowDigits(OfBytes(bs[0], 0, 0))
    else if |bs| == 2 then LowDigits(OfBytes(bs[0], bs[1], 0))
    else
      var value := OfBytes(bs[0], bs[1], bs[2]);
      FourDigits(value) + Encoded(bs[3..])
  }

  function First(value: int): Digit {
    value % 64
  }

  function Second(value: int): Digit {
    value / 64 % 64
  }

  function Third(value: int): Digit {
    value / 4096 % 64
  }

  function Fourth(value: int): Digit {
    value / 262144 % 64
  }

  function LowDigits(value: int): seq<Digit> {
    [First(value), Second(value)]
  }

  function HighDigits(value: int): seq<Digit> {
    [Third(value), Fourth(value)]
  }

  // ----- what is written, said without the way it is computed

  // The digits of group q, lowest first, are the bits of its three bytes, lowest first.
  predicate SpellsGroup(bs: seq<Byte>, ds: seq<Digit>, q: nat) {
    && 3 * q + 3 <= |bs| && 4 * q + 4 <= |ds|
    && var x: int, y: int, z: int := bs[3 * q], bs[3 * q + 1], bs[3 * q + 2];
       var a: int, b: int, c: int, d: int := ds[4 * q], ds[4 * q + 1], ds[4 * q + 2], ds[4 * q + 3];
       a + 64 * b + 4096 * c + 262144 * d == x + 256 * y + 65536 * z
  }

  // The last two digits are the twelve lowest bits of what is left over.
  predicate SpellsRest(bs: seq<Byte>, ds: seq<Digit>) {
    |bs| % 3 == 0 ||
    (|ds| >= 2 &&
     var a: int, b: int, last: int := ds[|ds| - 2], ds[|ds| - 1], bs[|bs| - 1];
     a + 64 * b == if |bs| % 3 == 1 then last else (bs[|bs| - 2] as int + 256 * last) % 4096)
  }

  predicate Spells(bs: seq<Byte>, ds: seq<Digit>) {
    && |ds| == 4 * (|bs| / 3) + (if |bs| % 3 == 0 then 0 else 2)
    && (forall q | 0 <= q < |bs| / 3 :: SpellsGroup(bs, ds, q))
    && SpellsRest(bs, ds)
  }

  // That leaves no choice.
  lemma SpellingIsUnique(bs: seq<Byte>, ds: seq<Digit>, es: seq<Digit>)
    requires Spells(bs, ds) && Spells(bs, es)
    ensures ds == es
  {
    forall i | 0 <= i < |ds|
      ensures ds[i] == es[i]
    {
      var q := i / 4;
      if q < |bs| / 3 {
        assert SpellsGroup(bs, ds, q) && SpellsGroup(bs, es, q);
        SameDigits(ds[4 * q], ds[4 * q + 1], ds[4 * q + 2], ds[4 * q + 3],
                   es[4 * q], es[4 * q + 1], es[4 * q + 2], es[4 * q + 3]);
      }
    }
  }

  lemma SameDigits(a: Digit, b: Digit, c: Digit, d: Digit, a': Digit, b': Digit, c': Digit, d': Digit)
    requires a + 64 * b + 4096 * c + 262144 * d == a' + 64 * b' + 4096 * c' + 262144 * d'
    ensures a == a' && b == b' && c == c' && d == d'
  {
    SameLowest(a, b + 64 * c + 4096 * d, a', b' + 64 * c' + 4096 * d');
    SameLowest(b, c + 64 * d, b', c' + 64 * d');
    SameLowest(c, d, c', d');
  }

  lemma SameLowest(a: Digit, x: int, a': Digit, x': int)
    requires a + 64 * x == a' + 64 * x'
    ensures a == a' && x == x'
  {
  }

  lemma {:induction false} EncodedSpells(bs: seq<Byte>)
    ensures Spells(bs, Encoded(bs))
  {
    if |bs| < 3 {
      FewSpell(bs);
    } else {
      hide Encoded, Spells, SpellsGroup, OfBytes;
      EncodedSpells(bs[3..]);
      EncodedGroup(bs[..3], bs[3..]);
      assert bs[..3] + bs[3..] == bs && bs[..3][3..] + bs[3..] == bs[3..];
      var ds := FourDigits(OfBytes(bs[0], bs[1], bs[2])) + Encoded(bs[3..]);
      FirstSpells(bs, ds);
      assert ds[4..] == Encoded(bs[3..]);
      SpellsOn(bs, ds);
    }
  }

  lemma FewSpell(bs: seq<Byte>)
    requires |bs| < 3
    ensures Spells(bs, Encoded(bs))
  {
    hide Encoded, First, Second, OfBytes, SpellsRest;
    EncodedFew(bs);
    if |bs| == 1 {
      OneDigits(bs[0]);
      OneSpells(bs, Encoded(bs));
    } else if |bs| == 2 {
      TwoDigits(bs[0], bs[1]);
      TwoSpell(bs, Encoded(bs));
    } else {
      NoneSpells();
    }
  }

  lemma NoneSpells()
    ensures SpellsRest([], [])
  {
  }

  lemma OneSpells(bs: seq<Byte>, ds: seq<Digit>)
    requires |bs| == 1 && |ds| == 2 && ds[0] as int + 64 * ds[1] as int == bs[0]
    ensures SpellsRest(bs, ds)
  {
  }

  lemma TwoSpell(bs: seq<Byte>, ds: seq<Digit>)
    requires |bs| == 2 && |ds| == 2 && ds[0] as int + 64 * ds[1] as int == (bs[0] as int + 256 * bs[1] as int) % 4096
    ensures SpellsRest(bs, ds)
  {
  }

  lemma EncodedFew(bs: seq<Byte>)
    requires |bs| < 3
    ensures Encoded(bs) == if bs == [] then [] else
                             var v := OfBytes(bs[0], if |bs| == 1 then 0 else bs[1], 0); [First(v), Second(v)]
  {
    hide First, Second, OfBytes;
  }

  lemma OneDigits(b: Byte)
    ensures var v := OfBytes(b, 0, 0); First(v) as int + 64 * Second(v) as int == b
  {
    DigitsGiveBack(b);
    hide First, Second;
  }

  lemma TwoDigits(b: Byte, c: Byte)
    ensures var v := OfBytes(b, c, 0); First(v) as int + 64 * Second(v) as int == (b as int + 256 * c as int) % 4096
  {
    LowDigitsAre(OfBytes(b, c, 0));
    hide First, Second;
  }

  lemma FirstSpells(bs: seq<Byte>, ds: seq<Digit>)
    requires |bs| >= 3 && FourDigits(OfBytes(bs[0], bs[1], bs[2])) <= ds
    ensures SpellsGroup(bs, ds, 0)
  {
    var value := OfBytes(bs[0], bs[1], bs[2]);
    DigitsGiveBack(value);
    assert ds[..4] == FourDigits(value);
    assert ds[0] == First(value) && ds[1] == Second(value) && ds[2] == Third(value) && ds[3] == Fourth(value);
    hide First, Second, Third, Fourth;
  }

  lemma SpellsOn(bs: seq<Byte>, ds: seq<Digit>)
    requires |bs| >= 3 && |ds| >= 4 && SpellsGroup(bs, ds, 0) && Spells(bs[3..], ds[4..])
    ensures Spells(bs, ds)
  {
    hide SpellsGroup, SpellsRest;
    forall q | 0 <= q < |bs| / 3
      ensures SpellsGroup(bs, ds, q)
    {
      if q > 0 {
        GroupOn(bs, ds, q);
      }
    }
    RestOn(bs, ds);
  }

  lemma GroupOn(bs: seq<Byte>, ds: seq<Digit>, q: nat)
    requires |bs| >= 3 && |ds| >= 4 && q > 0 && SpellsGroup(bs[3..], ds[4..], q - 1)
    ensures SpellsGroup(bs, ds, q)
  {
    assert bs[3..][3 * (q - 1)] == bs[3 * q] && ds[4..][4 * (q - 1)] == ds[4 * q];
  }

  lemma RestOn(bs: seq<Byte>, ds: seq<Digit>)
    requires |bs| >= 3 && |ds| >= 4 && SpellsRest(bs[3..], ds[4..])
    ensures SpellsRest(bs, ds)
  {
  }

  lemma LowDigitsAre(value: nat)
    ensures First(value) + 64 * Second(value) == value % 4096
  {
    var q1, r0 := LastDigit(value);
    var q2, r1 := LastDigit(q1);
    QuotientIs(value, 64, q1);
    QuotientIs(q1, 64, q2);
    QuotientIs(value, 4096, q2);
  }

  function FourDigits(value: int): (ds: seq<Digit>)
    ensures |ds| == 4
  {
    LowDigits(value) + HighDigits(value)
  }

  lemma Above(v: int, x: int)
    ensures (v + 64 * x) % 64 == v % 64 && (v + 64 * x) / 64 == v / 64 + x
  {
    QuotientBounds(v, 64);
    QuotientIs(v + 64 * x, 64, v / 64 + x);
  }

  // A byte that is added above does not change the digits that have been taken.
  lemma FirstStays(v: int, b: int)
    ensures First(v + 256 * b) == First(v)
  {
    Above(v, 4 * b);
  }

  lemma SecondStays(v: int, c: int)
    ensures Second(v + 65536 * c) == Second(v)
  {
    Above(v, 1024 * c);
    Above(v / 64, 16 * c);
  }

  method Encode64(input: seq<Byte>, count: nat) returns (output: seq<Digit>)
    requires count <= |input|
    ensures Spells(input[..count], output) && output == Encoded(input[..count])
  {
    hide Spells, Encoded;
    assert Rest(input, 0, count) == input[..count];
    output := [];
    var i := 0;
    while i < count
      invariant Encoded(input[..count]) == output + Encoded(Rest(input, i, count))
      decreases count - i
    {
      var digits, next := Group(input, i, count);
      Regroup(output, digits, Encoded(Rest(input, next, count)));
      output := output + digits;
      i := next;
    }
    EncodedNone();
    assert output + [] == output;
    EncodedSpells(input[..count]);
  }

  lemma EncodedNone()
    ensures Encoded([]) == []
  {
  }

  function Rest(input: seq<Byte>, i: nat, count: nat): seq<Byte>
    requires count <= |input|
  {
    if i < count then input[i..count] else []
  }

  // The digits of the next group, and the place behind it.  A shift of a byte above
  // all bits of a number adds it.
  method Group(input: seq<Byte>, start: nat, count: nat) returns (digits: seq<Digit>, i: nat)
    requires start < count <= |input|
    ensures i > start && Encoded(Rest(input, start, count)) == digits + Encoded(Rest(input, i, count))
  {
    hide First, Second, Third, Fourth;
    ghost var rest := Rest(input, start, count);
    i := start;
    var value := OfBytes(input[i], 0, 0);
    digits := [First(value)];
    i := i + 1;
    if i < count {
      FirstStays(value, input[i]);
      value := OfBytes(value, input[i], 0);
    }
    digits := digits + [Second(value)];
    i := i + 1;
    if i >= count {
      assert digits == Encoded(rest);
      return;
    }
    ghost var c: int := input[i];
    FirstStays(value, 256 * c);
    SecondStays(value, c);
    value := OfBytes(value, 0, input[i]);
    digits := digits + [Third(value)];
    digits := digits + [Fourth(value)];
    i := i + 1;
    assert value == OfBytes(rest[0], rest[1], rest[2]);
    assert rest[3..] == Rest(input, i, count);
    assert digits == LowDigits(value) + HighDigits(value);
  }

  function Triple(value: int): (bs: seq<Byte>)
    ensures |bs| == 3
  {
    [value % 256, value / 256 % 256, value / 65536 % 256]
  }

  // Reads the bytes back; as many digits as no bytes give are refused, and so are two
  // that are more than a byte.
  function Decoded(ds: seq<Digit>): Option<seq<Byte>> {
    if ds == [] then Some([])
    else if |ds| == 2 then
      var value := OfDigits(ds[0], ds[1], 0, 0);
      if value < 256 then Some([value]) else None
    else if |ds| < 4 then None
    else
      var rest := Decoded(ds[4..]);
      if rest == None then None
      else Some(Triple(OfDigits(ds[0], ds[1], ds[2], ds[3])) + rest.value)
  }

  lemma {:induction false} RoundTrip(bs: seq<Byte>)
    requires |bs| % 3 != 2
    ensures Decoded(Encoded(bs)) == Some(bs)
  {
    hide Encoded, Decoded;
    if |bs| < 3 {
      FewRoundTrip(bs);
    } else {
      RoundTrip(bs[3..]);
      GroupRoundTrip(bs[..3], bs[3..]);
      assert bs[..3] + bs[3..] == bs;
    }
  }

  lemma GroupRoundTrip(front: seq<Byte>, bs: seq<Byte>)
    requires |front| == 3 && Decoded(Encoded(bs)) == Some(bs)
    ensures Decoded(Encoded(front + bs)) == Some(front + bs)
  {
    hide Encoded, Decoded, FourDigits, Triple, OfBytes, OfDigits;
    EncodedGroup(front, bs);
    assert front[3..] + bs == bs;
    DecodedGroup(FourDigits(OfBytes(front[0], front[1], front[2])), Encoded(bs));
    ThreeRoundTrip(front[0], front[1], front[2]);
    assert front == [front[0], front[1], front[2]];
  }

  lemma FewRoundTrip(bs: seq<Byte>)
    requires |bs| < 2
    ensures Decoded(Encoded(bs)) == Some(bs)
  {
    hide Encoded, Decoded, First, Second, OfBytes;
    EncodedFew(bs);
    if |bs| == 1 {
      OneDigits(bs[0]);
      DecodedTwo(Encoded(bs), bs[0]);
      assert bs == [bs[0]];
    } else {
      DecodedNone();
    }
  }

  lemma DecodedTwo(ds: seq<Digit>, b: Byte)
    requires |ds| == 2 && OfDigits(ds[0], ds[1], 0, 0) == b
    ensures Decoded(ds) == Some([b])
  {
    hide OfDigits, Triple;
  }

  lemma DecodedNone()
    ensures Decoded([]) == Some([])
  {
  }

  lemma ThreeRoundTrip(a: Byte, b: Byte, c: Byte)
    ensures var ds := FourDigits(OfBytes(a, b, c)); Triple(OfDigits(ds[0], ds[1], ds[2], ds[3])) == [a, b, c]
  {
    BytesGiveBack(a, b, c);
    DigitsGiveBack(OfBytes(a, b, c));
    hide First, Second, Third, Fourth, OfBytes, OfDigits;
  }

  lemma DecodedGroup(group: seq<Digit>, ds: seq<Digit>)
    requires |group| == 4
    ensures Decoded(group + ds) ==
            if Decoded(ds) == None then None
            else Some(Triple(OfDigits(group[0], group[1], group[2], group[3])) + Decoded(ds).value)
  {
    hide Triple, OfDigits;
    assert (group + ds)[4..] == ds;
  }

  // What can be read back is what was written.
  lemma {:induction false} ReadIsWritten(ds: seq<Digit>)
    ensures Decoded(ds).Some? ==> |Decoded(ds).value| % 3 != 2 && Encoded(Decoded(ds).value) == ds
  {
    hide Encoded, Decoded;
    FewRead(ds);
    if |ds| == 2 {
      TwoIsWritten(ds);
    } else if |ds| >= 4 && Decoded(ds[4..]).Some? {
      ReadIsWritten(ds[4..]);
      GroupIsWritten(ds[..4], ds[4..], Decoded(ds[4..]).value);
      assert ds[..4] + ds[4..] == ds;
    }
  }

  lemma FewRead(ds: seq<Digit>)
    ensures ds == [] ==> Decoded(ds) == Some([]) && Encoded([]) == ds
    ensures |ds| == 1 || |ds| == 3 ==> Decoded(ds) == None
    ensures |ds| >= 4 && Decoded(ds[4..]) == None ==> Decoded(ds) == None
  {
    hide Triple, OfDigits;
  }

  lemma TwoIsWritten(ds: seq<Digit>)
    requires |ds| == 2
    ensures Decoded(ds).Some? ==> |Decoded(ds).value| == 1 && Encoded(Decoded(ds).value) == ds
  {
    hide Encoded, First, Second, Third, Fourth, OfBytes;
    DigitsAreTaken(ds[0], ds[1], 0, 0);
    var value := OfDigits(ds[0], ds[1], 0, 0);
    if value < 256 {
      EncodedFew([value]);
      JustOne(value);
    }
  }

  lemma JustOne(b: Byte)
    ensures OfBytes(b, 0, 0) == b
  {
  }

  lemma GroupIsWritten(group: seq<Digit>, ds: seq<Digit>, rest: seq<Byte>)
    requires |group| == 4 && Decoded(ds) == Some(rest) && Encoded(rest) == ds && |rest| % 3 != 2
    ensures var bs := Decoded(group + ds); bs.Some? && |bs.value| % 3 != 2 && Encoded(bs.value) == group + ds
  {
    hide Encoded, Decoded, FourDigits, Triple, OfBytes, OfDigits;
    var front := Triple(OfDigits(group[0], group[1], group[2], group[3]));
    DecodedGroup(group, ds);
    EncodedGroup(front, rest);
    assert front[3..] + rest == rest;
    FourRoundTrip(group);
  }

  lemma FourRoundTrip(group: seq<Digit>)
    requires |group| == 4
    ensures var bs := Triple(OfDigits(group[0], group[1], group[2], group[3]));
            FourDigits(OfBytes(bs[0], bs[1], bs[2])) == group
  {
    var value := OfDigits(group[0], group[1], group[2], group[3]);
    ThreeBytes(value);
    DigitsAreTaken(group[0], group[1], group[2], group[3]);
    hide First, Second, Third, Fourth, OfBytes, OfDigits;
  }

  lemma DigitsAreTaken(a: Digit, b: Digit, c: Digit, d: Digit)
    ensures var v := OfDigits(a, b, c, d); First(v) == a && Second(v) == b && Third(v) == c && Fourth(v) == d
  {
    Nested(OfDigits(a, b, c, d), b + 64 * c + 4096 * d, c + 64 * d, d, a, b, c);
  }

  lemma ThreeBytes(value: nat)
    requires value < 16777216
    ensures value == OfBytes(value % 256, value / 256 % 256, value / 65536 % 256)
  {
    var q1, r0 := LastByte(value);
    var q2, r1 := LastByte(q1);
    assert value == (r0 + 256 * r1) + 65536 * q2 && q2 < 256;
    QuotientIs(value, 256, q1);
    QuotientIs(q1, 256, q2);
    QuotientIs(value, 65536, q2);
    QuotientIs(q2, 256, 0);
  }

  lemma LastByte(n: nat) returns (q: nat, r: nat)
    ensures n == r + 256 * q && r < 256
  {
    q, r := n / 256, n % 256;
  }

  lemma DigitsGiveBack(value: int)
    requires 0 <= value < 16777216
    ensures value == OfDigits(First(value), Second(value), Third(value), Fourth(value))
    ensures value < 4096 ==> value == OfDigits(First(value), Second(value), 0, 0)
  {
    hide First, Second, Third, Fourth;
    var q1, r0 := LastDigit(value);
    var q2, r1 := LastDigit(q1);
    var q3, r2 := LastDigit(q2);
    Nested(value, q1, q2, q3, r0, r1, r2);
    assert 0 <= q3 < 64 && q3 % 64 == q3;
  }

  lemma LastDigit(n: nat) returns (q: nat, r: nat)
    ensures n == r + 64 * q && r < 64
  {
    q, r := n / 64, n % 64;
  }

  lemma Nested(value: int, q1: int, q2: int, q3: int, r0: int, r1: int, r2: int)
    requires value == r0 + 64 * q1 && q1 == r1 + 64 * q2 && q2 == r2 + 64 * q3
    requires 0 <= r0 < 64 && 0 <= r1 < 64 && 0 <= r2 < 64
    ensures First(value) == r0 && Second(value) == r1 && Third(value) == r2 && Fourth(value) == q3 % 64
    ensures value == r0 + 64 * r1 + 4096 * r2 + 262144 * q3
  {
    QuotientIs(value, 64, q1);
    QuotientIs(q1, 64, q2);
    QuotientIs(q2, 64, q3);
    QuotientIs(value, 4096, q2);
    QuotientIs(value, 262144, q3);
  }

  lemma BytesGiveBack(a: Byte, b: Byte, c: Byte)
    ensures var value := OfBytes(a, b, c); value % 256 == a && value / 256 % 256 == b && value / 65536 % 256 == c
    ensures 0 <= OfBytes(a, b, c) < 16777216
  {
    var value := OfBytes(a, b, c);
    QuotientIs(value, 256, b + 256 * c);
    QuotientIs(b + 256 * c, 256, c);
    QuotientIs(value, 65536, c);
  }

  // Different bytes of one length give different characters exactly when there are not
  // two bytes left over; the upper half of the second of them is lost.
  lemma InjectiveIff(n: nat)
    ensures (forall bs: seq<Byte>, cs: seq<Byte> | |bs| == n && |cs| == n && Encoded(bs) == Encoded(cs) :: bs == cs)
            <==> n % 3 != 2
  {
    hide Encoded, Decoded;
    if n % 3 != 2 {
      forall bs: seq<Byte>, cs: seq<Byte> | |bs| == n && |cs| == n && Encoded(bs) == Encoded(cs)
        ensures bs == cs
      {
        RoundTrip(bs);
        RoundTrip(cs);
      }
    } else {
      var front := seq(n - 2, i => 0);
      PairLosesBits(0, 0);
      SameFront(front, [0, 0], [0, 16]);
      assert (front + [0, 0])[n - 1] != (front + [0, 16])[n - 1];
    }
  }

  lemma PairLosesBits(a: Byte, b: Byte)
    requires b < 240
    ensures Encoded([a, b]) == Encoded([a, b + 16])
  {
    EncodedPair([a, b]);
    EncodedPair([a, b + 16]);
    hide Encoded;
    Above(OfBytes(a, b, 0), 64);
    Above(OfBytes(a, b, 0) / 64, 1);
    assert OfBytes(a, b + 16, 0) == OfBytes(a, b, 0) + 64 * 64;
  }

  lemma EncodedPair(bs: seq<Byte>)
    requires |bs| == 2
    ensures Encoded(bs) == LowDigits(OfBytes(bs[0], bs[1], 0))
  {
  }

  lemma {:induction false} SameFront(front: seq<Byte>, bs: seq<Byte>, cs: seq<Byte>)
    requires |front| % 3 == 0 && Encoded(bs) == Encoded(cs)
    ensures Encoded(front + bs) == Encoded(front + cs)
  {
    hide Encoded;
    if front == [] {
      assert front + bs == bs && front + cs == cs;
    } else {
      SameFront(front[3..], bs, cs);
      EncodedGroup(front, bs);
      EncodedGroup(front, cs);
    }
  }

  lemma EncodedGroup(front: seq<Byte>, bs: seq<Byte>)
    requires |front| >= 3
    ensures Encoded(front + bs) == FourDigits(OfBytes(front[0], front[1], front[2])) + Encoded(front[3..] + bs)
  {
    hide LowDigits, HighDigits, OfBytes;
    assert (front + bs)[3..] == front[3..] + bs;
  }
}
