/**
 The tracker's request table: a growable ring buffer of entries.  New requests
 are claimed at head, which moves up and wraps; the oldest request lies just
 above tail.
 */
module RequestTable {
  import opened TrackerTypes
  import opened RequestOrder
  import opened TrackerRun

  // ----- ring geometry

  // The slot that lies k places behind the newest one.  It is its own inverse:
  // Slot(head, size, i) is how many places slot i lies behind the newest one,
  // and there -1 stands for the slot below 0, before it is wrapped to the top.
  function Slot(head: int, size: int, k: int): (i: int)
    requires 0 <= head < size && -1 <= k < size
    ensures 0 <= i < size
  {
    if k < head then head - 1 - k else size + head - 1 - k
  }

  // How many requests are newer than slot i.
  function Age(head: int, size: int, i: int): (k: int)
    requires 0 <= head < size && -1 <= i < size
    ensures 0 <= k < size
  {
    Slot(head, size, i)
  }

  // The number of slots strictly between tail and head.
  function Span(head: int, tail: int, size: int): (n: int)
    requires 0 <= head < size && 0 <= tail < size
    ensures 0 <= n < size
    ensures n == Age(head, size, tail)
    ensures n == size - 1 <==> head == tail
  {
    if tail < head then head - 1 - tail else size + head - 1 - tail
  }

  predicate Shape(es: seq<Entry>, head: int, tail: int) {
    |es| >= 2 && 0 <= head < |es| && 0 <= tail < |es|
  }

  // The n newest slots, newest first.
  function Newest(es: seq<Entry>, head: int, n: nat): (w: seq<Entry>)
    requires 0 <= head < |es| && n <= |es|
    ensures |w| == n
  {
    if n == 0 then [] else Newest(es, head, n - 1) + [es[Slot(head, |es|, n - 1)]]
  }

  // The slots strictly between tail and head, newest first.
  function WindowOf(es: seq<Entry>, head: int, tail: int): (w: seq<Entry>)
    requires Shape(es, head, tail)
    ensures |w| == Span(head, tail, |es|)
  {
    Newest(es, head, Span(head, tail, |es|))
  }

  lemma {:induction false} NewestAt(es: seq<Entry>, head: int, n: nat, k: nat)
    requires 0 <= head < |es| && k < n <= |es|
    ensures Newest(es, head, n)[k] == es[Slot(head, |es|, k)]
  {
    if k < n - 1 {
      NewestAt(es, head, n - 1, k);
    }
  }

  lemma WindowAt(es: seq<Entry>, head: int, tail: int)
    requires Shape(es, head, tail)
    ensures forall k | 0 <= k < Span(head, tail, |es|) :: WindowOf(es, head, tail)[k] == es[Slot(head, |es|, k)]
    ensures forall i | 0 <= i < |es| && Age(head, |es|, i) < Span(head, tail, |es|) ::
              es[i] == WindowOf(es, head, tail)[Age(head, |es|, i)]
  {
    forall k | 0 <= k < Span(head, tail, |es|)
      ensures WindowOf(es, head, tail)[k] == es[Slot(head, |es|, k)]
    {
      NewestAt(es, head, Span(head, tail, |es|), k);
    }
    forall i | 0 <= i < |es| && Age(head, |es|, i) < Span(head, tail, |es|)
      ensures es[i] == WindowOf(es, head, tail)[Age(head, |es|, i)]
    {
      NewestAt(es, head, Span(head, tail, |es|), Age(head, |es|, i));
      assert Slot(head, |es|, Age(head, |es|, i)) == i;
    }
    hide WindowOf, Newest;
  }

  // Two windows agree when their slots do.
  lemma {:induction false} NewestSame(es: seq<Entry>, head: int, es': seq<Entry>, head': int, n: nat)
    requires 0 <= head < |es| && 0 <= head' < |es'| && n <= |es| && n <= |es'|
    requires forall k | 0 <= k < n :: es[Slot(head, |es|, k)] == es'[Slot(head', |es'|, k)]
    ensures Newest(es, head, n) == Newest(es', head', n)
  {
    if n > 0 {
      NewestSame(es, head, es', head', n - 1);
    }
  }

  lemma WindowUpdate(es: seq<Entry>, head: int, tail: int, i: int, e: Entry)
    requires Shape(es, head, tail) && 0 <= i < |es|
    ensures WindowOf(es[i := e], head, tail) ==
            var w := WindowOf(es, head, tail);
            if Age(head, |es|, i) < |w| then w[Age(head, |es|, i) := e] else w
  {
    WindowAt(es, head, tail);
    WindowAt(es[i := e], head, tail);
  }

  predicate AllLive(w: seq<Entry>, lo: nat, hi: nat) {
    hi <= |w| && forall k | lo <= k < hi :: w[k].hash != 0
  }

  predicate AllFree(w: seq<Entry>, lo: nat, hi: nat) {
    hi <= |w| && forall k | lo <= k < hi :: w[k].hash == 0
  }

  // The newest n slots are in use, and the free slots of the window are zeroed.
  predicate ZeroedGaps(w: seq<Entry>, n: nat) {
    && AllLive(w, 0, n)
    && (forall k | n <= k < |w| && w[k].hash == 0 :: w[k] == FREE)
  }

  // The result of closing all gaps: the entries in use, then zeroed slots.
  predicate Packed(w: seq<Entry>, live: seq<Entry>) {
    && |live| <= |w|
    && w[..|live|] == live
    && forall k | |live| <= k < |w| :: w[k] == FREE
  }

  lemma FreeRun(w: seq<Entry>, f: nat, hi: nat)
    requires f < |w| && w[f].hash == 0 && AllFree(w, f + 1, hi)
    ensures AllFree(w, f, hi)
  {
  }

  lemma MoveKeepsGaps(w: seq<Entry>, f: nat, a: nat)
    requires f < a < |w| && ZeroedGaps(w, f) && w[a].hash != 0
    ensures ZeroedGaps(w[f := w[a]][a := FREE], f + 1)
  {
  }

  lemma PackedPrefix(w: seq<Entry>, n: nat)
    requires ZeroedGaps(w, n)
    requires AllFree(w, n, |w|)
    ensures Packed(w, Live(w))
  {
    LivePrefix(w, n);
  }

  // Once packed, the slots in use are exactly those of the |live| newest ages,
  // and every other slot of the table is zeroed.
  lemma PackedInUse(es: seq<Entry>, head: int, tail: int, live: seq<Entry>)
    requires Shape(es, head, tail) && Packed(WindowOf(es, head, tail), live)
    requires forall k | 0 <= k < |live| :: live[k].hash != 0
    requires ZeroedOutside(es, head, tail)
    ensures forall i | 0 <= i < |es| :: es[i].hash != 0 <==> Age(head, |es|, i) < |live|
    ensures forall i | 0 <= i < |es| && Age(head, |es|, i) >= |live| :: es[i] == FREE
  {
    var w := WindowOf(es, head, tail);
    WindowAt(es, head, tail);
    forall i | 0 <= i < |es|
      ensures es[i].hash != 0 <==> Age(head, |es|, i) < |live|
      ensures Age(head, |es|, i) >= |live| ==> es[i] == FREE
    {
      var k := Age(head, |es|, i);
      if k < |w| {
        assert w[k] == es[i];
        assert k < |live| ==> w[..|live|][k] == live[k];
      }
    }
  }

  lemma WindowShrink(es: seq<Entry>, head: int, tail: int, tail': int)
    requires Shape(es, head, tail) && Shape(es, head, tail')
    requires Span(head, tail', |es|) <= Span(head, tail, |es|)
    ensures WindowOf(es, head, tail') == WindowOf(es, head, tail)[..Span(head, tail', |es|)]
  {
    WindowAt(es, head, tail);
    WindowAt(es, head, tail');
  }

  function NextSlot(i: int, size: int): int {
    if i + 1 == size then 0 else i + 1
  }

  // Moving head up by one makes the slot it leaves the newest of the window.
  lemma WindowAdvance(es: seq<Entry>, head: int, tail: int)
    requires Shape(es, head, tail) && head != tail
    ensures WindowOf(es, NextSlot(head, |es|), tail) == [es[head]] + WindowOf(es, head, tail)
  {
    NewestAdvance(es, head, Span(head, tail, |es|));
  }

  // Everything but the window is zeroed.
  predicate ZeroedOutside(es: seq<Entry>, head: int, tail: int)
    requires Shape(es, head, tail)
  {
    forall i | 0 <= i < |es| && Age(head, |es|, i) >= Span(head, tail, |es|) :: es[i] == FREE
  }

  lemma AdvanceKeepsZeroed(es: seq<Entry>, head: int, tail: int)
    requires Shape(es, head, tail) && head != tail && ZeroedOutside(es, head, tail)
    ensures es[head] == FREE && ZeroedOutside(es, NextSlot(head, |es|), tail)
  {
  }

  lemma {:induction false} NewestAdvance(es: seq<Entry>, head: int, n: nat)
    requires 0 <= head < |es| && n < |es|
    ensures Newest(es, NextSlot(head, |es|), n + 1) == [es[head]] + Newest(es, head, n)
  {
    if n > 0 {
      NewestAdvance(es, head, n - 1);
    }
  }

  // Moving what lies above tail up by size slots keeps the window.
  lemma WindowGrow(es: seq<Entry>, es': seq<Entry>, head: int, size: nat)
    requires Shape(es, head, head) && |es'| == |es| + size
    requires forall i | 0 <= i < head :: es'[i] == es[i]
    requires forall i | head + size < i < |es'| :: es'[i] == es[i - size]
    ensures WindowOf(es', head, head + size) == WindowOf(es, head, head)
  {
    forall k | 0 <= k < |es| - 1
      ensures es'[Slot(head, |es'|, k)] == es[Slot(head, |es|, k)]
    {
      assert Slot(head, |es'|, k) == Slot(head, |es|, k) + if k < head then 0 else size;
    }
    NewestSame(es, head, es', head, |es| - 1);
  }

  // The slots at or behind the window's end are the same.
  predicate SameOutside(es: seq<Entry>, es': seq<Entry>, head: int, span: int)
    requires 0 <= head < |es|
  {
    && |es'| == |es|
    && forall i | 0 <= i < |es| && Age(head, |es|, i) >= span :: es'[i] == es[i]
  }

  class HashTable {
    var head: int
    var tail: int
    var entry: array<Entry>

    ghost predicate Shaped()
      reads this, entry
    {
      Shape(entry[..], head, tail)
    }

    ghost function Window(): seq<Entry>
      requires Shaped()
      reads this, entry
    {
      WindowOf(entry[..], head, tail)
    }

    // Index i lies age places behind the newest slot, not beyond tail.
    ghost predicate At(i: int, age: nat)
      requires Shaped()
      reads this, entry
    {
      -1 <= i < entry.Length && age == Age(head, entry.Length, i) <= |Window()|
    }

    // Slot i is the one of the window that lies age places behind the newest.
    ghost predicate InWindow(i: int, age: nat)
      requires Shaped()
      reads this, entry
    {
      0 <= i && At(i, age) && age < |Window()|
    }

    lemma AtSlot(i: int, age: nat)
      requires Shaped() && InWindow(i, age)
      ensures Window()[age] == entry[i]
    {
      NewestAt(entry[..], head, |Window()|, age);
    }

    lemma AtBelow(i: int, age: nat)
      requires Shaped() && InWindow(i, age)
      ensures At(i - 1, age + 1)
    {
    }

    // Looks from index start down towards tail for a free slot.
    method SeekFree(start: int, ghost age: nat) returns (index: int, found: bool, ghost age': nat)
      requires Shaped() && At(start, age)
      ensures At(index, age') && age <= age' && AllLive(Window(), age, age')
      ensures if found then 0 <= index && age' < |Window()| && Window()[age'].hash == 0
              else age' == |Window()|
    {
      var done := false;
      index, found, age' := start, false, age;
      while !done
        invariant At(index, age') && age <= age' && AllLive(Window(), age, age')
        invariant found ==> done && 0 <= index && age' < |Window()| && Window()[age'].hash == 0
        invariant done && !found ==> age' == |Window()|
        decreases !done, entry.Length - age', -index
      {
        if index == tail {
          done := true;
        } else if index < 0 {
          index := entry.Length - 1;
        } else if entry[index].hash == 0 {
          AtSlot(index, age');
          done, found := true, true;
        } else {
          AtSlot(index, age');
          AtBelow(index, age');
          index, age' := index - 1, age' + 1;
        }
      }
    }

    // Looks from index start down towards tail for a slot in use.
    method SeekAllocated(start: int, ghost age: nat) returns (index: int, found: bool, ghost age': nat)
      requires Shaped() && At(start, age)
      ensures At(index, age') && age <= age' && AllFree(Window(), age, age')
      ensures if found then 0 <= index && age' < |Window()| && Window()[age'].hash != 0
              else age' == |Window()|
    {
      var done := false;
      index, found, age' := start, false, age;
      while !done
        invariant At(index, age') && age <= age' && AllFree(Window(), age, age')
        invariant found ==> done && 0 <= index && age' < |Window()| && Window()[age'].hash != 0
        invariant done && !found ==> age' == |Window()|
        decreases !done, entry.Length - age', -index
      {
        if index == tail {
          done := true;
        } else if index < 0 {
          index := entry.Length - 1;
        } else if entry[index].hash != 0 {
          AtSlot(index, age');
          done, found := true, true;
        } else {
          AtSlot(index, age');
          AtBelow(index, age');
          index, age' := index - 1, age' + 1;
        }
      }
    }

    // Everything but the slots strictly between tail and head is zeroed, and
    // what is between them is live, or freed and zeroed.
    ghost predicate Sound()
      reads this, entry
    {
      && Shaped() && head != tail
      && ZeroedOutside(entry[..], head, tail)
      && (forall k | 0 <= k < |Window()| :: Window()[k] == FREE || IsLive(Window()[k]))
    }

    // The state between two messages: the slots strictly between tail and head
    // are live and hold distinct hashes; all others are zeroed.
    ghost predicate Valid()
      reads this, entry
    {
      Sound() && WellFormed(Window())
    }

    constructor (size: int)
      requires size >= 2
      ensures Valid() && fresh(entry)
      ensures head == 0 && entry.Length == size && Window() == []
    {
      entry := new Entry[size](_ => FREE);
      head, tail := 0, size - 1;
    }

    // Closes the gaps between tail and head by moving entries towards head.
    method Compact()
      requires Shaped() && ZeroedGaps(Window(), 0)
      modifies entry
      ensures Packed(Window(), Live(old(Window())))
      ensures SameOutside(old(entry[..]), entry[..], head, |Window()|)
    {
      var freeIndex := head - 1;
      ghost var age: nat := 0;
      var more := true;
      while more
        invariant At(freeIndex, age) && ZeroedGaps(Window(), age)
        invariant Live(Window()) == Live(old(Window()))
        invariant !more ==> AllFree(Window(), age, |Window()|)
        invariant SameOutside(old(entry[..]), entry[..], head, |Window()|)
        decreases more, |Window()| - age
      {
        freeIndex, more, age := CompactStep(freeIndex, age);
      }
      PackedPrefix(Window(), age);
    }

    // One round: fill the next free slot with the next entry behind it, if both exist.
    method CompactStep(start: int, ghost age: nat) returns (freeIndex: int, more: bool, ghost age': nat)
      requires Shaped() && At(start, age) && ZeroedGaps(Window(), age)
      modifies entry
      ensures At(freeIndex, age') && ZeroedGaps(Window(), age')
      ensures Live(Window()) == Live(old(Window()))
      ensures if more then age < age' else AllFree(Window(), age', |Window()|)
      ensures SameOutside(old(entry[..]), entry[..], head, |Window()|)
    {
      hide Window;
      freeIndex, more, age' := SeekFree(start, age);
      if !more {
        return;
      }
      ghost var f := age';
      AtBelow(freeIndex, f);
      var allocatedIndex;
      ghost var a;
      allocatedIndex, more, a := SeekAllocated(freeIndex - 1, f + 1);
      FreeRun(Window(), f, a);
      if !more {
        return;
      }
      MoveKeepsGaps(Window(), f, a);
      MoveEntry(freeIndex, f, allocatedIndex, a);
      freeIndex, age' := freeIndex - 1, f + 1;
    }

    method MoveEntry(to: int, ghost f: nat, from: int, ghost a: nat)
      requires Shaped() && 0 <= to && 0 <= from && At(to, f) && At(from, a) && f < a < |Window()|
      requires AllFree(Window(), f, a) && Window()[a].hash != 0
      modifies entry
      ensures Window() == old(Window()[f := Window()[a]][a := FREE])
      ensures Live(Window()) == old(Live(Window()))
      ensures SameOutside(old(entry[..]), entry[..], head, |Window()|)
      ensures At(to - 1, f + 1)
    {
      LiveMoveAt(Window(), f, a);
      AtSlot(from, a);
      WindowUpdate(entry[..], head, tail, to, entry[from]);
      WindowUpdate(entry[..][to := entry[from]], head, tail, from, FREE);
      entry[to] := entry[from];
      entry[from] := FREE;
    }

    // Moves tail up to the oldest live entry of a compacted table whose m live
    // entries lie right below head.  On an empty table with head 0 it moves head
    // onto tail instead.
    method ReclaimFreeEntries(ghost m: int)
      requires Shaped() && head != tail && 0 <= m <= |Window()|
      requires InUseBelow(m)
      modifies this`head, this`tail
      ensures Shaped()
      ensures head == tail <==> m == 0 && old(head) == 0
      ensures head != tail ==> head == old(head) && |Window()| == m
      ensures head == tail ==> head == entry.Length - 1
    {
      ReclaimTail(m);
      if head > 0 {
        assert m > 0 ==> entry[head - 1].hash != 0;
      } else {
        assert m > 0 ==> entry[entry.Length - 1].hash != 0;
      }
      ReclaimHead();
    }

    // The slots in use are the m right below head.
    ghost predicate InUseBelow(m: int)
      requires Shaped()
      reads this, entry
    {
      forall i | 0 <= i < entry.Length :: entry[i].hash != 0 <==> Age(head, entry.Length, i) < m
    }

    method ReclaimTail(ghost m: int)
      requires Shaped() && head != tail && 0 <= m <= |Window()|
      requires InUseBelow(m)
      modifies this`tail
      ensures Shaped() && head != tail && |Window()| == m
    {
      if tail > head {
        var i := tail + 1;
        while i < entry.Length && entry[i].hash == 0
          invariant i == tail + 1 <= entry.Length && tail > head
          invariant m <= Span(head, tail, entry.Length)
        {
          tail := tail + 1;
          i := i + 1;
        }
        if tail == entry.Length - 1 {
          if entry[0].hash == 0 && head != 0 {
            tail := 0;
          }
        }
      }
      if tail < head {
        var i := tail + 1;
        while i < head && entry[i].hash == 0
          invariant 0 < i == tail + 1 <= head
          invariant m <= Span(head, tail, entry.Length)
        {
          tail := tail + 1;
          i := i + 1;
        }
      }
    }

    // Moves head down over free slots when it lies below tail, wrapping to the
    // top slot if that one is free too.  The source ends with a loop for the case
    // head > tail; it starts at head - 1 and runs only below tail, so never.
    method ReclaimHead()
      requires Shaped() && head != tail
      modifies this`head
      ensures old(head) > tail ==> head == old(head)
      ensures old(head) < tail && (exists i :: 0 <= i < old(head) && entry[i].hash != 0) ==>
                0 < head <= old(head) && entry[head - 1].hash != 0 &&
                forall i | head <= i < old(head) :: entry[i].hash == 0
      ensures old(head) < tail && (forall i | 0 <= i < old(head) :: entry[i].hash == 0) ==>
                head == if entry[entry.Length - 1].hash == 0 then entry.Length - 1 else 0
    {
      if head < tail {
        var i := head - 1;
        while i >= 0 && entry[i].hash == 0
          invariant i == head - 1 && 0 <= head <= old(head)
          invariant forall j | head <= j < old(head) :: entry[j].hash == 0
        {
          head := head - 1;
          i := i - 1;
        }
        if head == 0 && entry[entry.Length - 1].hash == 0 {
          head := entry.Length - 1;
        }
      }
    }

    // Closes the gaps and gives the freed slots back.  On a table that became
    // empty with head at slot 0, head ends up on tail.
    method CompactAndReclaim()
      requires Sound()
      modifies this`head, this`tail, entry
      ensures Shaped()
      ensures head == tail <==> Live(old(Window())) == [] && old(head) == 0
      ensures head != tail ==> Sound() && head == old(head) && Window() == Live(old(Window()))
      ensures head == tail ==> forall i | 0 <= i < entry.Length :: entry[i] == FREE
    {
      Compact();
      ghost var live := Live(old(Window()));
      LiveAreUsed(old(Window()));
      PackedInUse(entry[..], head, tail, live);
      ghost var tail0 := tail;
      ReclaimFreeEntries(|live|);
      if head != tail {
        WindowShrink(entry[..], head, tail0, tail);
      }
    }

    // Adds size slots to a table whose slots are all taken but the one at tail,
    // which head has reached.
    method GrowHashTable(size: int)
      requires Shaped() && size > 0 && head == tail
      modifies this`tail, this`entry
      ensures fresh(entry) && Shaped() && entry.Length == old(entry.Length) + size
      ensures tail == head + size && Window() == old(Window())
      ensures ZeroedOutside(entry[..], head, tail)
    {
      var a := Reallocated(size);
      WindowGrow(entry[..], a[..], head, size);
      entry := a;
      tail := tail + size;
    }

    // The entries above tail move to the top of the new table, and the slots
    // from head on are zeroed.
    method Reallocated(size: int) returns (a: array<Entry>)
      requires Shaped() && size > 0 && head == tail
      ensures fresh(a) && a.Length == entry.Length + size
      ensures forall i | 0 <= i < head :: a[i] == entry[i]
      ensures forall i | head <= i <= head + size :: a[i] == FREE
      ensures forall i | head + size < i < a.Length :: a[i] == entry[i - size]
    {
      var oldSize := entry.Length;
      var newSize := size + oldSize;
      a := new Entry[newSize];
      Copy(entry, a);
      var tailEntries := oldSize - 1 - tail;
      if tailEntries > 0 {
        MoveUp(a, tail + 1, tailEntries, size);
      }
      assert forall i | head + size < i < newSize :: a[i] == entry[i - size];
      Zero(a, head, size + 1);
    }

    static method Copy(source: array<Entry>, target: array<Entry>)
      requires source.Length <= target.Length && source != target
      modifies target
      ensures forall i | 0 <= i < source.Length :: target[i] == source[i]
    {
      forall i | 0 <= i < source.Length {
        target[i] := source[i];
      }
    }

    // Copies n entries so many places up.
    static method MoveUp(a: array<Entry>, from: int, n: int, up: int)
      requires 0 <= from && 0 <= n && 0 <= up && from + n + up <= a.Length
      modifies a
      ensures forall i | from + up <= i < from + n + up :: a[i] == old(a[i - up])
      ensures forall i | 0 <= i < a.Length && !(from + up <= i < from + n + up) :: a[i] == old(a[i])
    {
      forall i | from + up <= i < from + n + up {
        a[i] := a[i - up];
      }
    }

    static method Zero(target: array<Entry>, from: int, n: int)
      requires 0 <= from && 0 <= n && from + n <= target.Length
      modifies target
      ensures forall i | 0 <= i < target.Length ::
                target[i] == if from <= i < from + n then FREE else old(target[i])
    {
      forall i | from <= i < from + n {
        target[i] := FREE;
      }
    }

    // The state this table is in, as the state machine of TrackerRun sees it.
    ghost function AsRing(): Ring
      requires Shaped()
      reads this, entry
    {
      Ring(head, entry.Length, Window())
    }

    // The same after a message; None when the message ran head onto tail.
    ghost function Outcome(): Option<Ring>
      requires Shaped()
      reads this, entry
    {
      if head == tail then None else Some(AsRing())
    }

    lemma ValidIsInv()
      requires Valid()
      ensures Inv(AsRing())
    {
    }

    // Claims the slot at head for a new request.  The full test is made before
    // head wraps, so a full table with head on the top slot and tail on slot 0
    // is not seen as full: head wraps onto tail.
    method NewEntry() returns (index: int)
      requires Valid()
      modifies this
      ensures Shaped() && (entry == old(entry) || fresh(entry))
      ensures InWindow(index, 0) && Window() == [FREE] + old(Window())
      ensures Outcome() == Claim(old(AsRing()), FREE)
      ensures head != tail ==> Sound()
    {
      WindowAdvance(entry[..], head, tail);
      AdvanceKeepsZeroed(entry[..], head, tail);
      index := head;
      head := head + 1;
      if head == tail {
        GrowHashTable(HASH_TABLE_ENTRIES);
      }
      if head == entry.Length {
        head := 0;
      }
    }

    // Enters a request that is not in the table yet.
    method AddRequest(hash: Hash, peers: seq<Peer>)
      requires Valid() && hash != 0 && peers != [] && FindHash(Window(), hash) < 0
      modifies this, entry
      ensures Shaped() && (entry == old(entry) || fresh(entry))
      ensures Outcome() == Claim(old(AsRing()), Entry(hash, peers))
      ensures head != tail ==> Valid()
    {
      hide Window;
      var index := NewEntry();
      StoreEntry(index, Entry(hash, peers), 0);
      assert Window() == [Entry(hash, peers)] + old(Window());
    }

    // ----- lookups

    // Searches from the newest request to the oldest for hash; -1 if absent.
    // The scan includes the zeroed slots at head and tail, so hash must not be 0.
    method GetPeers(hash: Hash) returns (index: int)
      requires Sound() && hash != 0
      ensures -1 <= index < entry.Length
      ensures FindHash(Window(), hash) == if index < 0 then -1 else Age(head, entry.Length, index)
    {
      var h := head;
      if h < tail {
        var i := h - 1;
        while i >= 0
          invariant -1 <= i < h
          invariant forall j | i < j < h :: entry[j].hash != hash
        {
          if entry[i].hash == hash {
            FoundAt(i, hash);
            return i;
          }
          i := i - 1;
        }
        h := entry.Length - 1;
      }
      var i := h;
      while i >= tail
        invariant tail - 1 <= i <= h
        invariant forall j | i < j <= h :: entry[j].hash != hash
      {
        if entry[i].hash == hash {
          FoundAt(i, hash);
          return i;
        }
        i := i - 1;
      }
      index := -1;
      NowhereIn(hash);
    }

    lemma FoundAt(i: int, hash: Hash)
      requires Sound() && hash != 0 && 0 <= i < entry.Length && entry[i].hash == hash
      requires forall j | 0 <= j < entry.Length && Age(head, entry.Length, j) < Age(head, entry.Length, i) ::
                entry[j].hash != hash
      ensures FindHash(Window(), hash) == Age(head, entry.Length, i)
    {
      WindowAt(entry[..], head, tail);
      FindHashIs(Window(), hash, Age(head, entry.Length, i));
    }

    lemma NowhereIn(hash: Hash)
      requires Shaped() && hash != 0
      requires forall j | 0 <= j < entry.Length && Age(head, entry.Length, j) < |Window()| :: entry[j].hash != hash
      ensures FindHash(Window(), hash) == -1
    {
      WindowAt(entry[..], head, tail);
      forall k | 0 <= k < |Window()|
        ensures Window()[k].hash != hash
      {
        assert entry[Slot(head, entry.Length, k)].hash != hash;
      }
    }

    // The request made right after the one at index, or -1 when there is none.
    method GetNextPeers(index: int, ghost k: nat) returns (next: int)
      requires Valid() && InWindow(index, k)
      ensures if k == 0 then next == -1 else InWindow(next, k - 1)
    {
      ghost var k';
      next, k' := SeekNewer(index, k);
      NextIsNewer(k', k);
    }

    // Looks for the next slot in use after the one at index, up to head.
    method SeekNewer(index: int, ghost k: nat) returns (next: int, ghost k': int)
      requires Sound() && InWindow(index, k)
      ensures -1 <= k' < k && (next == -1 <==> k' == -1)
      ensures next != -1 ==> InWindow(next, k') && Window()[k'].hash != 0
      ensures AllFree(Window(), k' + 1, k)
    {
      hide Window;
      var i := index + 1;
      k' := k;
      while i < entry.Length
        invariant index < i <= entry.Length && 0 <= k' <= k && At(i - 1, k') && (i - 1 < head ==> index < head)
        invariant AllFree(Window(), k', k)
      {
        if i == head {
          return -1, -1;
        }
        k' := k' - 1;
        AtSlot(i, k');
        if entry[i].hash != 0 {
          return i, k';
        }
        i := i + 1;
      }
      i := 0;
      while i < head
        invariant 0 <= i <= head && k' == head - i <= k
        invariant AllFree(Window(), k', k)
      {
        k' := k' - 1;
        AtSlot(i, k');
        if entry[i].hash != 0 {
          return i, k';
        }
        i := i + 1;
      }
      return -1, -1;
    }

    // Between messages there are no gaps, so it is the very next request.
    lemma NextIsNewer(k': int, k: nat)
      requires Valid() && -1 <= k' < k < |Window()| && AllFree(Window(), k' + 1, k)
      ensures k' == k - 1
    {
      assert IsLive(Window()[k' + 1]);
    }

    // ----- removing peers

    // The entry left when its first mention of ip is removed.
    static method DropPeerFrom(e: Entry, ip: Ip) returns (e': Entry, freed: bool)
      ensures e' == DropPeer(e, ip)
      ensures freed <==> |e.peers| == 1 && e.peers[0].ip == ip
    {
      var i := 0;
      while i < |e.peers|
        invariant 0 <= i <= |e.peers|
        invariant forall j | 0 <= j < i :: e.peers[j].ip != ip
      {
        if e.peers[i].ip == ip {
          FindPeerIs(e.peers, ip, i);
          if |e.peers| == 1 {
            return FREE, true;
          }
          var rest := ShiftDown(e.peers, i);
          return Entry(e.hash, rest), false;
        }
        i := i + 1;
      }
      return e, false;
    }

    // Moves all peers behind place i down by one and drops the last.
    static method ShiftDown(peers: seq<Peer>, i: nat) returns (rest: seq<Peer>)
      requires i < |peers|
      ensures rest == peers[..i] + peers[i + 1..]
    {
      rest := peers;
      var j := i;
      while j < |peers| - 1
        invariant i <= j <= |peers| - 1
        invariant rest == peers[..i] + peers[i + 1..j + 1] + peers[j..]
      {
        rest := rest[j := rest[j + 1]];
        j := j + 1;
      }
      rest := rest[..|rest| - 1];
    }

    static lemma DropLeavesUse(e: Entry, ip: Ip)
      requires e == FREE || IsLive(e)
      ensures DropPeer(e, ip) == FREE || IsLive(DropPeer(e, ip))
      ensures !(|e.peers| == 1 && e.peers[0].ip == ip) ==> DropPeer(e, ip).hash == e.hash
    {
      if IsLive(e) {
        DropFreesOrKeeps(e, ip);
      }
    }

    method DropPeerAt(index: int, ip: Ip, ghost k: nat) returns (freed: bool)
      requires Sound() && InWindow(index, k)
      modifies entry
      ensures Sound() && Window() == DropAt(old(Window()), k, ip)
      ensures !freed ==> Window()[k].hash == old(Window())[k].hash
    {
      hide Window, DropPeer;
      AtSlot(index, k);
      DropLeavesUse(entry[index], ip);
      var rest;
      rest, freed := DropPeerFrom(entry[index], ip);
      StoreEntry(index, rest, k);
    }

    method StoreEntry(index: int, e: Entry, ghost k: nat)
      requires Shaped() && InWindow(index, k)
      modifies entry
      ensures Window() == old(Window())[k := e]
      ensures old(Sound()) && (e == FREE || IsLive(e)) ==> Sound()
    {
      WindowUpdate(entry[..], head, tail, index, e);
      entry[index] := e;
    }

    method RemovePeer(index: int, ip: Ip, doCompact: bool, ghost k: nat)
      requires Sound() && InWindow(index, k)
      requires doCompact ==> Valid()
      modifies this`head, this`tail, entry
      ensures Shaped()
      ensures doCompact ==> Became(Live(DropAt(old(Window()), k, ip)), old(head))
      ensures !doCompact ==>
                Sound() && Window() == DropAt(old(Window()), k, ip) && head == old(head) && tail == old(tail)
    {
      var freed := DropPeerAt(index, ip, k);
      if doCompact {
        DropAtKeepsWellFormed(old(Window()), k, ip);
        if freed {
          CompactAndReclaim();
        } else {
          LiveAll(Window());
        }
      }
    }

    // The table holds list o and head is at h; but a table that became empty
    // with head on slot 0 has head on tail instead.
    ghost predicate Became(o: Order, h: int)
      requires Shaped()
      reads this, entry
    {
      && (head == tail <==> o == [] && h == 0)
      && (head != tail ==> Valid() && head == h && Window() == o)
      && (head == tail ==> forall i | 0 <= i < entry.Length :: entry[i] == FREE)
    }

    // ----- messages that remove peers

    // The slot is looked up once for all peers of the message.
    method UnregisterHash(hash: Hash, ips: seq<Ip>)
      requires Valid() && hash != 0
      modifies this`head, this`tail, entry
      ensures Shaped()
      ensures var k := FindHash(old(Window()), hash);
              if k < 0 then Valid() && Window() == old(Window()) && head == old(head) && tail == old(tail)
              else Became(UnregisterAt(old(Window()), k, ips), old(head))
    {
      hide Window;
      var index := GetPeers(hash);
      if index >= 0 {
        ghost var k, o, h := FindHash(Window(), hash), Window(), head;
        var j := 0;
        while j < |ips|
          invariant 0 <= j <= |ips| && Shaped() && Became(o, h) && entry.Length == old(entry.Length)
          invariant UnregisterAt(o, k, ips[j..]) == UnregisterAt(old(Window()), k, ips)
        {
          RemovePeerFrom(index, ips[j], k, o, h);
          assert ips[j..][1..] == ips[j + 1..];
          o := if k < |o| then Live(DropAt(o, k, ips[j])) else o;
          j := j + 1;
        }
      }
    }

    // RemovePeer on a slot that an earlier removal may have freed: a free slot
    // has no peers to go through.
    method RemovePeerFrom(index: int, ip: Ip, ghost k: nat, ghost o: Order, ghost h: int)
      requires Shaped() && Became(o, h) && 0 <= h < entry.Length
      requires 0 <= index < entry.Length && k == Age(h, entry.Length, index)
      modifies this`head, this`tail, entry
      ensures Shaped() && Became(if k < |o| then Live(DropAt(o, k, ip)) else o, h)
    {
      if head != tail && k < |o| {
        AtSlot(index, k);
      }
      if entry[index].peers != [] {
        RemovePeer(index, ip, true, k);
      }
    }

    method UnregisterAll(ip: Ip)
      requires Valid()
      modifies this`head, this`tail, entry
      ensures Shaped()
      ensures Became(Live(DropFromFirst(old(Window()), ip, |old(Window())|)), old(head))
    {
      DropKeepsWellFormed(Window(), ip, |Window()|);
      RemoveFromAll(ip);
      CompactAndReclaim();
    }

    method RemoveFromAll(ip: Ip)
      requires Sound()
      modifies this`head, this`tail, entry
      ensures Sound() && head == old(head) && tail == old(tail)
      ensures Window() == DropFromFirst(old(Window()), ip, |old(Window())|)
    {
      ghost var w := Window();
      if head >= tail {
        RemovePeerDown(head - 1, tail, ip, w, 0);
      } else {
        RemovePeerDown(head - 1, -1, ip, w, 0);
        RemovePeerDown(entry.Length - 1, tail, ip, w, head);
      }
    }

    // One of the loops of UnregisterAll: from index first down to the one above bound.
    method RemovePeerDown(first: int, bound: int, ip: Ip, ghost w: seq<Entry>, ghost k0: nat)
      requires Sound() && bound <= first && At(first, k0) && At(bound, k0 + (first - bound))
      requires |Window()| == |w| && Window() == DropFromFirst(w, ip, k0)
      modifies this`head, this`tail, entry
      ensures Sound() && head == old(head) && tail == old(tail)
      ensures k0 + (first - bound) <= |w| && Window() == DropFromFirst(w, ip, k0 + (first - bound))
    {
      hide Window;
      var i := first;
      ghost var k := k0;
      while i > bound && i >= 0
        invariant bound <= i <= first && head == old(head) && tail == old(tail) && Sound()
        invariant k == k0 + (first - i) <= |w| && Window() == DropFromFirst(w, ip, k)
      {
        RemovePeer(i, ip, false, k);
        i, k := i - 1, k + 1;
      }
    }

    // ----- the table's own check

    // The check meant to run after every message: no free slot strictly between
    // tail and head.  With head on tail it looks at nothing.
    method Verify() returns (ok: bool)
      requires Shaped()
      ensures head != tail ==> (ok <==> AllLive(Window(), 0, |Window()|))
      ensures head == tail ==> ok
    {
      ok := true;
      if head >= tail {
        ok := VerifyDown(head - 1, tail);
      } else {
        ok := VerifyDown(head - 1, -1);
        if ok {
          ok := VerifyDown(entry.Length - 1, tail);
        }
      }
      WindowInUse();
    }

    lemma WindowInUse()
      requires Shaped()
      ensures AllLive(Window(), 0, |Window()|) <==>
              forall i | 0 <= i < entry.Length && Age(head, entry.Length, i) < |Window()| :: entry[i].hash != 0
    {
      WindowAt(entry[..], head, tail);
      if forall i | 0 <= i < entry.Length && Age(head, entry.Length, i) < |Window()| :: entry[i].hash != 0 {
        forall k | 0 <= k < |Window()|
          ensures Window()[k].hash != 0
        {
          assert entry[Slot(head, entry.Length, k)].hash != 0;
        }
      }
    }

    // One of its loops: every slot from first down to the one above bound is in use.
    method VerifyDown(first: int, bound: int) returns (ok: bool)
      requires -1 <= bound && -1 <= first < entry.Length
      ensures ok <==> forall i | bound < i <= first :: entry[i].hash != 0
    {
      var i := first;
      while i > bound && i >= 0
        invariant -1 <= i <= first && (bound <= first ==> bound <= i)
        invariant forall j | i < j <= first :: entry[j].hash != 0
      {
        if entry[i].hash == 0 {
          return false;
        }
        i := i - 1;
      }
      return true;
    }
  }
}
