/**
 The semaphore that bounds how many profiles are generated at once: a counter in a
 file, read and written by any number of processes under a file lock.  Every
 process goes through its steps one at a time, in any interleaving, and may die
 between any two of them; the lock of a dead process is free again.
 */
module ProfileSemaphore {
  import opened TrackerTypes

  // Where a process is.  Writing first empties the file, then fills it.
  datatype Phase =
    | Start                     // waits for the lock
    | Entered                   // has the lock
    | Read(count: int)          // has read the counter, or guessed it
    | Emptied(count: int)       // has emptied the file to write count
    | Pushed                    // has written it
    | Refused                   // has found no resources left
    | Generating                // generates its profile, and then waits for the lock
    | Leaving                   // has the lock again
    | ReadBack(count: int)
    | EmptiedBack(count: int)
    | Popped
    | Gone
    | Died                      // without holding a place
    | DiedInside                // its place is never given back

  type Pid = nat

  // An unreadable file counts as none.
  datatype State = State(file: Option<int>, holder: Option<Pid>, procs: seq<Phase>)

  function Enter(s: State, p: Pid, phase: Phase): State
    requires p < |s.procs|
  {
    State(s.file, Some(p), s.procs[p := phase])
  }

  function Move(s: State, p: Pid, phase: Phase): State
    requires p < |s.procs|
  {
    s.(procs := s.procs[p := phase])
  }

  function Write(s: State, p: Pid, file: Option<int>, phase: Phase): State
    requires p < |s.procs|
  {
    State(file, s.holder, s.procs[p := phase])
  }

  function Release(s: State, p: Pid, phase: Phase): State
    requires p < |s.procs|
  {
    State(s.file, None, s.procs[p := phase])
  }

  // The next step of process p, if it can take one.  Where there is no counter yet
  // it is set to the number of processors.  A process that came back to a missing
  // counter would die.
  function Next(cpus: nat, s: State, p: Pid): Option<State>
    requires p < |s.procs|
  {
    match s.procs[p]
    case Start => if s.holder == None then Some(Enter(s, p, Entered)) else None
    case Entered => Some(Move(s, p, Read(if s.file == None then cpus else s.file.value)))
    case Read(count) => Some(if count == 0 then Move(s, p, Refused) else Write(s, p, None, Emptied(count - 1)))
    case Emptied(count) => Some(Write(s, p, Some(count), Pushed))
    case Pushed => Some(Release(s, p, Generating))
    case Refused => Some(Release(s, p, Gone))
    case Generating => if s.holder == None then Some(Enter(s, p, Leaving)) else None
    case Leaving => Some(if s.file == None then Crash(s, p) else Move(s, p, ReadBack(s.file.value + 1)))
    case ReadBack(count) => Some(Write(s, p, None, EmptiedBack(count)))
    case EmptiedBack(count) => Some(Write(s, p, Some(count), Popped))
    case Popped => Some(Release(s, p, Gone))
    case Gone => None
    case Died => None
    case DiedInside => None
  }

  // Process p dies.
  function Crash(s: State, p: Pid): State
    requires p < |s.procs|
  {
    State(s.file, if s.holder == Some(p) then None else s.holder,
          s.procs[p := if HasPlace(s.procs[p]) then DiedInside else Died])
  }

  predicate HoldsLock(phase: Phase) {
    match phase
    case Start | Generating | Gone | Died | DiedInside => false
    case _ => true
  }

  // The counter has been taken down for the process, and not yet put up again.
  predicate HasPlace(phase: Phase) {
    match phase
    case Emptied(_) | Pushed | Generating | Leaving | ReadBack(_) | DiedInside => true
    case _ => false
  }

  // The file is empty because the process is about to fill it.
  predicate InWrite(phase: Phase) {
    phase.Emptied? || phase.EmptiedBack?
  }

  function Places(s: State): set<Pid> {
    set p: Pid | p < |s.procs| && HasPlace(s.procs[p])
  }

  function Generators(s: State): set<Pid> {
    set p: Pid | p < |s.procs| && s.procs[p] == Generating
  }

  function Lost(s: State): set<Pid> {
    set p: Pid | p < |s.procs| && s.procs[p] == DiedInside
  }

  // The counter as it is, or as it is about to be written.
  function Counter(s: State): Option<int> {
    if s.holder.Some? && s.holder.value < |s.procs| && InWrite(s.procs[s.holder.value])
    then Some(s.procs[s.holder.value].count)
    else s.file
  }

  // What the process with the lock has read is still true.
  ghost predicate UpToDate(cpus: nat, s: State, phase: Phase) {
    && (phase.Read? ==> phase.count == if s.file == None then cpus else s.file.value)
    && (phase.ReadBack? ==> s.file.Some? && phase.count == s.file.value + 1)
    && (InWrite(phase) ==> s.file == None)
  }

  // With n places in all: the lock is held by the one process that is inside it, and
  // free places and taken ones together are n.  Where there is no counter, a place for
  // each processor is free.
  ghost predicate Bounded(cpus: nat, n: nat, s: State) {
    && (forall p: Pid | p < |s.procs| :: HoldsLock(s.procs[p]) <==> s.holder == Some(p))
    && (s.holder.Some? ==> s.holder.value < |s.procs|)
    && (forall p: Pid | p < |s.procs| :: UpToDate(cpus, s, s.procs[p]))
    && (Counter(s) == None ==> cpus + |Places(s)| == n)
    && (Counter(s).Some? ==> Counter(s).value >= 0 && Counter(s).value + |Places(s)| == n)
  }

  // And there is a counter as long as a place is taken.
  ghost predicate Inv(cpus: nat, n: nat, s: State) {
    Bounded(cpus, n, s) && (Counter(s) == None ==> Places(s) == {})
  }

  // All processes about to start, with a counter from before or none.
  function Init(file: Option<int>, procs: nat): State {
    State(file, None, seq(procs, i => Start))
  }

  lemma InitHasInv(cpus: nat, file: Option<int>, procs: nat)
    requires file.Some? ==> file.value >= 0
    ensures Inv(cpus, if file == None then cpus else file.value, Init(file, procs))
  {
    assert Places(Init(file, procs)) == {};
  }

  // Only the places of process p can change when only it changes.
  lemma PlacesChange(s: State, s': State, p: Pid)
    requires p < |s.procs| == |s'.procs| && s'.procs == s.procs[p := s'.procs[p]]
    ensures HasPlace(s'.procs[p]) == HasPlace(s.procs[p]) ==> Places(s') == Places(s)
    ensures HasPlace(s'.procs[p]) && !HasPlace(s.procs[p]) ==> |Places(s')| == |Places(s)| + 1
    ensures !HasPlace(s'.procs[p]) && HasPlace(s.procs[p]) ==> |Places(s')| == |Places(s)| - 1
  {
    PlacesAfter(s, s', p);
    assert p in Places(s) <==> HasPlace(s.procs[p]);
  }

  lemma PlacesAfter(s: State, s': State, p: Pid)
    requires p < |s.procs| == |s'.procs| && s'.procs == s.procs[p := s'.procs[p]]
    ensures Places(s') == if HasPlace(s'.procs[p]) then Places(s) + {p} else Places(s) - {p}
  {
    hide HasPlace;
    forall q: Pid | q < |s.procs| && q != p
      ensures q in Places(s') <==> q in Places(s)
    {
      assert s'.procs[q] == s.procs[q];
    }
  }

  // The process takes the lock.
  lemma LockingKeepsBound(cpus: nat, n: nat, s: State, p: Pid)
    requires Bounded(cpus, n, s) && p < |s.procs| && Next(cpus, s, p).Some?
    requires s.procs[p].Start? || s.procs[p].Generating?
    ensures Bounded(cpus, n, Next(cpus, s, p).value)
  {
    PlacesChange(s, Next(cpus, s, p).value, p);
    hide Places, HasPlace;
  }

  // It reads the counter.
  lemma ReadingKeepsBound(cpus: nat, n: nat, s: State, p: Pid)
    requires Bounded(cpus, n, s) && p < |s.procs| && Next(cpus, s, p).Some?
    requires s.procs[p].Entered?
    ensures Bounded(cpus, n, Next(cpus, s, p).value)
  {
    PlacesChange(s, Next(cpus, s, p).value, p);
    hide Places, HasPlace;
  }

  // It reads the counter again.
  lemma ReadingBackKeepsBound(cpus: nat, n: nat, s: State, p: Pid)
    requires Bounded(cpus, n, s) && p < |s.procs| && Next(cpus, s, p).Some?
    requires s.procs[p].Leaving?
    ensures Bounded(cpus, n, Next(cpus, s, p).value)
  {
    PlacesChange(s, Next(cpus, s, p).value, p);
    hide Places, HasPlace;
  }

  // It empties the file, or is refused.
  lemma EmptyingKeepsBound(cpus: nat, n: nat, s: State, p: Pid)
    requires Bounded(cpus, n, s) && p < |s.procs| && Next(cpus, s, p).Some?
    requires s.procs[p].Read? || s.procs[p].ReadBack?
    ensures Bounded(cpus, n, Next(cpus, s, p).value)
  {
    PlacesChange(s, Next(cpus, s, p).value, p);
    hide Places, HasPlace;
  }

  // It fills the file.
  lemma FillingKeepsBound(cpus: nat, n: nat, s: State, p: Pid)
    requires Bounded(cpus, n, s) && p < |s.procs| && Next(cpus, s, p).Some?
    requires s.procs[p].Emptied? || s.procs[p].EmptiedBack?
    ensures Bounded(cpus, n, Next(cpus, s, p).value)
  {
    PlacesChange(s, Next(cpus, s, p).value, p);
    hide Places, HasPlace;
  }

  // It gives up the lock.
  lemma ReleasingKeepsBound(cpus: nat, n: nat, s: State, p: Pid)
    requires Bounded(cpus, n, s) && p < |s.procs| && Next(cpus, s, p).Some?
    requires s.procs[p].Pushed? || s.procs[p].Refused? || s.procs[p].Popped?
    ensures Bounded(cpus, n, Next(cpus, s, p).value)
  {
    PlacesChange(s, Next(cpus, s, p).value, p);
    hide Places, HasPlace;
  }

  lemma StepKeepsBound(cpus: nat, n: nat, s: State, p: Pid)
    requires Bounded(cpus, n, s) && p < |s.procs| && Next(cpus, s, p).Some?
    ensures Bounded(cpus, n, Next(cpus, s, p).value)
  {
    hide Bounded;
    match s.procs[p]
    case Start | Generating => LockingKeepsBound(cpus, n, s, p);
    case Entered => ReadingKeepsBound(cpus, n, s, p);
    case Leaving => ReadingBackKeepsBound(cpus, n, s, p);
    case Read(_) | ReadBack(_) => EmptyingKeepsBound(cpus, n, s, p);
    case Emptied(_) | EmptiedBack(_) => FillingKeepsBound(cpus, n, s, p);
    case Pushed | Refused | Popped => ReleasingKeepsBound(cpus, n, s, p);
  }

  lemma StepKeepsInv(cpus: nat, n: nat, s: State, p: Pid)
    requires Inv(cpus, n, s) && p < |s.procs| && Next(cpus, s, p).Some?
    ensures Inv(cpus, n, Next(cpus, s, p).value)
  {
    StepKeepsBound(cpus, n, s, p);
    StepKeepsCounter(cpus, n, s, p);
    hide Bounded, Next;
  }

  lemma StepKeepsCounter(cpus: nat, n: nat, s: State, p: Pid)
    requires Inv(cpus, n, s) && p < |s.procs| && Next(cpus, s, p).Some?
    ensures var s' := Next(cpus, s, p).value; Counter(s') == None ==> Places(s') == {}
  {
    PlacesAfter(s, Next(cpus, s, p).value, p);
    assert p in Places(s) <==> HasPlace(s.procs[p]);
  }

  // A death keeps the invariant, but for one between emptying and filling the file,
  // unless it is the last process to come back and there is a place for each processor.
  lemma CrashKeepsInvIff(cpus: nat, n: nat, s: State, p: Pid)
    requires Inv(cpus, n, s) && p < |s.procs|
    ensures Inv(cpus, n, Crash(s, p)) <==>
            !InWrite(s.procs[p]) || (s.procs[p].EmptiedBack? && Places(s) == {} && n == cpus)
  {
    var s' := Crash(s, p);
    PlacesChange(s, s', p);
    if InWrite(s.procs[p]) {
      assert UpToDate(cpus, s, s.procs[p]) && HoldsLock(s.procs[p]);
      assert Counter(s') == None;
      if s.procs[p].Emptied? {
        assert p in Places(s');
      }
    }
  }

  // The bound itself is kept unless the number about to be written is another than that
  // of the processors, which the next process to come will take for it.
  lemma CrashKeepsBoundIff(cpus: nat, n: nat, s: State, p: Pid)
    requires Bounded(cpus, n, s) && p < |s.procs|
    ensures Bounded(cpus, n, Crash(s, p)) <==> !InWrite(s.procs[p]) || s.procs[p].count == cpus
    ensures InWrite(s.procs[p]) ==>
              |Places(s)| <= n && Places(Crash(s, p)) == Places(s) && Bounded(cpus, cpus + |Places(s)|, Crash(s, p))
  {
    var s' := Crash(s, p);
    PlacesChange(s, s', p);
    if InWrite(s.procs[p]) {
      assert UpToDate(cpus, s, s.procs[p]) && HoldsLock(s.procs[p]);
      assert Counter(s') == None;
    }
  }

  // One event: a step of a process, or its death.
  datatype Event = Goes(p: Pid) | Dies(p: Pid)

  predicate Happens(cpus: nat, s: State, e: Event, s': State) {
    && e.p < |s.procs|
    && match e
       case Goes(p) => Next(cpus, s, p) == Some(s')
       case Dies(p) => s' == Crash(s, p)
  }

  ghost predicate AnyRun(cpus: nat, ss: seq<State>, es: seq<Event>) {
    && |ss| == |es| + 1
    && (forall i {:trigger es[i]} | 0 <= i < |es| :: Happens(cpus, ss[i], es[i], ss[i + 1]))
  }

  // A death while the file is empty.
  predicate LosesCounter(s: State, e: Event) {
    e.Dies? && e.p < |s.procs| && InWrite(s.procs[e.p])
  }

  // A run without such deaths.
  ghost predicate Run(cpus: nat, ss: seq<State>, es: seq<Event>) {
    AnyRun(cpus, ss, es) && forall i | 0 <= i < |es| :: !LosesCounter(ss[i], es[i])
  }

  lemma EventKeepsInv(cpus: nat, n: nat, s: State, e: Event, s': State)
    requires Inv(cpus, n, s) && Happens(cpus, s, e, s') && !LosesCounter(s, e)
    ensures Inv(cpus, n, s')
  {
    hide Inv, Next, Crash;
    match e
    case Goes(p) => StepKeepsInv(cpus, n, s, p);
    case Dies(p) => CrashKeepsInvIff(cpus, n, s, p);
  }

  lemma {:induction false} RunKeepsInv(cpus: nat, n: nat, ss: seq<State>, es: seq<Event>, i: nat)
    requires Run(cpus, ss, es) && Inv(cpus, n, ss[0]) && i <= |es|
    ensures Inv(cpus, n, ss[i])
  {
    hide Inv, Happens, LosesCounter;
    if i > 0 {
      RunKeepsInv(cpus, n, ss, es, i - 1);
      EventKeepsInv(cpus, n, ss[i - 1], es[i - 1], ss[i]);
    }
  }

  // Never more than n generate at once; the places lost by deaths are not refilled.
  lemma BoundedGenerators(cpus: nat, n: nat, s: State)
    requires Bounded(cpus, n, s)
    ensures |Generators(s)| + |Lost(s)| <= n
    ensures s.file.Some? ==> 0 <= s.file.value && s.file.value + |Generators(s)| + |Lost(s)| <= n
  {
    hide Generators, Lost, Places;
    GeneratorsHavePlaces(s);
    if s.file.Some? {
      assert Counter(s) == s.file;
    }
  }

  lemma GeneratorsHavePlaces(s: State)
    ensures |Generators(s)| + |Lost(s)| <= |Places(s)|
  {
    var both := Generators(s) + Lost(s);
    assert Generators(s) * Lost(s) == {};
    assert both <= Places(s);
    SubsetSize(both, Places(s));
  }

  // So it is at every moment of every run.
  lemma AlwaysBounded(cpus: nat, file: Option<int>, ss: seq<State>, es: seq<Event>, procs: nat, i: nat)
    requires Run(cpus, ss, es) && ss[0] == Init(file, procs) && i <= |es|
    requires file.Some? ==> file.value >= 0
    ensures |Generators(ss[i])| + |Lost(ss[i])| <= if file == None then cpus else file.value
  {
    var n := if file == None then cpus else file.value;
    InitHasInv(cpus, file, procs);
    RunKeepsInv(cpus, n, ss, es, i);
    BoundedGenerators(cpus, n, ss[i]);
  }

  lemma {:induction false} SubsetSize(a: set<Pid>, b: set<Pid>)
    requires a <= b
    ensures |a| <= |b|
  {
    if p :| p in a {
      SubsetSize(a - {p}, b - {p});
    }
  }

  // ----- what is left of the bound when counters are lost

  // How many of the first i events lose the counter.
  function Losses(ss: seq<State>, es: seq<Event>, i: nat): nat
    requires i <= |es| < |ss|
  {
    if i == 0 then 0 else Losses(ss, es, i - 1) + if LosesCounter(ss[i - 1], es[i - 1]) then 1 else 0
  }

  lemma EventMovesBound(cpus: nat, n: nat, s: State, e: Event, s': State) returns (n': nat)
    requires Bounded(cpus, n, s) && Happens(cpus, s, e, s')
    ensures Bounded(cpus, n', s')
    ensures n' == if LosesCounter(s, e) then cpus + |Places(s)| else n
    ensures n' <= n + if LosesCounter(s, e) then cpus else 0
  {
    hide Bounded, Next, Crash, Places;
    n' := n;
    match e
    case Goes(p) => StepKeepsBound(cpus, n, s, p);
    case Dies(p) =>
      CrashKeepsBoundIff(cpus, n, s, p);
      if LosesCounter(s, e) {
        n' := cpus + |Places(s)|;
      }
  }

  // Each such death adds at most a place for each processor.
  lemma {:induction false} AnyRunIsBounded(cpus: nat, n: nat, ss: seq<State>, es: seq<Event>, i: nat) returns (n': nat)
    requires AnyRun(cpus, ss, es) && Bounded(cpus, n, ss[0]) && i <= |es|
    ensures Bounded(cpus, n', ss[i]) && n' <= n + cpus * Losses(ss, es, i)
  {
    hide Bounded, Happens, LosesCounter;
    n' := n;
    if i > 0 {
      n' := AnyRunIsBounded(cpus, n, ss, es, i - 1);
      n' := EventMovesBound(cpus, n', ss[i - 1], es[i - 1], ss[i]);
      var d := Losses(ss, es, i - 1);
      assert cpus * (d + 1) == cpus * d + cpus;
    }
  }

  // So many processes generate at most, at every moment of every run.
  lemma BoundedByLosses(cpus: nat, file: Option<int>, ss: seq<State>, es: seq<Event>, procs: nat, i: nat)
    requires AnyRun(cpus, ss, es) && ss[0] == Init(file, procs) && i <= |es|
    requires file.Some? ==> file.value >= 0
    ensures |Generators(ss[i])| + |Lost(ss[i])| <=
            (if file == None then cpus else file.value) + cpus * Losses(ss, es, i)
  {
    InitHasInv(cpus, file, procs);
    hide Bounded;
    var n' := AnyRunIsBounded(cpus, if file == None then cpus else file.value, ss, es, i);
    BoundedGenerators(cpus, n', ss[i]);
  }

  // After the counter is lost while places are taken, a place for each processor can be
  // taken besides these, and no more until it is lost again.
  lemma AfterLoss(cpus: nat, n: nat, s: State, p: Pid, ss: seq<State>, es: seq<Event>, i: nat)
    requires Bounded(cpus, n, s) && LosesCounter(s, Dies(p)) && ss != [] && ss[0] == Crash(s, p)
    requires AnyRun(cpus, ss, es) && i <= |es| && Losses(ss, es, i) == 0
    ensures |Generators(ss[i])| + |Lost(ss[i])| <= cpus + |Places(s)|
  {
    CrashKeepsBoundIff(cpus, n, s, p);
    hide Bounded, Places;
    var n' := AnyRunIsBounded(cpus, cpus + |Places(s)|, ss, es, i);
    BoundedGenerators(cpus, n', ss[i]);
  }

  // A process is refused only when all places are taken or lost.
  lemma RefusedOnlyWhenFull(cpus: nat, n: nat, s: State, p: Pid)
    requires Inv(cpus, n, s) && p < |s.procs| && Next(cpus, s, p).Some?
    requires s.procs[p] != Refused && Next(cpus, s, p).value.procs[p] == Refused
    ensures |Places(s)| == n
  {
    assert HoldsLock(s.procs[p]) && UpToDate(cpus, s, s.procs[p]);
  }

  // A process that comes back always finds the counter.
  lemma ComesBack(cpus: nat, n: nat, s: State, p: Pid)
    requires Inv(cpus, n, s) && p < |s.procs| && s.procs[p] == Leaving
    ensures s.file.Some? && Next(cpus, s, p) == Some(Move(s, p, ReadBack(s.file.value + 1)))
  {
    assert p in Places(s);
  }

  // When nobody has a place any more, the counter is back where it began, or was never set.
  lemma AllGivenBack(cpus: nat, n: nat, s: State)
    requires Inv(cpus, n, s) && s.holder == None && Generators(s) == {} && Lost(s) == {}
    ensures s.file == Some(n) || (s.file == None && n == cpus)
  {
    forall p: Pid | p < |s.procs|
      ensures !HasPlace(s.procs[p])
    {
      assert !HoldsLock(s.procs[p]);
      assert p !in Generators(s) && p !in Lost(s);
    }
    assert Places(s) == {};
  }

  // ----- a death between emptying and filling the file

  // The process takes k steps, as long as it can.
  function Steps(cpus: nat, s: State, p: Pid, k: nat): (s': State)
    requires p < |s.procs|
    ensures |s'.procs| == |s.procs|
  {
    if k == 0 then s
    else
      var t := Steps(cpus, s, p, k - 1);
      if Next(cpus, t, p).Some? then Next(cpus, t, p).value else t
  }

  function Found(cpus: nat, s: State): int {
    if s.file == None then cpus else s.file.value
  }

  // Three undisturbed steps empty the file, and two more let the process generate.
  lemma Admission(cpus: nat, s: State, p: Pid)
    requires p < |s.procs| && s.procs[p] == Start && s.holder == None && Found(cpus, s) > 0
    ensures Steps(cpus, s, p, 3) == State(None, Some(p), s.procs[p := Emptied(Found(cpus, s) - 1)])
    ensures Steps(cpus, s, p, 5) == State(Some(Found(cpus, s) - 1), None, s.procs[p := Generating])
  {
    var s1 := Enter(s, p, Entered);
    var s2 := Move(s1, p, Read(Found(cpus, s)));
    var s3 := Write(s2, p, None, Emptied(Found(cpus, s) - 1));
    var s4 := Write(s3, p, Some(Found(cpus, s) - 1), Pushed);
    assert Steps(cpus, s, p, 0) == s;
    assert Steps(cpus, s, p, 1) == s1;
    assert Steps(cpus, s, p, 2) == s2;
    assert Steps(cpus, s, p, 3) == s3;
    assert Steps(cpus, s, p, 4) == s4;
  }

  // Four let it go when no place is left, and leave the counter alone.
  lemma Refusal(cpus: nat, s: State, p: Pid)
    requires p < |s.procs| && s.procs[p] == Start && s.holder == None && Found(cpus, s) == 0
    ensures Steps(cpus, s, p, 4) == State(s.file, None, s.procs[p := Gone])
  {
    var s1 := Enter(s, p, Entered);
    var s2 := Move(s1, p, Read(0));
    assert Steps(cpus, s, p, 0) == s;
    assert Steps(cpus, s, p, 1) == s1;
    assert Steps(cpus, s, p, 2) == s2;
    assert Steps(cpus, s, p, 3) == Move(s2, p, Refused);
  }

  // A process that has generated takes the free lock and gives its place back in five
  // steps; the file is empty after the third.
  lemma GivingBack(cpus: nat, s: State, p: Pid, count: int)
    requires p < |s.procs| && s.procs[p] == Generating && s.holder == None && s.file == Some(count)
    ensures Steps(cpus, s, p, 3) == State(None, Some(p), s.procs[p := EmptiedBack(count + 1)])
    ensures Steps(cpus, s, p, 5) == State(Some(count + 1), None, s.procs[p := Gone])
  {
    var s1 := Enter(s, p, Leaving);
    var s2 := Move(s1, p, ReadBack(count + 1));
    var s3 := Write(s2, p, None, EmptiedBack(count + 1));
    assert Steps(cpus, s, p, 0) == s;
    assert Steps(cpus, s, p, 1) == s1;
    assert Steps(cpus, s, p, 2) == s2;
    assert Steps(cpus, s, p, 3) == s3;
    assert Steps(cpus, s, p, 4) == Write(s3, p, Some(count + 1), Popped);
  }

  // So a process that comes and goes undisturbed leaves the counter as it found it, or
  // as many as there are processors where there was none.
  lemma ThereAndBack(cpus: nat, s: State, p: Pid)
    requires p < |s.procs| && s.procs[p] == Start && s.holder == None && Found(cpus, s) > 0
    ensures Steps(cpus, Steps(cpus, s, p, 5), p, 5) == State(Some(Found(cpus, s)), None, s.procs[p := Gone])
  {
    Admission(cpus, s, p);
    GivingBack(cpus, Steps(cpus, s, p, 5), p, Found(cpus, s) - 1);
  }

  // The lost counter is guessed anew: with two processors, three processes generate.
  lemma LostCounter()
    ensures var s := Steps(2, Init(None, 4), 0, 5);
            var t := Crash(Steps(2, s, 1, 3), 1);
            var u := Steps(2, Steps(2, t, 2, 5), 3, 5);
            u.procs == [Generating, DiedInside, Generating, Generating]
  {
    var i := Init(None, 4);
    Admission(2, i, 0);
    var s := Steps(2, i, 0, 5);
    Admission(2, s, 1);
    var t := Crash(Steps(2, s, 1, 3), 1);
    Admission(2, t, 2);
    Admission(2, Steps(2, t, 2, 5), 3);
  }
}
