/** The exclusive pid marker as a protocol: any number of processes claim, release and crash at any
    step over one marker file and one lock that the operating system drops when its holder dies.
    Each step below is one file-system or lock operation of the code. */
module PidMarker {

  type Pid = n: int | 0 < n witness 1

  /** What the marker file holds. `Named(n)` is a JSON object whose `pid` is the finite number `n`;
      every other content reads as unreadable. */
  datatype Content = Absent | Garbled | Named(pid: int)

  /** readPidMarkerOwner: the pid on record, if the file holds a usable one. */
  function OwnerOf(c: Content): (owner: int)
    ensures owner >= 0 && (owner > 0 <==> c.Named? && c.pid > 0)
    ensures owner > 0 ==> c == Named(owner)
  {
    if c.Named? && c.pid > 0 then c.pid else 0
  }

  /** Where a process stands in the code. */
  datatype Point =
    | Idle          // not inside a call
    | Creating      // claim entered, exclusive create not yet tried
    | Reading       // create met an existing file, first read still to come
    | Waiting       // first read found nobody alive, lock not yet held
    | Rechecking    // lock held, second read still to come
    | Replacing     // second read found nobody alive, overwrite still to come
    | Replaced      // overwrite done, lock still held, claim not yet returned
    | Releasing     // release read its own pid, unlink still to come

  /** `holders` are the processes whose last claim returned true and that have neither crashed nor
      begun to release since. */
  datatype State = State(file: Content, lock: set<Pid>, live: set<Pid>, at: map<Pid, Point>, holders: set<Pid>)

  function At(s: State, p: Pid): Point {
    if p in s.at then s.at[p] else Idle
  }

  function Go(s: State, p: Pid, pt: Point): State {
    s.(at := s.at[p := pt])
  }

  /** The content names a live process other than `p`: the one case in which `p` must keep off. */
  predicate LiveOther(c: Content, p: Pid, live: set<Pid>) {
    OwnerOf(c) > 0 && OwnerOf(c) != p && OwnerOf(c) in live
  }

  predicate HeldByOther(s: State, p: Pid) {
    LiveOther(s.file, p, s.live)
  }

  datatype Event =
    | Enter(p: Pid)
    | Create(p: Pid)
    | CreateThrows(p: Pid)
    | Read(p: Pid)
    | Acquire(p: Pid)
    | AcquireTimesOut(p: Pid)
    | Recheck(p: Pid)
    | Overwrite(p: Pid)
    | OverwriteThrows(p: Pid, garbles: bool)
    | Return(p: Pid)
    | BeginRelease(p: Pid)
    | Unlink(p: Pid)
    | Crash(p: Pid)

  /** Whether the event's process is alive and at the point of the code the event belongs to. */
  predicate Enabled(s: State, e: Event) {
    && e.p in s.live
    && match e {
         case Enter(p) => At(s, p) == Idle
         case Create(p) => At(s, p) == Creating
         case CreateThrows(p) => At(s, p) == Creating
         case Read(p) => At(s, p) == Reading
         case Acquire(p) => At(s, p) == Waiting && s.lock == {}
         case AcquireTimesOut(p) => At(s, p) == Waiting
         case Recheck(p) => At(s, p) == Rechecking
         case Overwrite(p) => At(s, p) == Replacing
         case OverwriteThrows(p, garbles) => At(s, p) == Replacing
         case Return(p) => At(s, p) == Replaced
         case BeginRelease(p) => At(s, p) == Idle
         case Unlink(p) => At(s, p) == Releasing
         case Crash(p) => true
       }
  }

  function Step(s: State, e: Event): State
    requires Enabled(s, e)
  {
    match e {
      case Enter(p) => Go(s, p, Creating)
      case Create(p) =>
        if s.file == Absent then Go(s, p, Idle).(file := Named(p), holders := s.holders + {p})
        else Go(s, p, Reading)
      case CreateThrows(p) => Go(s, p, Idle)
      case Read(p) =>
        if HeldByOther(s, p) then Go(s, p, Idle)
        else if OwnerOf(s.file) == p then Go(s, p, Idle).(holders := s.holders + {p})
        else Go(s, p, Waiting)
      case Acquire(p) => Go(s, p, Rechecking).(lock := {p})
      case AcquireTimesOut(p) => Go(s, p, Idle)
      case Recheck(p) =>
        if HeldByOther(s, p) then Go(s, p, Idle).(lock := {})
        else Go(s, p, Replacing)
      case Overwrite(p) => Go(s, p, Replaced).(file := Named(p))
      case OverwriteThrows(p, garbles) => Go(s, p, Idle).(file := if garbles then Garbled else s.file, lock := {})
      case Return(p) => Go(s, p, Idle).(lock := {}, holders := s.holders + {p})
      case BeginRelease(p) =>
        if OwnerOf(s.file) == p then Go(s, p, Releasing).(holders := s.holders - {p}) else s
      case Unlink(p) => Go(s, p, Idle).(file := Absent)
      case Crash(p) => s.(live := s.live - {p}, lock := s.lock - {p}, holders := s.holders - {p})
    }
  }

  predicate InsideLock(pt: Point) {
    pt in {Rechecking, Replacing, Replaced}
  }

  /** Between a create that met an existing file and the return of that claim. */
  predicate InWindow(pt: Point) {
    pt in {Reading, Waiting, Rechecking, Replacing, Replaced}
  }

  /** A live claimer has decided to overwrite and has not done so yet. */
  ghost predicate SomeoneInGap(s: State, but: Pid) {
    exists q: Pid :: q in s.live && q != but && At(s, q) == Replacing
  }

  /** The event is an exclusive create that succeeds inside another claimer's gap. */
  ghost predicate GapCreate(s: State, e: Event) {
    e.Create? && s.file == Absent && SomeoneInGap(s, e.p)
  }

  /** The event removes the marker while another live process is inside its claim window. */
  ghost predicate ReleaseInWindow(s: State, e: Event) {
    e.Unlink? && exists q: Pid :: q in s.live && q != e.p && InWindow(At(s, q))
  }

  ghost predicate Init(s: State) {
    s.lock == {} && s.holders == {} && forall p: Pid :: At(s, p) == Idle
  }

  /** `trace` is an execution that performs exactly `events`. */
  ghost predicate Run(trace: seq<State>, events: seq<Event>) {
    && |trace| == |events| + 1
    && Init(trace[0])
    && forall i :: 0 <= i < |events| ==> Enabled(trace[i], events[i]) && trace[i + 1] == Step(trace[i], events[i])
  }

  /** At most one process holds the marker, it is alive, and the marker names it. */
  ghost predicate Exclusive(s: State) {
    forall p: Pid :: p in s.holders ==> p in s.live && s.file == Named(p)
  }

  lemma ExclusiveMeansAtMostOne(s: State, p: Pid, q: Pid)
    requires Exclusive(s) && p in s.holders && q in s.holders
    ensures p == q
  {
    assert Named(p) == s.file == Named(q);
  }

  /** What every step keeps as long as no create falls into a gap. */
  ghost predicate Inv(s: State) {
    && Exclusive(s)
    && (forall p: Pid :: p in s.lock <==> p in s.live && InsideLock(At(s, p)))
    && (forall p: Pid, q: Pid :: p in s.lock && q in s.lock ==> p == q)
    && (forall p: Pid :: p in s.live && At(s, p) == Replacing ==> !HeldByOther(s, p))
    && (forall p: Pid :: p in s.live && At(s, p) in {Replaced, Releasing} ==> s.file == Named(p))
    && (forall p: Pid :: p in s.holders ==> At(s, p) in {Idle, Creating, Reading})
  }

  lemma StepKeepsInv(s: State, e: Event)
    requires Inv(s) && Enabled(s, e) && !GapCreate(s, e)
    ensures Inv(Step(s, e))
  {
    var t := Step(s, e);
    forall p: Pid ensures p != e.p ==> At(t, p) == At(s, p) {}
    assert e.Create? && s.file == Absent ==>
        forall q: Pid :: q in s.live && q != e.p ==> At(s, q) != Replacing;
    if e.Overwrite? {
      assert e.p in s.lock;
    }
  }

  /** A marker once present stays present for as long as some claim is in its window, when nobody
      releases inside another's window. */
  ghost predicate WindowInv(s: State) {
    forall p: Pid :: p in s.live && InWindow(At(s, p)) ==> s.file != Absent
  }

  lemma StepKeepsWindowInv(s: State, e: Event)
    requires Inv(s) && WindowInv(s) && Enabled(s, e) && !ReleaseInWindow(s, e)
    ensures !GapCreate(s, e)
    ensures WindowInv(Step(s, e))
  {
    var t := Step(s, e);
    forall p: Pid ensures p != e.p ==> At(t, p) == At(s, p) {}
    assert forall q: Pid :: At(s, q) == Replacing ==> InWindow(At(s, q));
  }

  lemma {:induction false} RunKeepsInv(trace: seq<State>, events: seq<Event>, n: nat)
    requires Run(trace, events) && n <= |events|
    requires forall i :: 0 <= i < n ==> !GapCreate(trace[i], events[i])
    ensures Inv(trace[n])
  {
    if n > 0 {
      RunKeepsInv(trace, events, n - 1);
      StepKeepsInv(trace[n - 1], events[n - 1]);
    }
  }

  lemma {:induction false} RunKeepsWindowInv(trace: seq<State>, events: seq<Event>, n: nat)
    requires Run(trace, events) && n <= |events|
    requires forall i :: 0 <= i < n ==> !ReleaseInWindow(trace[i], events[i])
    ensures Inv(trace[n]) && WindowInv(trace[n])
    ensures forall i :: 0 <= i < n ==> !GapCreate(trace[i], events[i])
  {
    if n > 0 {
      RunKeepsWindowInv(trace, events, n - 1);
      StepKeepsWindowInv(trace[n - 1], events[n - 1]);
      StepKeepsInv(trace[n - 1], events[n - 1]);
    }
  }

  /** MAIN: in every interleaving of any number of processes in which nobody releases inside another
      process's claim window, every state has at most one live holder and the marker names it. */
  lemma MutualExclusion(trace: seq<State>, events: seq<Event>)
    requires Run(trace, events)
    requires forall i :: 0 <= i < |events| ==> !ReleaseInWindow(trace[i], events[i])
    ensures forall i :: 0 <= i < |trace| ==> Exclusive(trace[i])
    ensures forall i, p: Pid, q: Pid :: 0 <= i < |trace| && p in trace[i].holders && q in trace[i].holders ==> p == q
  {
    forall i | 0 <= i < |trace|
      ensures Exclusive(trace[i])
      ensures forall p: Pid, q: Pid :: p in trace[i].holders && q in trace[i].holders ==> p == q
    {
      RunKeepsWindowInv(trace, events, i);
      forall p: Pid, q: Pid | p in trace[i].holders && q in trace[i].holders ensures p == q {
        ExclusiveMeansAtMostOne(trace[i], p, q);
      }
    }
  }

  /** The claimer sitting in the gap finishes its claim. */
  function FinishClaim(s: State, p: Pid): State
    requires p in s.live && At(s, p) == Replacing
  {
    Step(Step(s, Overwrite(p)), Return(p))
  }

  /** Exactness, step by step: from a state in which everything is in order, a create by `q` is one
      that the claimer `p` in its gap can turn into two live holders if and only if it is a gap
      create. */
  lemma GapCreateIsExactlyTheFault(s: State, p: Pid, q: Pid)
    requires Inv(s) && p in s.live && At(s, p) == Replacing
    requires q != p && Enabled(s, Create(q))
    ensures var t := Step(s, Create(q));
            At(t, p) == Replacing &&
            (GapCreate(s, Create(q)) <==> !Exclusive(FinishClaim(t, p)))
    ensures GapCreate(s, Create(q)) ==> {p, q} <= FinishClaim(Step(s, Create(q)), p).holders * s.live
  {
    var t := Step(s, Create(q));
    var u := FinishClaim(t, p);
    if s.file == Absent {
      assert SomeoneInGap(s, q);
      assert q in u.holders && u.file == Named(p);
    } else {
      StepKeepsInv(s, Create(q));
      StepKeepsInv(t, Overwrite(p));
      StepKeepsInv(Step(t, Overwrite(p)), Return(p));
    }
  }

  /** One step between two states written out in full. */
  ghost predicate Steps(s: State, e: Event, t: State) {
    Enabled(s, e) && t == Step(s, e)
  }

  /** A state of the three live processes 1, 2 and 3. */
  function Three(file: Content, lock: set<Pid>, a: Point, b: Point, c: Point, holders: set<Pid>): State {
    State(file, lock, {1, 2, 3}, map[1 := a, 2 := b, 3 := c], holders)
  }

  lemma TraceOfTheFirstClaim()
    ensures Steps(Three(Absent, {}, Idle, Idle, Idle, {}), Enter(1), Three(Absent, {}, Creating, Idle, Idle, {}))
    ensures Steps(Three(Absent, {}, Creating, Idle, Idle, {}), Create(1), Three(Named(1), {}, Idle, Idle, Idle, {1}))
    ensures Steps(Three(Named(1), {}, Idle, Idle, Idle, {1}), Enter(2), Three(Named(1), {}, Idle, Creating, Idle, {1}))
  {
  }

  lemma TraceOfTheRelease()
    ensures Steps(Three(Named(1), {}, Idle, Creating, Idle, {1}), Create(2),
                  Three(Named(1), {}, Idle, Reading, Idle, {1}))
    ensures Steps(Three(Named(1), {}, Idle, Reading, Idle, {1}), BeginRelease(1),
                  Three(Named(1), {}, Releasing, Reading, Idle, {}))
    ensures Steps(Three(Named(1), {}, Releasing, Reading, Idle, {}), Unlink(1),
                  Three(Absent, {}, Idle, Reading, Idle, {}))
    ensures ReleaseInWindow(Three(Named(1), {}, Releasing, Reading, Idle, {}), Unlink(1))
  {
    assert InWindow(At(Three(Named(1), {}, Releasing, Reading, Idle, {}), 2));
  }

  lemma TraceOfTheStaleClaim()
    ensures Steps(Three(Absent, {}, Idle, Reading, Idle, {}), Read(2), Three(Absent, {}, Idle, Waiting, Idle, {}))
    ensures Steps(Three(Absent, {}, Idle, Waiting, Idle, {}), Acquire(2),
                  Three(Absent, {2}, Idle, Rechecking, Idle, {}))
    ensures Steps(Three(Absent, {2}, Idle, Rechecking, Idle, {}), Recheck(2),
                  Three(Absent, {2}, Idle, Replacing, Idle, {}))
  {
  }

  lemma TraceOfTheGapCreate()
    ensures Steps(Three(Absent, {2}, Idle, Replacing, Idle, {}), Enter(3),
                  Three(Absent, {2}, Idle, Replacing, Creating, {}))
    ensures Steps(Three(Absent, {2}, Idle, Replacing, Creating, {}), Create(3),
                  Three(Named(3), {2}, Idle, Replacing, Idle, {3}))
    ensures Steps(Three(Named(3), {2}, Idle, Replacing, Idle, {3}), Overwrite(2),
                  Three(Named(2), {2}, Idle, Replaced, Idle, {3}))
    ensures Steps(Three(Named(2), {2}, Idle, Replaced, Idle, {3}), Return(2),
                  Three(Named(2), {}, Idle, Idle, Idle, {2, 3}))
  {
  }

  /** A run goes on with one more step. */
  lemma Extend(trace: seq<State>, events: seq<Event>, e: Event, t: State)
    returns (trace': seq<State>, events': seq<Event>)
    requires Run(trace, events) && Steps(trace[|trace| - 1], e, t)
    ensures Run(trace', events') && trace' == trace + [t] && events' == events + [e]
  {
    trace', events' := trace + [t], events + [e];
  }

  lemma RunUpToTheRelease() returns (trace: seq<State>, events: seq<Event>)
    ensures Run(trace, events) && |events| == 6 && ReleaseInWindow(trace[5], events[5])
    ensures trace[6] == Three(Absent, {}, Idle, Reading, Idle, {})
  {
    TraceOfTheFirstClaim();
    TraceOfTheRelease();
    trace, events := [Three(Absent, {}, Idle, Idle, Idle, {})], [];
    trace, events := Extend(trace, events, Enter(1), Three(Absent, {}, Creating, Idle, Idle, {}));
    trace, events := Extend(trace, events, Create(1), Three(Named(1), {}, Idle, Idle, Idle, {1}));
    trace, events := Extend(trace, events, Enter(2), Three(Named(1), {}, Idle, Creating, Idle, {1}));
    trace, events := Extend(trace, events, Create(2), Three(Named(1), {}, Idle, Reading, Idle, {1}));
    trace, events := Extend(trace, events, BeginRelease(1), Three(Named(1), {}, Releasing, Reading, Idle, {}));
    trace, events := Extend(trace, events, Unlink(1), Three(Absent, {}, Idle, Reading, Idle, {}));
  }

  lemma RunUpToTheGap() returns (trace: seq<State>, events: seq<Event>)
    ensures Run(trace, events) && |events| == 9 && ReleaseInWindow(trace[5], events[5])
    ensures trace[9] == Three(Absent, {2}, Idle, Replacing, Idle, {})
  {
    trace, events := RunUpToTheRelease();
    TraceOfTheStaleClaim();
    trace, events := Extend(trace, events, Read(2), Three(Absent, {}, Idle, Waiting, Idle, {}));
    trace, events := Extend(trace, events, Acquire(2), Three(Absent, {2}, Idle, Rechecking, Idle, {}));
    trace, events := Extend(trace, events, Recheck(2), Three(Absent, {2}, Idle, Replacing, Idle, {}));
  }

  /** The proviso is needed: from an absent marker, three live processes of which one releases inside
      another's window end with two live holders and a marker that names only one of them. */
  lemma ReleaseInsideWindowBreaksExclusion() returns (trace: seq<State>, events: seq<Event>)
    ensures Run(trace, events)
    ensures exists i :: 0 <= i < |events| && ReleaseInWindow(trace[i], events[i])
    ensures {2, 3} <= trace[|trace| - 1].holders * trace[|trace| - 1].live
    ensures trace[|trace| - 1].file == Named(2)
  {
    trace, events := RunUpToTheGap();
    TraceOfTheGapCreate();
    trace, events := Extend(trace, events, Enter(3), Three(Absent, {2}, Idle, Replacing, Creating, {}));
    trace, events := Extend(trace, events, Create(3), Three(Named(3), {2}, Idle, Replacing, Idle, {3}));
    trace, events := Extend(trace, events, Overwrite(2), Three(Named(2), {2}, Idle, Replaced, Idle, {3}));
    trace, events := Extend(trace, events, Return(2), Three(Named(2), {}, Idle, Idle, Idle, {2, 3}));
    assert ReleaseInWindow(trace[5], events[5]);
  }

  /** A process running its claim alone, from any state in which it is alive and idle and the lock is
      free: its steps, and whether the claim returned true. */
  function ClaimAlone(s: State, p: Pid): (r: (State, bool))
    requires p in s.live && At(s, p) == Idle && s.lock == {}
  {
    var s1 := Step(s, Enter(p));
    var s2 := Step(s1, Create(p));
    if At(s2, p) == Idle then (s2, true)
    else
      var s3 := Step(s2, Read(p));
      if At(s3, p) == Idle then (s3, OwnerOf(s2.file) == p)
      else
        var s4 := Step(s3, Acquire(p));
        var s5 := Step(s4, Recheck(p));
        if At(s5, p) == Idle then (s5, false)
        else (FinishClaim(s5, p), true)
  }

  /** A claim run alone with the lock free succeeds exactly when the marker does not name another
      live process: a crashed or unreadable owner never wedges the lock. It then holds the marker;
      otherwise the file and the holders are untouched. Either way the lock is free again. */
  lemma ClaimAloneSucceedsExactlyWhenNobodyAlive(s: State, p: Pid)
    requires p in s.live && At(s, p) == Idle && s.lock == {}
    ensures var (t, ok) := ClaimAlone(s, p);
            && (ok <==> !HeldByOther(s, p))
            && (ok ==> t.file == Named(p) && t.holders == s.holders + {p})
            && (!ok ==> t.file == s.file && t.holders == s.holders)
            && t.lock == {} && t.live == s.live && At(t, p) == Idle
  {
    var s2 := Step(Step(s, Enter(p)), Create(p));
    if s.file != Absent {
      assert s2.file == s.file && s2.live == s.live;
    }
  }

  /** Releasing with nobody else around gives the marker up, and only its own. */
  lemma ReleaseAloneRemovesOwnMarkerOnly(s: State, p: Pid)
    requires p in s.live && At(s, p) == Idle
    ensures var t := Step(s, BeginRelease(p));
            var u := if At(t, p) == Releasing then Step(t, Unlink(p)) else t;
            && (u.file == Absent <==> s.file == Absent || s.file == Named(p))
            && (s.file != Named(p) ==> u == s)
            && (s.file == Named(p) ==> p !in u.holders)
  {
  }

  /** What may throw during one claim: the create for another reason than an existing file, waiting for
      the lock, and the overwrite, which may have emptied the file first. */
  datatype Faults = Faults(create: bool, lock: bool, overwrite: bool, garbles: bool)

  datatype Answer = Yes | No | Threw

  /** The content is a marker of another process, and that process is alive. */
  ghost predicate NamesAnother(c: Content, me: Pid, live: set<Pid>) {
    exists q: Pid :: q in live && q != me && c == Named(q)
  }

  /** Keeping off is asked for exactly by a marker of another live process. */
  lemma KeepsOffExactly(c: Content, me: Pid, live: set<Pid>)
    ensures LiveOther(c, me, live) <==> NamesAnother(c, me, live)
  {
    if LiveOther(c, me, live) {
      var q: Pid := OwnerOf(c);
    }
  }

  /** The steps of one claim of `p`, with what is to throw, while other processes may bring the file to
      `meanwhile` before the lock is granted. The answer is true exactly if `p` holds the marker then. */
  ghost function ClaimRun(s: State, p: Pid, meanwhile: Content, faults: Faults): (State, Answer)
    requires p in s.live && At(s, p) == Idle && s.lock == {} && p !in s.holders
  {
    var s1 := Step(s, Enter(p));
    if faults.create then (Step(s1, CreateThrows(p)), Threw)
    else
      var s2 := Step(s1, Create(p));
      if At(s2, p) == Idle then (s2, Told(s2, p))
      else
        var s3 := Step(s2, Read(p));
        if At(s3, p) == Idle then (s3, Told(s3, p))
        else ReclaimRun(s3.(file := meanwhile), p, faults)
  }

  function Told(s: State, p: Pid): Answer {
    if p in s.holders then Yes else No
  }

  /** The steps from waiting for the lock on. */
  ghost function ReclaimRun(s: State, p: Pid, faults: Faults): (State, Answer)
    requires p in s.live && At(s, p) == Waiting && s.lock == {}
  {
    if faults.lock then (Step(s, AcquireTimesOut(p)), Threw)
    else
      var s1 := Step(Step(s, Acquire(p)), Recheck(p));
      if At(s1, p) == Idle then (s1, Told(s1, p))
      else if faults.overwrite then (Step(s1, OverwriteThrows(p, faults.garbles)), Threw)
      else
        var s2 := FinishClaim(s1, p);
        (s2, Told(s2, p))
  }

  /** What the steps of a claim come to, from what the file holds first and what it holds under the lock. */
  lemma ClaimRunExactly(s: State, p: Pid, meanwhile: Content, faults: Faults)
    requires p in s.live && At(s, p) == Idle && s.lock == {} && p !in s.holders
    ensures var (t, told) := ClaimRun(s, p, meanwhile, faults);
            && t.lock == {} && t.live == s.live && At(t, p) == Idle
            && (t.file, told) ==
                 if faults.create then (s.file, Threw)
                 else if s.file == Absent || s.file == Named(p) then (Named(p), Yes)
                 else if NamesAnother(s.file, p, s.live) then (s.file, No)
                 else if faults.lock then (meanwhile, Threw)
                 else if NamesAnother(meanwhile, p, s.live) then (meanwhile, No)
                 else if faults.overwrite then (if faults.garbles then Garbled else meanwhile, Threw)
                 else (Named(p), Yes)
  {
    KeepsOffExactly(s.file, p, s.live);
    var s2 := Step(Step(s, Enter(p)), Create(p));
    if s.file != Absent {
      assert s2.file == s.file && s2.live == s.live && At(s2, p) == Reading;
      if At(Step(s2, Read(p)), p) != Idle {
        ReclaimRunExactly(Step(s2, Read(p)).(file := meanwhile), p, faults);
      }
    }
  }

  lemma ReclaimRunExactly(s: State, p: Pid, faults: Faults)
    requires p in s.live && At(s, p) == Waiting && s.lock == {} && p !in s.holders
    ensures var (t, told) := ReclaimRun(s, p, faults);
            && t.lock == {} && t.live == s.live && At(t, p) == Idle
            && (t.file, told) ==
                 if faults.lock then (s.file, Threw)
                 else if NamesAnother(s.file, p, s.live) then (s.file, No)
                 else if faults.overwrite then (if faults.garbles then Garbled else s.file, Threw)
                 else (Named(p), Yes)
  {
    KeepsOffExactly(s.file, p, s.live);
  }

  /** With nobody else moving and nothing throwing these are the steps of a claim run alone. */
  lemma UndisturbedRun(s: State, p: Pid)
    requires p in s.live && At(s, p) == Idle && s.lock == {} && p !in s.holders
    ensures ClaimRun(s, p, s.file, Faults(false, false, false, false))
            == (ClaimAlone(s, p).0, if ClaimAlone(s, p).1 then Yes else No)
  {
    var s2 := Step(Step(s, Enter(p)), Create(p));
    if s.file != Absent {
      var s3 := Step(s2, Read(p));
      assert s3.(file := s.file) == s3;
    }
  }

  /** The marker file and its arbiter lock as one process works on them. */
  class MarkerFile {
    var file: Content
    var lock: set<Pid>

    constructor (file: Content)
      ensures this.file == file && lock == {}
    {
      this.file := file;
      lock := {};
    }

    /** The protocol state in which `live` are the live processes and none is inside a call. */
    ghost function View(live: set<Pid>): State
      reads this
    {
      State(file, lock, live, map[], {})
    }

    /** writeFileSync with the `wx` flag: creates the file or fails on an existing one. */
    method TryCreate(content: Content) returns (created: bool)
      requires content != Absent
      modifies this`file
      ensures created <==> old(file) == Absent
      ensures file == if created then content else old(file)
    {
      created := file == Absent;
      if created {
        file := content;
      }
    }

    /** claimPidMarker. `meanwhile` is what the file holds once the lock is granted: another process
        may have reclaimed the marker while this one waited. It takes the protocol's own steps, and gives
        the marker to the caller exactly if neither the first look nor the one under the lock finds another
        live process in it and nothing that is needed throws. */
    method ClaimPidMarker(me: Pid, live: set<Pid>, meanwhile: Content, faults: Faults) returns (answer: Answer)
      requires me in live && lock == {}
      modifies this
      ensures lock == {}
      ensures var (t, told) := ClaimRun(old(View(live)), me, meanwhile, faults);
              file == t.file && lock == t.lock && answer == told
      ensures answer == Yes <==>
                && !faults.create
                && (|| old(file) == Absent || old(file) == Named(me)
                    || (&& !NamesAnother(old(file), me, live) && !faults.lock
                        && !NamesAnother(meanwhile, me, live) && !faults.overwrite))
      ensures answer == No <==>
                && !faults.create
                && (|| NamesAnother(old(file), me, live)
                    || (&& old(file) != Absent && old(file) != Named(me) && !faults.lock
                        && NamesAnother(meanwhile, me, live)))
      ensures answer == Yes ==> file == Named(me)
      ensures answer == No ==> file == if NamesAnother(old(file), me, live) then old(file) else meanwhile
      ensures answer == Threw ==>
                file == if faults.create then old(file)
                        else if !faults.lock && faults.garbles then Garbled
                        else meanwhile
    {
      KeepsOffExactly(file, me, live);
      KeepsOffExactly(meanwhile, me, live);
      ClaimRunExactly(View(live), me, meanwhile, faults);
      if faults.create {
        return Threw;
      }
      var created := TryCreate(Named(me));
      if created {
        return Yes;
      }
      var owner := OwnerOf(file);
      if owner > 0 && owner != me && owner in live {
        return No;
      }
      if owner > 0 && owner == me {
        return Yes;
      }
      file := meanwhile;
      if faults.lock {
        return Threw;
      }
      lock := {me};
      var ownerUnderLock := OwnerOf(file);
      if ownerUnderLock > 0 && ownerUnderLock != me && ownerUnderLock in live {
        lock := {};
        return No;
      }
      if faults.overwrite {
        file := if faults.garbles then Garbled else file;
        lock := {};
        return Threw;
      }
      file := Named(me);
      lock := {};
      return Yes;
    }

    /** releasePidMarker: removes the marker only if it names the caller. */
    method ReleasePidMarker(me: Pid)
      modifies this`file
      ensures file == if old(file) == Named(me) then Absent else old(file)
    {
      if OwnerOf(file) != me {
        return;
      }
      file := Absent;
    }
  }
}
