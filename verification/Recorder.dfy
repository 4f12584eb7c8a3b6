/** `hdr_interval_recorder.c` run by any number of writers and readers, one atomic operation at a
    time. A state holds the shared memory and where every thread is; an event names the thread that
    moves; a run is any sequence of events, so a statement about all runs is one about all
    interleavings. */
module Recorder {
  import opened Bits
  import opened Phaser

  /** The two recordings that `active` and `inactive` point to. */
  datatype Slot = First | Second

  /** A writer inside `hdr_interval_recorder_update`: after its enter, or holding the recording it loaded. */
  datatype Writer =
    | Arrived(critical: int)
    | Writing(critical: int, target: Slot)

  /** Where the reader that holds the mutex is inside `hdr_interval_recorder_sample`. */
  datatype Sampling =
    | Unlocked
    | Locked
    | TookInactive(temp: Slot)
    | StoredInactive(temp: Slot)
    | Published
    | ReadStart(nextEven: bool)
    | ClearedNext(nextEven: bool)
    | Waiting(nextEven: bool, startAtFlip: int)
    | CaughtUp

  datatype State = State(
    epochs: Epochs,
    active: Slot,
    inactive: Slot,
    first: multiset<int>,
    second: multiset<int>,
    writers: map<nat, Writer>,
    sampling: Sampling,
    holder: nat,           // the reader in the mutex, when `sampling` is not `Unlocked`
    leaving: set<nat>      // readers that released the mutex and have not yet read `inactive`
  )

  datatype Event =
    | Enter(writer: nat)
    | Load(writer: nat)
    | Write(writer: nat, sample: int)
    | Exit(writer: nat)
    | Lock(reader: nat)
    | Reader               // the next operation of the reader in the mutex
    | Return(reader: nat)
    | Reset                // the reader empties `inactive` between two samples

  function Contents(s: State, slot: Slot): multiset<int> {
    if slot.First? then s.first else s.second
  }

  function SetContents(s: State, slot: Slot, m: multiset<int>): State {
    if slot.First? then s.(first := m) else s.(second := m)
  }

  function Other(slot: Slot): Slot {
    if slot.First? then Second else First
  }

  const START := State(Phaser.INITIAL, First, Second, multiset{}, multiset{}, map[], Unlocked, 0, {})

  /** An event of a thread that is not at the corresponding point changes nothing. */
  function Step(s: State, e: Event): State {
    match e
    case Enter(w) =>
      if w in s.writers then s else
      var epochs := Entered(s.epochs);
      s.(epochs := epochs, writers := s.writers[w := Arrived(epochs.startEpoch)])
    case Load(w) =>
      if w in s.writers && s.writers[w].Arrived?
      then s.(writers := s.writers[w := Writing(s.writers[w].critical, s.active)])
      else s
    case Write(w, x) =>
      if w in s.writers && s.writers[w].Writing?
      then
        var target := s.writers[w].target;
        SetContents(s, target, Contents(s, target) + multiset{x})
      else s
    case Exit(w) =>
      if w in s.writers && s.writers[w].Writing?
      then s.(epochs := Exited(s.epochs, s.writers[w].critical), writers := s.writers - {w})
      else s
    case Lock(r) =>
      if s.sampling.Unlocked? && r !in s.leaving then s.(sampling := Locked, holder := r) else s
    case Reader => ReaderStep(s)
    case Return(r) => s.(leaving := s.leaving - {r})
    case Reset =>
      if s.sampling.Unlocked? && s.leaving == {} then SetContents(s, s.inactive, multiset{}) else s
  }

  function ReaderStep(s: State): State {
    match s.sampling
    case Unlocked => s
    case Locked => s.(sampling := TookInactive(s.inactive))
    case TookInactive(temp) => s.(inactive := s.active, sampling := StoredInactive(temp))
    case StoredInactive(temp) => s.(active := temp, sampling := Published)
    case Published => s.(sampling := ReadStart(s.epochs.startEpoch < 0))
    case ReadStart(nextEven) =>
      s.(epochs := SetEnd(s.epochs, !nextEven, Base(!nextEven)), sampling := ClearedNext(nextEven))
    case ClearedNext(nextEven) =>
      s.(epochs := s.epochs.(startEpoch := Base(!nextEven)), sampling := Waiting(nextEven, s.epochs.startEpoch))
    case Waiting(nextEven, startAtFlip) =>
      if End(s.epochs, nextEven) == startAtFlip then s.(sampling := CaughtUp) else s
    case CaughtUp => s.(sampling := Unlocked, leaving := s.leaving + {s.holder})
  }

  function Run(s: State, events: seq<Event>): State
    decreases |events|
  {
    if events == [] then s
    else Step(Run(s, events[..|events| - 1]), events[|events| - 1])
  }

  // ----- the invariant

  /** Writers that entered in the given phase and have not exited. */
  ghost function InPhase(s: State, odd: bool): set<nat> {
    set w | w in s.writers && Odd(s.writers[w].critical) == odd
  }

  /** Entries of a phase are its exits plus the writers still inside. */
  ghost predicate Balanced(s: State, odd: bool, entries: int, n: nat) {
    && Base(odd) <= End(s.epochs, odd)
    && End(s.epochs, odd) + |InPhase(s, odd)| == entries
    && entries <= Base(odd) + n
  }

  ghost predicate PointersDiffer(s: State) {
    match s.sampling
    case TookInactive(temp) => temp == s.inactive && s.inactive != s.active
    case StoredInactive(temp) => s.inactive == s.active && temp != s.active
    case _ => s.inactive != s.active
  }

  ghost predicate FlipConsistent(s: State, n: nat) {
    var odd := Odd(s.epochs.startEpoch);
    && Balanced(s, odd, s.epochs.startEpoch, n)
    && match s.sampling
       case Waiting(nextEven, startAtFlip) => odd == !nextEven && Balanced(s, nextEven, startAtFlip, n)
       case ReadStart(nextEven) => nextEven == odd && InPhase(s, !odd) == {}
       case ClearedNext(nextEven) =>
         nextEven == odd && InPhase(s, !odd) == {} && End(s.epochs, !odd) == Base(!odd)
       case _ => InPhase(s, !odd) == {}
  }

  /** The writers that may still hold the recording that is not active. */
  ghost predicate TargetsKnown(s: State) {
    match s.sampling
    case Published => true
    case ReadStart(_) => true
    case ClearedNext(_) => true
    case Waiting(nextEven, _) =>
      forall w | w in s.writers && s.writers[w].Writing? && Odd(s.writers[w].critical) == !nextEven ::
        s.writers[w].target == s.active
    case _ => AllWriteActive(s)
  }

  ghost predicate AllWriteActive(s: State) {
    forall w | w in s.writers && s.writers[w].Writing? :: s.writers[w].target == s.active
  }

  /** What holds after at most `n` events. */
  ghost predicate Inv(s: State, n: nat) {
    PointersDiffer(s) && FlipConsistent(s, n) && TargetsKnown(s)
  }

  lemma InPhaseAdd(s: State, t: State, w: nat, odd: bool)
    requires w !in s.writers && w in t.writers && t.writers.Keys == s.writers.Keys + {w}
    requires forall v | v in s.writers :: t.writers[v].critical == s.writers[v].critical
    ensures InPhase(t, odd) == if Odd(t.writers[w].critical) == odd then InPhase(s, odd) + {w} else InPhase(s, odd)
    ensures |InPhase(t, odd)| == |InPhase(s, odd)| + if Odd(t.writers[w].critical) == odd then 1 else 0
  {
    var was, now := InPhase(s, odd), InPhase(t, odd);
    assert forall v :: v in now <==> v in was || (v == w && Odd(t.writers[w].critical) == odd);
    assert now == if Odd(t.writers[w].critical) == odd then was + {w} else was;
  }

  lemma InPhaseSame(s: State, t: State, odd: bool)
    requires t.writers.Keys == s.writers.Keys
    requires forall v | v in s.writers :: t.writers[v].critical == s.writers[v].critical
    ensures InPhase(t, odd) == InPhase(s, odd)
  {
    assert forall v :: v in InPhase(t, odd) <==> v in InPhase(s, odd);
  }

  lemma EnterKeepsInv(s: State, w: nat, n: nat)
    requires Inv(s, n) && n + 1 < -INT64_MIN
    ensures Inv(Step(s, Enter(w)), n + 1)
  {
    if w !in s.writers {
      EnterFlip(s, w, n);
      EnterTargets(s, w, n);
      hide FlipConsistent, TargetsKnown, PointersDiffer, Entered;
    }
  }

  lemma EnterFlip(s: State, w: nat, n: nat)
    requires Inv(s, n) && n + 1 < -INT64_MIN && w !in s.writers
    ensures FlipConsistent(Step(s, Enter(w)), n + 1)
  {
    hide InPhase, TargetsKnown, PointersDiffer, Entered;
    EnterCounts(s, w, n, Odd(s.epochs.startEpoch));
    EnterCounts(s, w, n, !Odd(s.epochs.startEpoch));
  }

  lemma EnterTargets(s: State, w: nat, n: nat)
    requires Inv(s, n) && w !in s.writers
    ensures PointersDiffer(Step(s, Enter(w))) && TargetsKnown(Step(s, Enter(w)))
  {
    hide FlipConsistent, Entered;
  }

  lemma EnterCounts(s: State, w: nat, n: nat, odd: bool)
    requires Inv(s, n) && n + 1 < -INT64_MIN && w !in s.writers
    ensures
      var t := Step(s, Enter(w));
      && t.epochs == s.epochs.(startEpoch := s.epochs.startEpoch + 1)
      && Odd(t.epochs.startEpoch) == Odd(s.epochs.startEpoch)
      && InPhase(t, odd) == InPhase(s, odd) + (if odd == Odd(s.epochs.startEpoch) then {w} else {})
      && |InPhase(t, odd)| == |InPhase(s, odd)| + (if odd == Odd(s.epochs.startEpoch) then 1 else 0)
  {
    InPhaseAdd(s, Step(s, Enter(w)), w, odd);
  }

  lemma LoadKeepsInv(s: State, w: nat, n: nat)
    requires Inv(s, n)
    ensures Inv(Step(s, Load(w)), n + 1)
  {
    var t := Step(s, Load(w));
    if w in s.writers && s.writers[w].Arrived? {
      assert t.writers.Keys == s.writers.Keys;
    }
    InPhaseSame(s, t, true);
    InPhaseSame(s, t, false);
  }

  lemma ExitKeepsInv(s: State, w: nat, n: nat)
    requires Inv(s, n) && n + 1 < -INT64_MIN
    ensures Inv(Step(s, Exit(w)), n + 1)
  {
    if w in s.writers && s.writers[w].Writing? {
      ExitCounts(s, w, n, true);
      ExitCounts(s, w, n, false);
    }
  }

  lemma ExitCounts(s: State, w: nat, n: nat, odd: bool)
    requires Inv(s, n) && n + 1 < -INT64_MIN && w in s.writers && s.writers[w].Writing?
    ensures
      var t := Step(s, Exit(w));
      && t.epochs.startEpoch == s.epochs.startEpoch
      && InPhase(t, odd) == InPhase(s, odd) - {w}
      && End(t.epochs, odd) - End(s.epochs, odd) == |InPhase(s, odd)| - |InPhase(t, odd)|
      && End(t.epochs, odd) >= End(s.epochs, odd)
  {
    var t := Step(s, Exit(w));
    InPhaseAdd(t, s, w, odd);
    if odd == Odd(s.writers[w].critical) {
      assert w in InPhase(s, odd) && w !in InPhase(t, odd);
      assert Base(odd) <= End(s.epochs, odd) < Base(odd) + n;
    }
  }

  lemma ReaderKeepsInv(s: State, n: nat)
    requires Inv(s, n) && n + 1 < -INT64_MIN
    ensures Inv(ReaderStep(s), n + 1)
  {
    hide InPhase;
    var t := ReaderStep(s);
    InPhaseSame(s, t, true);
    InPhaseSame(s, t, false);
    match s.sampling
    case ClearedNext(nextEven) => NoneInPhase(s, !nextEven); ExchangeKeepsInv(s, n);
    case Waiting(nextEven, _) => if t.sampling.CaughtUp? { NoneInPhase(s, nextEven); }
    case _ =>
  }

  lemma ExchangeKeepsInv(s: State, n: nat)
    requires Inv(s, n) && s.sampling.ClearedNext?
    ensures Inv(ReaderStep(s), n + 1)
  {
    var t := ReaderStep(s);
    var nextEven := s.sampling.nextEven;
    InPhaseSame(s, t, nextEven);
    InPhaseSame(s, t, !nextEven);
    NoneInPhase(s, !nextEven);
    assert Odd(t.epochs.startEpoch) == !nextEven;
  }

  lemma NoneInPhase(s: State, odd: bool)
    requires InPhase(s, odd) == {}
    ensures forall w | w in s.writers :: Odd(s.writers[w].critical) == !odd
  {
    forall w | w in s.writers
      ensures Odd(s.writers[w].critical) == !odd
    {
      assert w !in InPhase(s, odd);
    }
  }

  /** Events that only move contents, histories or readers outside the flip. */
  lemma FrameKeepsInv(s: State, t: State, n: nat)
    requires Inv(s, n)
    requires t.epochs == s.epochs && t.writers == s.writers
    requires t.active == s.active && t.inactive == s.inactive
    requires t.sampling == s.sampling || (s.sampling.Unlocked? && t.sampling.Locked?)
    ensures Inv(t, n + 1)
  {
    InPhaseSame(s, t, true);
    InPhaseSame(s, t, false);
  }

  lemma FrameStepKeepsInv(s: State, e: Event, n: nat)
    requires Inv(s, n) && (e.Write? || e.Lock? || e.Return? || e.Reset?)
    ensures Inv(Step(s, e), n + 1)
  {
    hide Inv, ReaderStep, Entered, Exited;
    FrameKeepsInv(s, Step(s, e), n);
  }

  /** Every operation of every thread keeps the invariant. */
  lemma StepKeepsInv(s: State, e: Event, n: nat)
    requires Inv(s, n) && n + 1 < -INT64_MIN
    ensures Inv(Step(s, e), n + 1)
  {
    hide Inv, ReaderStep, Entered, Exited;
    match e
    case Enter(w) => EnterKeepsInv(s, w, n);
    case Load(w) => LoadKeepsInv(s, w, n);
    case Exit(w) => ExitKeepsInv(s, w, n);
    case Reader => ReaderKeepsInv(s, n);
    case _ => FrameStepKeepsInv(s, e, n);
  }

  lemma RunSplit(s: State, a: seq<Event>, e: Event)
    ensures Run(s, a + [e]) == Step(Run(s, a), e)
  {
    assert (a + [e])[..|a|] == a;
  }

  lemma {:induction false} RunConcat(s: State, a: seq<Event>, b: seq<Event>)
    ensures Run(s, a + b) == Run(Run(s, a), b)
    decreases |b|
  {
    if b == [] {
      assert a + b == a;
    } else {
      var front, last := b[..|b| - 1], b[|b| - 1];
      assert b == front + [last] && a + b == (a + front) + [last];
      RunConcat(s, a, front);
      RunSplit(s, a + front, last);
      RunSplit(Run(s, a), front, last);
    }
  }

  /** The invariant holds in every interleaving of fewer than 2^63 operations. */
  lemma {:induction false} RunKeepsInv(s: State, events: seq<Event>, n: nat)
    requires Inv(s, n) && n + |events| < -INT64_MIN
    ensures Inv(Run(s, events), n + |events|)
    decreases |events|
  {
    if events != [] {
      var last := |events| - 1;
      RunKeepsInv(s, events[..last], n);
      StepKeepsInv(Run(s, events[..last]), events[last], n + last);
    }
  }

  lemma EveryRunKeepsInv(events: seq<Event>)
    requires |events| < -INT64_MIN
    ensures Inv(Run(START, events), |events|)
  {
    assert InPhase(START, false) == {} && InPhase(START, true) == {};
    RunKeepsInv(START, events, 0);
  }

  // ----- safety of the recording handed out

  /** The reader is not between storing `inactive` and the end of the flip. */
  predicate OutsideSwap(s: State) {
    match s.sampling
    case Unlocked => true
    case Locked => true
    case TookInactive(_) => true
    case CaughtUp => true
    case _ => false
  }

  /** No writer holds the recording that is inactive. */
  ghost predicate InactiveQuiet(s: State) {
    forall w | w in s.writers && s.writers[w].Writing? :: s.writers[w].target != s.inactive
  }

  /** In every interleaving, when the flip returns no writer that loaded the recording now inactive
      is still before its exit; and so it stays until the next sample swaps it back. */
  lemma FlipIsSafe(events: seq<Event>)
    requires |events| < -INT64_MIN
    requires OutsideSwap(Run(START, events))
    ensures InactiveQuiet(Run(START, events))
  {
    EveryRunKeepsInv(events);
  }

  lemma QuietStep(s: State, e: Event, n: nat)
    requires Inv(s, n) && !e.Lock? && !e.Reset?
    requires s.sampling.CaughtUp? || s.sampling.Unlocked?
    ensures
      var t := Step(s, e);
      && (t.sampling.CaughtUp? || t.sampling.Unlocked?)
      && t.inactive == s.inactive
      && Contents(t, t.inactive) == Contents(s, s.inactive)
  {
  }

  /** What the reader got cannot change under it: until the next lock (or its own reset) no
      operation of any thread touches the inactive recording. */
  lemma {:induction false} InactiveUntouched(events: seq<Event>, later: seq<Event>)
    requires |events| + |later| < -INT64_MIN
    requires Run(START, events).sampling.CaughtUp? || Run(START, events).sampling.Unlocked?
    requires forall e | e in later :: !e.Lock? && !e.Reset?
    ensures
      var s, t := Run(START, events), Run(START, events + later);
      && (t.sampling.CaughtUp? || t.sampling.Unlocked?)
      && t.inactive == s.inactive
      && Contents(t, t.inactive) == Contents(s, s.inactive)
    decreases |later|
  {
    if later == [] {
      assert events + later == events;
    } else {
      var front, last := later[..|later| - 1], later[|later| - 1];
      assert events + later == (events + front) + [last];
      InactiveUntouched(events, front);
      EveryRunKeepsInv(events + front);
      RunSplit(START, events + front, last);
      QuietStep(Run(START, events + front), last, |events + front|);
    }
  }

  // ----- one sampling reader

  /** The next sample starts only after the previous one has returned. */
  ghost predicate SoleReader(events: seq<Event>) {
    forall i | 0 <= i < |events| && events[i].Lock? :: Run(START, events[..i]).leaving == {}
  }

  /** The inactive recording has been emptied when a sample starts. */
  ghost predicate EmptiedBeforeSampling(events: seq<Event>) {
    forall i | 0 <= i < |events| && events[i].Lock? ::
      Contents(Run(START, events[..i]), Run(START, events[..i]).inactive) == multiset{}
  }

  lemma PrefixDiscipline(events: seq<Event>, n: nat)
    requires n <= |events|
    ensures SoleReader(events) ==> SoleReader(events[..n])
    ensures EmptiedBeforeSampling(events) ==> EmptiedBeforeSampling(events[..n])
  {
    assert forall i | 0 <= i < n :: events[..n][..i] == events[..i];
  }

  ghost predicate OneLeaving(s: State) {
    s.leaving == {} || (s.leaving == {s.holder} && s.sampling.Unlocked?)
  }

  lemma OneLeavingStep(s: State, e: Event)
    requires OneLeaving(s) && (e.Lock? ==> s.leaving == {})
    ensures OneLeaving(Step(s, e))
  {
    assert e.Return? && e.reader in s.leaving ==> s.leaving - {e.reader} == {};
  }

  lemma {:induction false} SoleReaderLeavesUnlocked(events: seq<Event>)
    requires SoleReader(events)
    ensures OneLeaving(Run(START, events))
    decreases |events|
  {
    if events != [] {
      var last := |events| - 1;
      PrefixDiscipline(events, last);
      SoleReaderLeavesUnlocked(events[..last]);
      OneLeavingStep(Run(START, events[..last]), events[last]);
    }
  }

  /** With one sampling reader the pointer read after the unlock is safe too. */
  lemma SampleReturnsQuietRecording(events: seq<Event>, reader: nat)
    requires |events| < -INT64_MIN && SoleReader(events)
    requires reader in Run(START, events).leaving
    ensures InactiveQuiet(Run(START, events))
  {
    SoleReaderLeavesUnlocked(events);
    FlipIsSafe(events);
  }

  // ----- conservation of the updates

  /** Where a writer is in its program, from its own operations alone. */
  datatype Progress = Outside | Inside | Updating

  function ProgressOf(events: seq<Event>, w: nat): Progress {
    if events == [] then Outside
    else
      var before := ProgressOf(events[..|events| - 1], w);
      match events[|events| - 1]
      case Enter(v) => if v == w && before == Outside then Inside else before
      case Load(v) => if v == w && before == Inside then Updating else before
      case Exit(v) => if v == w && before == Updating then Outside else before
      case _ => before
  }

  /** The updates that were executed: the writes of writers that had loaded since they entered and not exited. */
  function Executed(events: seq<Event>): multiset<int> {
    if events == [] then multiset{}
    else
      var front, last := events[..|events| - 1], events[|events| - 1];
      Executed(front) +
        if last.Write? && ProgressOf(front, last.writer) == Updating then multiset{last.sample} else multiset{}
  }

  /** What the samples that returned were handed, each the inactive recording at its return. */
  function Handed(events: seq<Event>): multiset<int> {
    if events == [] then multiset{}
    else
      var front, last := events[..|events| - 1], events[|events| - 1];
      var s := Run(START, front);
      Handed(front) + if last.Return? && last.reader in s.leaving then Contents(s, s.inactive) else multiset{}
  }

  lemma ProgressStep(s: State, e: Event, w: nat, before: Progress, after: Progress)
    requires w in s.writers <==> before != Outside
    requires w in s.writers ==> (s.writers[w].Writing? <==> before == Updating)
    requires after ==
      if e == Enter(w) && before == Outside then Inside
      else if e == Load(w) && before == Inside then Updating
      else if e == Exit(w) && before == Updating then Outside
      else before
    ensures w in Step(s, e).writers <==> after != Outside
    ensures w in Step(s, e).writers ==> (Step(s, e).writers[w].Writing? <==> after == Updating)
  {
    hide Entered, Exited;
  }

  /** The machine agrees with the programs of the writers. */
  lemma {:induction false} ProgressIs(events: seq<Event>, w: nat)
    ensures w in Run(START, events).writers <==> ProgressOf(events, w) != Outside
    ensures w in Run(START, events).writers ==>
      (Run(START, events).writers[w].Writing? <==> ProgressOf(events, w) == Updating)
    decreases |events|
  {
    if events != [] {
      var front := events[..|events| - 1];
      ProgressIs(front, w);
      hide Step;
      ProgressStep(Run(START, front), events[|events| - 1], w, ProgressOf(front, w), ProgressOf(events, w));
    }
  }

  /** The updates are those handed out and those in the recordings; between samples the inactive recording has been
      handed out already. */
  ghost predicate Accounted(s: State, executed: multiset<int>, handed: multiset<int>) {
    if s.sampling.Unlocked? && s.leaving == {}
    then executed == handed + Contents(s, s.active)
    else executed == handed + s.first + s.second
  }

  lemma BothRecordings(s: State, slot: Slot)
    ensures s.first + s.second == Contents(s, slot) + Contents(s, Other(slot))
  {
  }

  lemma WriteAccounts(s: State, w: nat, x: int, n: nat, executed: multiset<int>, handed: multiset<int>)
    requires Inv(s, n) && Accounted(s, executed, handed)
    ensures
      var writes := w in s.writers && s.writers[w].Writing?;
      Accounted(Step(s, Write(w, x)), executed + (if writes then multiset{x} else multiset{}), handed)
  {
    var t := Step(s, Write(w, x));
    if w in s.writers && s.writers[w].Writing? {
      assert t.first + t.second == s.first + s.second + multiset{x};
    }
  }

  lemma ReturnAccounts(s: State, r: nat, n: nat, executed: multiset<int>, handed: multiset<int>)
    requires Inv(s, n) && OneLeaving(s) && Accounted(s, executed, handed) && r in s.leaving
    ensures
      var t := Step(s, Return(r));
      && t.leaving == {} && t.sampling.Unlocked?
      && Accounted(t, executed, handed + Contents(s, s.inactive))
  {
    var t := Step(s, Return(r));
    assert s.leaving - {r} == {};
    assert s.first + s.second == Contents(s, s.inactive) + Contents(s, s.active);
  }

  lemma ReaderAccounts(s: State, executed: multiset<int>, handed: multiset<int>)
    requires OneLeaving(s) && Accounted(s, executed, handed)
    ensures Accounted(Step(s, Reader), executed, handed)
  {
    var t := ReaderStep(s);
    assert t.first == s.first && t.second == s.second;
    assert s.sampling.CaughtUp? ==> s.holder in t.leaving;
  }

  lemma LockAccounts(s: State, r: nat, n: nat, executed: multiset<int>, handed: multiset<int>)
    requires Inv(s, n) && Accounted(s, executed, handed)
    requires s.leaving == {} && Contents(s, s.inactive) == multiset{}
    ensures Accounted(Step(s, Lock(r)), executed, handed)
  {
    BothRecordings(s, s.inactive);
  }

  lemma ResetAccounts(s: State, n: nat, executed: multiset<int>, handed: multiset<int>)
    requires Inv(s, n) && Accounted(s, executed, handed)
    ensures Accounted(Step(s, Reset), executed, handed)
  {
  }

  lemma WriterAccounts(s: State, e: Event, executed: multiset<int>, handed: multiset<int>)
    requires Accounted(s, executed, handed) && (e.Enter? || e.Load? || e.Exit?)
    ensures Accounted(Step(s, e), executed, handed)
  {
    hide Entered, Exited;
  }

  lemma ExecutedStep(front: seq<Event>, last: Event)
    ensures Executed(front + [last]) == Executed(front) +
      if last.Write? && ProgressOf(front, last.writer) == Updating then multiset{last.sample} else multiset{}
  {
    hide ProgressOf;
    assert (front + [last])[..|front|] == front;
  }

  lemma HandedStep(front: seq<Event>, last: Event)
    ensures
      var s := Run(START, front);
      Handed(front + [last]) == Handed(front) +
        if last.Return? && last.reader in s.leaving then Contents(s, s.inactive) else multiset{}
  {
    hide Run;
    assert (front + [last])[..|front|] == front;
  }

  lemma AccountedStep(front: seq<Event>, last: Event)
    requires var s := Run(START, front);
      && Inv(s, |front|) && OneLeaving(s) && Accounted(s, Executed(front), Handed(front))
      && (last.Lock? ==> s.leaving == {} && Contents(s, s.inactive) == multiset{})
    ensures Accounted(Step(Run(START, front), last), Executed(front + [last]), Handed(front + [last]))
  {
    ExecutedStep(front, last);
    HandedStep(front, last);
    hide Inv, Step, OneLeaving, Accounted, Executed, Handed, Run, ProgressOf;
    var s, n, executed, handed := Run(START, front), |front|, Executed(front), Handed(front);
    assert !last.Write? ==> Executed(front + [last]) == executed;
    assert !last.Return? || last.reader !in s.leaving ==> Handed(front + [last]) == handed;
    match last
    case Write(w, x) => ProgressIs(front, w); WriteAccounts(s, w, x, n, executed, handed);
    case Return(r) =>
      if r in s.leaving { ReturnAccounts(s, r, n, executed, handed); } else { NothingReturned(s, r); }
    case Reader => ReaderAccounts(s, executed, handed);
    case Lock(r) => LockAccounts(s, r, n, executed, handed);
    case Reset => ResetAccounts(s, n, executed, handed);
    case Enter(w) => WriterAccounts(s, last, executed, handed);
    case Load(w) => WriterAccounts(s, last, executed, handed);
    case Exit(w) => WriterAccounts(s, last, executed, handed);
  }

  lemma LastDiscipline(events: seq<Event>)
    requires events != [] && SoleReader(events) && EmptiedBeforeSampling(events)
    ensures
      var front, last := events[..|events| - 1], events[|events| - 1];
      var s := Run(START, front);
      && SoleReader(front) && EmptiedBeforeSampling(front)
      && (last.Lock? ==> s.leaving == {} && Contents(s, s.inactive) == multiset{})
  {
    hide Run;
    PrefixDiscipline(events, |events| - 1);
  }

  lemma {:induction false} RunIsAccounted(events: seq<Event>)
    requires |events| < -INT64_MIN
    requires SoleReader(events) && EmptiedBeforeSampling(events)
    ensures Accounted(Run(START, events), Executed(events), Handed(events))
    decreases |events|
  {
    hide Inv, Step, OneLeaving, Accounted, Run, SoleReader, EmptiedBeforeSampling;
    if events == [] {
      NothingYet();
    } else {
      var front, last := events[..|events| - 1], events[|events| - 1];
      hide Executed, Handed;
      LastDiscipline(events);
      RunIsAccounted(front);
      SoleReaderLeavesUnlocked(front);
      EveryRunKeepsInv(front);
      RunSplit(START, front, last);
      assert events == front + [last];
      AccountedStep(front, last);
    }
  }

  lemma NothingYet()
    ensures Accounted(Run(START, []), multiset{}, multiset{})
  {
  }

  /** At every point of a run with one sampling reader, which empties what it was handed before it samples again. */
  lemma RunAccounts(events: seq<Event>)
    requires |events| < -INT64_MIN
    requires SoleReader(events) && EmptiedBeforeSampling(events)
    ensures
      var s := Run(START, events);
      if s.sampling.Unlocked? && s.leaving == {} then Executed(events) == Handed(events) + Contents(s, s.active)
      else Executed(events) == Handed(events) + s.first + s.second
  {
    hide Run, Executed, Handed;
    RunIsAccounted(events);
  }

  lemma NothingReturned(s: State, r: nat)
    requires r !in s.leaving
    ensures Step(s, Return(r)) == s
  {
    assert s.leaving - {r} == s.leaving;
  }

  /** Conservation: when a sample returns, what has been handed out and the active recording together are exactly the
      updates executed, each counted once. */
  lemma SamplesConserveUpdates(events: seq<Event>, reader: nat)
    requires |events| + 1 < -INT64_MIN
    requires SoleReader(events) && EmptiedBeforeSampling(events)
    requires reader in Run(START, events).leaving
    ensures
      var s, t := Run(START, events), Run(START, events + [Return(reader)]);
      Executed(events) == Handed(events) + Contents(s, s.inactive) + Contents(t, t.active)
  {
    RunAccounts(events);
    var s := Run(START, events);
    RunSplit(START, events, Return(reader));
    SoleReaderLeavesUnlocked(events);
    EveryRunKeepsInv(events);
    BothRecordings(s, s.inactive);
    ReturnAccounts(s, reader, |events|, Executed(events), Handed(events));
    hide Executed, Handed, Run;
  }

  // ----- the wait of the flip

  lemma WaitPoll(s: State, n: nat)
    requires Inv(s, n) && s.sampling.Waiting?
    ensures ReaderStep(s).sampling == if InPhase(s, s.sampling.nextEven) == {} then CaughtUp else s.sampling
  {
    var old' := InPhase(s, s.sampling.nextEven);
    assert |old'| == 0 <==> old' == {};
  }

  lemma WaitEnter(s: State, w: nat, n: nat)
    requires Inv(s, n) && n + 1 < -INT64_MIN && s.sampling.Waiting?
    ensures InPhase(Step(s, Enter(w)), s.sampling.nextEven) == InPhase(s, s.sampling.nextEven)
  {
    if w !in s.writers { InPhaseAdd(s, Step(s, Enter(w)), w, s.sampling.nextEven); }
  }

  lemma ExitLeavesPhase(s: State, w: nat, odd: bool)
    requires w in s.writers && s.writers[w].Writing?
    ensures InPhase(Step(s, Exit(w)), odd) == InPhase(s, odd) - {w}
  {
    var t := Step(s, Exit(w));
    assert forall v :: v in InPhase(t, odd) <==> v in InPhase(s, odd) && v != w;
  }

  lemma WaitWriters(s: State, e: Event, n: nat)
    requires Inv(s, n) && n + 1 < -INT64_MIN && s.sampling.Waiting?
    ensures
      var old', now := InPhase(s, s.sampling.nextEven), InPhase(Step(s, e), s.sampling.nextEven);
      now == if e.Exit? && e.writer in s.writers && s.writers[e.writer].Writing? then old' - {e.writer} else old'
  {
    match e
    case Enter(w) => WaitEnter(s, w, n);
    case Exit(w) => if w in s.writers && s.writers[w].Writing? { ExitLeavesPhase(s, w, s.sampling.nextEven); }
    case _ => InPhaseSame(s, Step(s, e), s.sampling.nextEven);
  }

  /** One operation during the wait: nobody joins the old phase, each exit of one of its writers
      shrinks it, and the exit test of the loop is true exactly when it is empty. */
  lemma WaitStep(s: State, e: Event, n: nat)
    requires Inv(s, n) && n + 1 < -INT64_MIN && s.sampling.Waiting?
    ensures
      var old', now := InPhase(s, s.sampling.nextEven), InPhase(Step(s, e), s.sampling.nextEven);
      && now <= old'
      && (e.Exit? && e.writer in old' && s.writers[e.writer].Writing? ==> |now| == |old'| - 1 && e.writer !in now)
      && (Step(s, e).sampling == if e.Reader? && old' == {} then CaughtUp else s.sampling)
  {
    WaitWriters(s, e, n);
    if e.Reader? { WaitPoll(s, n); }
  }

  /** Writer `w` completes its update somewhere in the run. */
  ghost predicate Finishes(s: State, events: seq<Event>, w: nat) {
    exists i :: 0 <= i < |events| && FinishesAt(s, events, w, i)
  }

  ghost predicate FinishesAt(s: State, events: seq<Event>, w: nat, i: nat)
    requires i < |events|
  {
    var t := Run(s, events[..i]);
    events[i] == Exit(w) && w in t.writers && t.writers[w].Writing?
  }

  lemma FinishedBefore(s: State, events: seq<Event>, w: nat)
    requires Finishes(s, events, w)
    ensures var last := |events| - 1; Finishes(s, events[..last], w) || FinishesAt(s, events, w, last)
  {
    var i :| 0 <= i < |events| && FinishesAt(s, events, w, i);
    if i < |events| - 1 {
      assert events[..|events| - 1][..i] == events[..i];
      assert FinishesAt(s, events[..|events| - 1], w, i);
    }
  }

  lemma {:induction false} WaitRun(s: State, events: seq<Event>, n: nat)
    requires Inv(s, n) && n + |events| < -INT64_MIN && s.sampling.Waiting?
    requires forall e | e in events :: !e.Reader?
    ensures Run(s, events).sampling == s.sampling
    ensures Inv(Run(s, events), n + |events|)
    decreases |events|
  {
    RunKeepsInv(s, events, n);
    if events != [] {
      var front, last := events[..|events| - 1], events[|events| - 1];
      WaitRun(s, front, n);
      WaitStep(Run(s, front), last, n + |front|);
    }
  }

  lemma {:induction false} FinishedWriterLeft(s: State, events: seq<Event>, n: nat, w: nat)
    requires Inv(s, n) && n + |events| < -INT64_MIN && s.sampling.Waiting?
    requires forall e | e in events :: !e.Reader?
    ensures w in InPhase(Run(s, events), s.sampling.nextEven) ==>
      w in InPhase(s, s.sampling.nextEven) && !Finishes(s, events, w)
    decreases |events|
  {
    if events != [] {
      var front, last := events[..|events| - 1], events[|events| - 1];
      FinishedWriterLeft(s, front, n, w);
      WaitRun(s, front, n);
      WaitWriters(Run(s, front), last, n + |front|);
      if Finishes(s, events, w) { FinishedBefore(s, events, w); }
    }
  }

  /** Progress: once every writer of the old phase has completed its update, in whatever order and
      with whatever else going on, the next poll ends the wait. */
  lemma WaitEnds(s: State, events: seq<Event>, n: nat)
    requires Inv(s, n) && n + |events| < -INT64_MIN && s.sampling.Waiting?
    requires forall e | e in events :: !e.Reader?
    requires forall w | w in InPhase(s, s.sampling.nextEven) :: Finishes(s, events, w)
    ensures Run(s, events + [Reader]).sampling.CaughtUp?
  {
    WaitRun(s, events, n);
    forall w | w in InPhase(Run(s, events), s.sampling.nextEven)
      ensures false
    {
      FinishedWriterLeft(s, events, n, w);
    }
    RunSplit(s, events, Reader);
    WaitPoll(Run(s, events), n + |events|);
  }

  // ----- two sampling readers

  lemma Extend(events: seq<Event>, e: Event, s: State, t: State) returns (longer: seq<Event>)
    requires Run(START, events) == s && Step(s, e) == t
    ensures longer == events + [e] && Run(START, longer) == t
  {
    longer := events + [e];
    RunSplit(START, events, e);
  }

  /** Reader 1 completes a flip with nothing else going on and is about to read `inactive`. */
  lemma FirstReaderReleases() returns (events: seq<Event>)
    ensures Run(START, events) ==
      START.(epochs := Epochs(INT64_MIN, 0, INT64_MIN), active := Second, inactive := First, holder := 1,
             leaving := {1})
  {
    var s := START.(sampling := Locked, holder := 1);
    events := Extend([], Lock(1), START, s);
    events := Extend(events, Reader, s, s.(sampling := TookInactive(Second)));
    events := Extend(events, Reader, s.(sampling := TookInactive(Second)),
                     s.(inactive := First, sampling := StoredInactive(Second)));
    s := s.(inactive := First, active := Second, sampling := Published);
    events := Extend(events, Reader, s.(active := First, sampling := StoredInactive(Second)), s);
    events := Extend(events, Reader, s, s.(sampling := ReadStart(false)));
    events := Extend(events, Reader, s.(sampling := ReadStart(false)), s.(sampling := ClearedNext(false)));
    var t := s.(epochs := Epochs(INT64_MIN, 0, INT64_MIN), sampling := Waiting(false, 0));
    events := Extend(events, Reader, s.(sampling := ClearedNext(false)), t);
    events := Extend(events, Reader, t, t.(sampling := CaughtUp));
    events := Extend(events, Reader, t.(sampling := CaughtUp), t.(sampling := Unlocked, leaving := {1}));
  }

  /** With two readers the pointer read after the unlock is not safe: writer 0 starts on the recording
      now active, reader 2 swaps, and reader 1 is handed a recording that is still being written. */
  lemma OverlappingReadersShareLiveRecording() returns (events: seq<Event>)
    ensures 1 in Run(START, events).leaving
    ensures !InactiveQuiet(Run(START, events))
  {
    events := FirstReaderReleases();
    var s := START.(epochs := Epochs(INT64_MIN, 0, INT64_MIN), active := Second, inactive := First, holder := 1,
                    leaving := {1});
    var epochs := Epochs(INT64_MIN + 1, 0, INT64_MIN);
    var t := s.(epochs := epochs, writers := map[0 := Arrived(INT64_MIN + 1)]);
    var u := s.(epochs := epochs, writers := map[0 := Writing(INT64_MIN + 1, Second)]);
    events := Extend(events, Enter(0), s, t);
    events := Extend(events, Load(0), t, u);
    var v := u.(sampling := Locked, holder := 2);
    events := Extend(events, Lock(2), u, v);
    events := Extend(events, Reader, v, v.(sampling := TookInactive(First)));
    v := v.(sampling := TookInactive(First));
    events := Extend(events, Reader, v, v.(inactive := Second, sampling := StoredInactive(First)));
    assert 0 in Run(START, events).writers;
  }
}
