/** `struct hdr_interval_recorder` and its two operations, performed in place. Each method is the
    code between two atomic operations; other threads move in between. `Sample` is the whole of
    `hdr_interval_recorder_sample` with the polling loop of `hdr_phaser_flip_phase`, run against an
    arbitrary interference of the writers, and its effect is a run of the machine of `Recorder`. */
module IntervalRecorder {
  import opened Bits
  import opened Phaser
  import opened Recorder

  class Recording {
    var samples: multiset<int>

    constructor ()
      ensures samples == multiset{}
    {
      samples := multiset{};
    }
  }

  class IntervalRecorder {
    const phaser: WriterReaderPhaser
    const first: Recording
    const second: Recording
    var active: Recording
    var inactive: Recording

    var writers: map<nat, Writer>  // the local variables of the threads inside an update

    // program counters of the readers
    ghost var sampling: Sampling
    ghost var holder: nat
    ghost var leaving: set<nat>

    ghost predicate Valid()
      reads this
    {
      first != second && active in {first, second} && inactive in {first, second}
    }

    function SlotOf(r: Recording): Slot {
      if r == first then First else Second
    }

    function At(slot: Slot): Recording {
      if slot.First? then first else second
    }

    ghost function Abs(): State
      reads this, phaser, first, second
    {
      State(phaser.State(), SlotOf(active), SlotOf(inactive), first.samples, second.samples,
                  writers, sampling, holder, leaving)
    }

    constructor ()
      ensures Valid() && Abs() == START
      ensures fresh(phaser) && fresh(first) && fresh(second)
    {
      phaser := new WriterReaderPhaser();
      var a := new Recording();
      var b := new Recording();
      first, second, active, inactive := a, b, a, b;
      writers := map[];
      sampling, holder, leaving := Unlocked, 0, {};
    }

    // ----- hdr_interval_recorder_update, one atomic operation at a time

    method UpdateEnter(w: nat)
      requires Valid() && w !in writers
      modifies this`writers, phaser
      ensures Valid() && Abs() == Step(old(Abs()), Enter(w))
    {
      var val := phaser.WriterEnter();
      writers := writers[w := Arrived(val)];
    }

    method UpdateLoad(w: nat)
      requires Valid() && w in writers && writers[w].Arrived?
      modifies this`writers
      ensures Valid() && Abs() == Step(old(Abs()), Load(w))
    {
      writers := writers[w := Writing(writers[w].critical, SlotOf(active))];
    }

    method UpdateWrite(w: nat, x: int)
      requires Valid() && w in writers && writers[w].Writing?
      modifies first, second
      ensures Valid() && Abs() == Step(old(Abs()), Write(w, x))
    {
      var target := At(writers[w].target);
      target.samples := target.samples + multiset{x};
    }

    method UpdateExit(w: nat)
      requires Valid() && w in writers && writers[w].Writing?
      modifies this`writers, phaser
      ensures Valid() && Abs() == Step(old(Abs()), Exit(w))
    {
      phaser.WriterExit(writers[w].critical);
      writers := writers - {w};
    }

    /** One scheduling slice of the writers, between two operations of the reader. */
    method Interfere(slice: seq<Event>)
      requires Valid() && WriterSlice(slice)
      modifies this`writers, phaser, first, second
      ensures Valid() && Abs() == Run(old(Abs()), slice)
    {
      ghost var s := Abs();
      for i := 0 to |slice|
        invariant Valid() && Abs() == Run(s, slice[..i])
      {
        RunSplit(s, slice[..i], slice[i]);
        assert slice[..i + 1] == slice[..i] + [slice[i]];
        assert WriterEvent(slice[i]);
        match slice[i] {
          case Enter(w) => if w !in writers { UpdateEnter(w); }
          case Load(w) => if w in writers && writers[w].Arrived? { UpdateLoad(w); }
          case Write(w, x) => if w in writers && writers[w].Writing? { UpdateWrite(w, x); }
          case Exit(w) => if w in writers && writers[w].Writing? { UpdateExit(w); }
        }
      }
      assert slice[..|slice|] == slice;
    }

    // ----- hdr_interval_recorder_sample

    method LockMutex(reader: nat)
      requires Valid() && sampling.Unlocked? && reader !in leaving
      modifies this`sampling, this`holder
      ensures Valid() && Abs() == Step(old(Abs()), Lock(reader))
      ensures sampling == Locked && holder == reader
    {
      sampling, holder := Locked, reader;
    }

    // Each of the following is one operation of the reader, after a slice of the writers.

    method TakeInactive(slice: seq<Event>) returns (temp: Recording)
      requires Valid() && WriterSlice(slice) && sampling.Locked?
      modifies this`sampling, this`writers, phaser, first, second
      ensures Valid() && Abs() == ReaderStep(Run(old(Abs()), slice))
      ensures temp == inactive && sampling == TookInactive(SlotOf(temp))
    {
      hide Run, Step;
      Interfere(slice);
      temp := inactive;
      sampling := TookInactive(SlotOf(temp));
    }

    method StoreInactive(slice: seq<Event>, temp: Recording)
      requires Valid() && WriterSlice(slice) && sampling == TookInactive(SlotOf(temp))
      modifies this`sampling, this`inactive, this`writers, phaser, first, second
      ensures Valid() && Abs() == ReaderStep(Run(old(Abs()), slice))
      ensures sampling == StoredInactive(SlotOf(temp))
    {
      hide Run, Step;
      Interfere(slice);
      inactive := active;
      sampling := StoredInactive(SlotOf(temp));
    }

    method StoreActive(slice: seq<Event>, temp: Recording)
      requires Valid() && WriterSlice(slice) && temp in {first, second} && sampling == StoredInactive(SlotOf(temp))
      modifies this`sampling, this`active, this`writers, phaser, first, second
      ensures Valid() && Abs() == ReaderStep(Run(old(Abs()), slice))
      ensures sampling == Published
    {
      hide Run, Step;
      Interfere(slice);
      active := temp;
      sampling := Published;
    }

    method FlipReadStart(slice: seq<Event>) returns (nextEven: bool)
      requires Valid() && WriterSlice(slice) && sampling.Published?
      modifies this`sampling, this`writers, phaser, first, second
      ensures Valid() && Abs() == ReaderStep(Run(old(Abs()), slice))
      ensures sampling == ReadStart(nextEven)
    {
      hide Run, Step;
      Interfere(slice);
      var startEpoch := phaser.GetStartEpoch();
      nextEven := startEpoch < 0;
      sampling := ReadStart(nextEven);
    }

    method FlipClearNext(slice: seq<Event>, nextEven: bool) returns (initial: int)
      requires Valid() && WriterSlice(slice) && sampling == ReadStart(nextEven)
      modifies this`sampling, this`writers, phaser, first, second
      ensures Valid() && Abs() == ReaderStep(Run(old(Abs()), slice))
      ensures sampling == ClearedNext(nextEven) && initial == Base(!nextEven)
    {
      hide Run, Step;
      Interfere(slice);
      if nextEven {
        initial := 0;
        phaser.SetEndEpoch(true, initial);
      } else {
        initial := INT64_MIN;
        phaser.SetEndEpoch(false, initial);
      }
      sampling := ClearedNext(nextEven);
    }

    method FlipExchange(slice: seq<Event>, nextEven: bool, initial: int) returns (startAtFlip: int)
      requires Valid() && WriterSlice(slice) && sampling == ClearedNext(nextEven) && initial == Base(!nextEven)
      modifies this`sampling, this`writers, phaser, first, second
      ensures Valid() && Abs() == ReaderStep(Run(old(Abs()), slice))
      ensures sampling == Waiting(nextEven, startAtFlip)
    {
      hide Run, Step;
      Interfere(slice);
      startAtFlip := phaser.ResetStartEpoch(initial);
      sampling := Waiting(nextEven, startAtFlip);
    }

    method FlipPoll(slice: seq<Event>, nextEven: bool, startAtFlip: int) returns (caughtUp: bool)
      requires Valid() && WriterSlice(slice) && sampling == Waiting(nextEven, startAtFlip)
      modifies this`sampling, this`writers, phaser, first, second
      ensures Valid() && Abs() == ReaderStep(Run(old(Abs()), slice))
      ensures sampling == if caughtUp then CaughtUp else old(sampling)
      ensures Run(old(Abs()), slice).sampling == old(sampling)
    {
      hide Run, Step;
      Interfere(slice);
      var epoch := phaser.GetEndEpoch(!nextEven);
      caughtUp := epoch == startAtFlip;
      if caughtUp { sampling := CaughtUp; }
    }

    /** The swap of the two pointers. */
    method Swap(reader: nat, env: seq<seq<Event>>)
      requires Valid() && sampling.Unlocked? && reader !in leaving
      requires |env| >= 3 && AllWriterSlices(env)
      modifies this, phaser, first, second
      ensures Valid() && Abs() == Woven(old(Abs()), reader, env, 3)
      ensures sampling == Published && holder == reader
      ensures leaving == old(leaving)
    {
      hide Run, Step, ReaderStep, Weave, Inv, Woven, Abs, Valid, SlotOf;
      ghost var s := Abs();
      LockMutex(reader);
      WovenStart(s, reader, env);
      var temp := TakeInactive(env[0]);
      WovenStep(s, reader, env, 0);
      StoreInactive(env[1], temp);
      WovenStep(s, reader, env, 1);
      StoreActive(env[2], temp);
      WovenStep(s, reader, env, 2);
    }

    /** The flip up to the exchange of the start epoch. */
    method StartFlip(reader: nat, env: seq<seq<Event>>, ghost s: State) returns (nextEven: bool, startAtFlip: int)
      requires Valid() && sampling == Published
      requires |env| >= 6 && AllWriterSlices(env)
      requires Abs() == Woven(s, reader, env, 3)
      modifies this`sampling, this`writers, phaser, first, second
      ensures Valid() && Abs() == Woven(s, reader, env, 6)
      ensures sampling == Waiting(nextEven, startAtFlip)
    {
      hide Run, Step, ReaderStep, Weave, Inv, Woven, Abs, Valid, SlotOf;
      nextEven := FlipReadStart(env[3]);
      WovenStep(s, reader, env, 3);
      var initial := FlipClearNext(env[4], nextEven);
      WovenStep(s, reader, env, 4);
      startAtFlip := FlipExchange(env[5], nextEven, initial);
      WovenStep(s, reader, env, 5);
    }

    /** The polling loop of the flip, one slice of the writers before each poll. */
    method AwaitDrain(reader: nat, env: seq<seq<Event>>, nextEven: bool, startAtFlip: int, ghost s: State, ghost n: nat)
      returns (caughtUp: bool, used: nat)
      requires Valid() && sampling == Waiting(nextEven, startAtFlip)
      requires |env| >= 7 && AllWriterSlices(env)
      requires Abs() == Woven(s, reader, env, 6)
      requires Inv(s, n) && n + |Weave(reader, env)| < -INT64_MIN
      modifies this`sampling, this`writers, phaser, first, second
      ensures Valid() && 7 <= used <= |env|
      ensures Abs() == Woven(s, reader, env, used)
      ensures sampling == if caughtUp then CaughtUp else Waiting(nextEven, startAtFlip)
      ensures !caughtUp ==> used == |env|
      ensures Run(Woven(s, reader, env, used - 1), env[used - 1]).sampling == Waiting(nextEven, startAtFlip)
    {
      hide Run, Step, ReaderStep, Weave, Inv;
      used, caughtUp := 6, false;
      while !caughtUp && used < |env|
        invariant Valid() && 6 <= used <= |env| && (used == 6 ==> !caughtUp)
        invariant Abs() == Woven(s, reader, env, used)
        invariant sampling == if caughtUp then CaughtUp else Waiting(nextEven, startAtFlip)
        invariant used > 6 ==>
          Run(Woven(s, reader, env, used - 1), env[used - 1]).sampling == Waiting(nextEven, startAtFlip)
        decreases |env| - used
      {
        caughtUp := FlipPoll(env[used], nextEven, startAtFlip);
        WovenStep(s, reader, env, used);
        used := used + 1;
      }
    }

    method Unlock(reader: nat, slice: seq<Event>)
      requires Valid() && WriterSlice(slice) && sampling == CaughtUp && holder == reader
      modifies this`sampling, this`leaving, this`writers, phaser, first, second
      ensures Valid() && Abs() == ReaderStep(Run(old(Abs()), slice))
      ensures sampling.Unlocked? && leaving == old(leaving) + {reader}
    {
      hide Run, Step;
      Interfere(slice);
      sampling, leaving := Unlocked, leaving + {reader};
    }

    method ReadInactive(reader: nat, slice: seq<Event>) returns (result: Recording)
      requires Valid() && WriterSlice(slice) && reader in leaving
      modifies this`leaving, this`writers, phaser, first, second
      ensures Valid() && Abs() == Step(Run(old(Abs()), slice), Return(reader))
      ensures leaving == old(leaving) - {reader}
      ensures result == inactive
    {
      hide Run;
      Interfere(slice);
      result := inactive;
      leaving := leaving - {reader};
    }

    /** Unlock, and the read of `inactive` after it. */
    method Release(reader: nat, unlocking: seq<Event>, returning: seq<Event>) returns (result: Recording)
      requires Valid() && WriterSlice(unlocking) && WriterSlice(returning)
      requires sampling == CaughtUp && holder == reader && reader !in leaving
      modifies this`sampling, this`leaving, this`writers, phaser, first, second
      ensures Valid() && Abs() == Released(old(Abs()), reader, unlocking, returning)
      ensures sampling.Unlocked? && leaving == old(leaving)
      ensures result == inactive
    {
      hide Run, Step, ReaderStep, Abs;
      Unlock(reader, unlocking);
      result := ReadInactive(reader, returning);
    }

    /** A whole sample against any interference of the writers: the slices of `env`, one before each operation up to
        the last poll, of which `used` were consumed, then one before the unlock and one before the read of
        `inactive`. It is the run that weaves those slices with the reader's operations, and when it
        completes the recording it returns is no longer in the hands of any writer. A sample that ran
        out of slices is still polling, and a writer of the old phase is still inside. */
    method Sample(reader: nat, env: seq<seq<Event>>, unlocking: seq<Event>, returning: seq<Event>, ghost n: nat)
      returns (done: bool, result: Recording, used: nat)
      requires Valid() && sampling.Unlocked? && reader !in leaving
      requires |env| >= 7 && AllWriterSlices(env) && WriterSlice(unlocking) && WriterSlice(returning)
      requires Inv(Abs(), n) && n + |Weave(reader, env)| + |unlocking| + |returning| + 2 < -INT64_MIN
      modifies this, phaser, first, second
      ensures Valid() && 7 <= used <= |env|
      ensures done ==> Abs() == Released(Woven(old(Abs()), reader, env, used), reader, unlocking, returning)
      ensures done ==> sampling.Unlocked? && leaving == old(leaving)
      ensures done ==> result == inactive
      ensures done ==> InactiveQuiet(Abs())
      ensures !done ==> used == |env| && Abs() == Woven(old(Abs()), reader, env, used)
      ensures !done ==> sampling.Waiting? && InPhase(Abs(), sampling.nextEven) != {}
    {
      hide Run, Step, ReaderStep, Weave, Inv;
      ghost var s := Abs();
      Swap(reader, env);
      var nextEven, startAtFlip := StartFlip(reader, env, s);
      done, used := AwaitDrain(reader, env, nextEven, startAtFlip, s, n);
      result := inactive;
      WovenEnd(s, reader, env, used, n);
      if done {
        ReleasedQuiet(s, reader, env, used, unlocking, returning, n);
        result := Release(reader, unlocking, returning);
      }
    }
  }

  predicate WriterEvent(e: Event) {
    e.Enter? || e.Load? || e.Write? || e.Exit?
  }

  ghost predicate WriterSlice(slice: seq<Event>) {
    forall e | e in slice :: WriterEvent(e)
  }

  ghost predicate AllWriterSlices(env: seq<seq<Event>>) {
    forall i | 0 <= i < |env| :: WriterSlice(env[i])
  }

  /** The run of a reader that takes the mutex and then alternates with the slices of the writers. */
  function Weave(reader: nat, env: seq<seq<Event>>): seq<Event> {
    if env == [] then [Lock(reader)]
    else Weave(reader, env[..|env| - 1]) + env[|env| - 1] + [Reader]
  }

  /** The state after `k` operations of the reader. */
  ghost function Woven(s: State, reader: nat, env: seq<seq<Event>>, k: nat): State
    requires k <= |env|
  {
    Run(s, Weave(reader, env[..k]))
  }

  /** The state after the unlock and the return, with the writers in between. */
  ghost function Released(s: State, reader: nat, unlocking: seq<Event>, returning: seq<Event>): State {
    Step(Run(ReaderStep(Run(s, unlocking)), returning), Return(reader))
  }

  lemma WovenStart(s: State, reader: nat, env: seq<seq<Event>>)
    ensures Woven(s, reader, env, 0) == Step(s, Lock(reader))
  {
    RunSplit(s, [], Lock(reader));
    assert [] + [Lock(reader)] == Weave(reader, env[..0]);
  }

  lemma WovenStep(s: State, reader: nat, env: seq<seq<Event>>, k: nat)
    requires k < |env|
    ensures Woven(s, reader, env, k + 1) == ReaderStep(Run(Woven(s, reader, env, k), env[k]))
  {
    var t := Weave(reader, env[..k]);
    assert env[..k + 1][..k] == env[..k];
    RunConcat(s, t, env[k]);
    RunSplit(s, t + env[k], Reader);
  }

  lemma {:induction false} WeaveShorter(reader: nat, env: seq<seq<Event>>, k: nat)
    requires k <= |env|
    ensures |Weave(reader, env[..k])| + (if k < |env| then |env[k]| + 1 else 0) <= |Weave(reader, env)|
    decreases |env|
  {
    if k < |env| {
      var front := env[..|env| - 1];
      if k < |front| {
        WeaveShorter(reader, front, k);
        assert front[..k] == env[..k];
      }
    } else {
      assert env[..k] == env;
    }
  }

  lemma RunAfterSlice(s: State, reader: nat, env: seq<seq<Event>>, k: nat, n: nat) returns (m: nat)
    requires k < |env| && Inv(s, n) && n + |Weave(reader, env)| < -INT64_MIN
    ensures Inv(Run(Woven(s, reader, env, k), env[k]), m) && m + 1 < -INT64_MIN
  {
    hide Step, ReaderStep, Inv;
    WeaveShorter(reader, env, k);
    var trace := Weave(reader, env[..k]);
    RunConcat(s, trace, env[k]);
    RunKeepsInv(s, trace + env[k], n);
    m := n + |trace + env[k]|;
  }

  /** A poll ends the wait exactly when the old phase has drained. */
  lemma WovenEnd(s: State, reader: nat, env: seq<seq<Event>>, k: nat, n: nat)
    requires 1 <= k <= |env| && Inv(s, n) && n + |Weave(reader, env)| < -INT64_MIN
    requires Run(Woven(s, reader, env, k - 1), env[k - 1]).sampling.Waiting?
    ensures
      var t := Woven(s, reader, env, k);
      && (t.sampling.CaughtUp? ==> InactiveQuiet(t))
      && (t.sampling.Waiting? ==> InPhase(t, t.sampling.nextEven) != {})
  {
    hide Run, Weave, Step;
    var m := RunAfterSlice(s, reader, env, k - 1, n);
    WovenStep(s, reader, env, k - 1);
    var before := Run(Woven(s, reader, env, k - 1), env[k - 1]);
    WaitPoll(before, m);
    InPhaseSame(before, ReaderStep(before), before.sampling.nextEven);
    ReaderKeepsInv(before, m);
  }

  lemma OutsideSwapIsQuiet(s: State, n: nat)
    requires Inv(s, n) && OutsideSwap(s)
    ensures InactiveQuiet(s)
  {
  }

  lemma WritersKeepSampling(s: State, e: Event)
    requires WriterEvent(e)
    ensures Step(s, e).sampling == s.sampling && Step(s, e).holder == s.holder
  {
  }

  lemma {:induction false} SliceKeepsSampling(s: State, slice: seq<Event>)
    requires WriterSlice(slice)
    ensures Run(s, slice).sampling == s.sampling
    decreases |slice|
  {
    hide Step, WriterEvent;
    if slice != [] {
      var last := |slice| - 1;
      SliceKeepsSampling(s, slice[..last]);
      assert WriterEvent(slice[last]);
      WritersKeepSampling(Run(s, slice[..last]), slice[last]);
    }
  }

  lemma ReleasedQuiet(s: State, reader: nat, env: seq<seq<Event>>, k: nat, unlocking: seq<Event>,
                      returning: seq<Event>, n: nat)
    requires k <= |env| && Inv(s, n) && WriterSlice(unlocking) && WriterSlice(returning)
    requires n + |Weave(reader, env)| + |unlocking| + |returning| + 2 < -INT64_MIN
    requires Woven(s, reader, env, k).sampling.CaughtUp?
    ensures InactiveQuiet(Released(Woven(s, reader, env, k), reader, unlocking, returning))
  {
    hide Run, Step, Inv, Weave, InactiveQuiet;
    WeaveShorter(reader, env, k);
    var trace := Weave(reader, env[..k]);
    var t := Run(s, trace);
    RunKeepsInv(s, trace, n);
    var m := n + |trace|;
    RunKeepsInv(t, unlocking, m);
    SliceKeepsSampling(t, unlocking);
    var u := Run(t, unlocking);
    ReaderKeepsInv(u, m + |unlocking|);
    RunKeepsInv(ReaderStep(u), returning, m + |unlocking| + 1);
    SliceKeepsSampling(ReaderStep(u), returning);
    var v := Run(ReaderStep(u), returning);
    StepKeepsInv(v, Return(reader), m + |unlocking| + 1 + |returning|);
    ReturnKeepsSampling(v, reader);
    OutsideSwapIsQuiet(Step(v, Return(reader)), m + |unlocking| + |returning| + 2);
  }

  lemma ReturnKeepsSampling(s: State, reader: nat)
    ensures Step(s, Return(reader)).sampling == s.sampling
  {
  }
}
