/** When the pointer that a sample reads after its unlock is safe, with any number of sampling readers. */
module Readers {
  import opened Bits
  import opened Phaser
  import opened Recorder

  /** Operations of all threads before reader `r` returns; only `lockers` try to take the mutex. */
  ghost predicate Before(later: seq<Event>, r: nat, lockers: iset<nat>) {
    forall e | e in later :: e != Return(r) && (e.Lock? ==> e.reader in lockers)
  }

  /** Whatever these operations are, no writer holds the recording that `r` would be given after them. */
  ghost predicate StaysQuiet(events: seq<Event>, r: nat, lockers: iset<nat>) {
    forall later | Before(later, r, lockers) && |events| + |later| < -INT64_MIN ::
      InactiveQuiet(Run(START, events + later))
  }

  /** No writer holds the inactive recording, and no reader is between taking the mutex and the end of its swap. */
  ghost predicate Settled(s: State) {
    InactiveQuiet(s) && !s.sampling.Locked? && !s.sampling.TookInactive? && !s.sampling.StoredInactive?
  }

  // ----- nobody else takes the mutex

  lemma SettledStep(s: State, e: Event, r: nat, n: nat)
    requires Inv(s, n) && Settled(s) && r in s.leaving
    requires e != Return(r) && (e.Lock? ==> e.reader == r)
    ensures Settled(Step(s, e)) && r in Step(s, e).leaving
  {
    hide FlipConsistent, TargetsKnown;
  }

  lemma {:induction false} RunStaysSettled(s: State, later: seq<Event>, r: nat, n: nat)
    requires Inv(s, n) && n + |later| < -INT64_MIN
    requires Settled(s) && r in s.leaving && Before(later, r, iset{r})
    ensures Settled(Run(s, later)) && r in Run(s, later).leaving
    decreases |later|
  {
    hide Settled, Inv, Step;
    if later != [] {
      var last := |later| - 1;
      RunStaysSettled(s, later[..last], r, n);
      RunKeepsInv(s, later[..last], n);
      SettledStep(Run(s, later[..last]), later[last], r, n + last);
    }
  }

  // ----- somebody does

  lemma RunCons(s: State, e: Event, rest: seq<Event>)
    ensures Run(s, [e] + rest) == Run(Step(s, e), rest)
  {
    RunSplit(s, [], e);
    assert [] + [e] == [e];
    RunConcat(s, [e], rest);
  }

  lemma {:induction false} Fresh(used: set<nat>) returns (w: nat)
    ensures forall v | v in used :: v < w
    decreases |used|
  {
    if used == {} {
      w := 0;
    } else {
      var v :| v in used;
      var rest := Fresh(used - {v});
      w := Max(rest, v + 1);
      assert forall u | u in used :: u == v || u in used - {v};
    }
  }

  /** Operations of writers and of the reader in the mutex; none is a lock or a return. */
  ghost predicate Harmless(later: seq<Event>) {
    forall e | e in later :: !e.Lock? && !e.Return?
  }

  lemma ArriveAndLoad(s: State, w: nat)
    requires w !in s.writers
    ensures
      var t := Step(Step(s, Enter(w)), Load(w));
      && w in t.writers && t.writers[w].Writing? && t.writers[w].target == s.active
      && t.active == s.active && t.inactive == s.inactive && t.sampling == s.sampling
  {
    hide Entered;
  }

  /** A writer that arrives before the swap has stored `inactive` ends up holding the recording that it stores. */
  lemma SpoilSwap(s: State, n: nat) returns (later: seq<Event>)
    requires Inv(s, n) && (s.sampling.Locked? || s.sampling.TookInactive? || s.sampling.StoredInactive?)
    ensures Harmless(later) && |later| <= 4 && !InactiveQuiet(Run(s, later))
  {
    hide FlipConsistent, TargetsKnown, Step, Run;
    var w := Fresh(s.writers.Keys);
    var readers := if s.sampling.Locked? then [Reader, Reader] else if s.sampling.TookInactive? then [Reader] else [];
    later := [Enter(w)] + ([Load(w)] + readers);
    ArriveAndLoad(s, w);
    var t := Step(Step(s, Enter(w)), Load(w));
    RunCons(s, Enter(w), [Load(w)] + readers);
    RunCons(Step(s, Enter(w)), Load(w), readers);
    ReaderSteps(t, readers);
    assert w in Run(s, later).writers && Run(s, later).writers[w] == t.writers[w];
  }

  lemma ReaderSteps(t: State, readers: seq<Event>)
    requires readers == [] || readers == [Reader] || readers == [Reader, Reader]
    ensures Run(t, readers) ==
      if readers == [] then t else if readers == [Reader] then ReaderStep(t) else ReaderStep(ReaderStep(t))
  {
    hide ReaderStep;
    if readers == [Reader] {
      RunCons(t, Reader, []);
      assert [Reader] + [] == readers;
    } else if readers == [Reader, Reader] {
      RunCons(t, Reader, [Reader]);
      RunCons(ReaderStep(t), Reader, []);
      assert [Reader] + [Reader] == readers && [Reader] + [] == [Reader];
    }
  }

  /** Every writer finishes its update. */
  lemma {:induction false} Drain(s: State) returns (later: seq<Event>)
    ensures Harmless(later) && (forall e | e in later :: !e.Reader?) && |later| == 2 * |s.writers|
    ensures Run(s, later).writers == map[]
    ensures Run(s, later).sampling == s.sampling && Run(s, later).leaving == s.leaving
    decreases |s.writers|
  {
    if s.writers == map[] {
      later := [];
    } else {
      var w :| w in s.writers;
      var t := Step(Step(s, Load(w)), Exit(w));
      assert t.writers.Keys == s.writers.Keys - {w};
      assert |t.writers| == |t.writers.Keys| && |s.writers| == |s.writers.Keys|;
      assert t.sampling == s.sampling && t.leaving == s.leaving;
      var rest := Drain(t);
      hide Step;
      RunCons(s, Load(w), [Exit(w)] + rest);
      RunCons(Step(s, Load(w)), Exit(w), rest);
      later := [Load(w)] + ([Exit(w)] + rest);
    }
  }

  function Stage(sampling: Sampling): nat {
    match sampling
    case Locked => 8
    case TookInactive(_) => 7
    case StoredInactive(_) => 6
    case Published => 5
    case ReadStart(_) => 4
    case ClearedNext(_) => 3
    case Waiting(_, _) => 2
    case CaughtUp => 1
    case Unlocked => 0
  }

  lemma FinishWait(s: State, n: nat) returns (later: seq<Event>)
    requires Inv(s, n) && s.sampling.Waiting? && n + 2 * |s.writers| < -INT64_MIN
    ensures Harmless(later) && |later| == 2 * |s.writers| + 1
    ensures Run(s, later).sampling.CaughtUp? && Run(s, later).leaving == s.leaving
    ensures Run(s, later).writers == map[]
  {
    var drained := Drain(s);
    RunKeepsInv(s, drained, n);
    var t := Run(s, drained);
    assert InPhase(t, s.sampling.nextEven) == {};
    WaitPoll(t, n + |drained|);
    hide Inv, Run;
    later := drained + [Reader];
    RunSplit(s, drained, Reader);
  }

  /** A flip under way can be brought to its end, so that the mutex is free. */
  lemma {:induction false} Finish(s: State, n: nat) returns (later: seq<Event>)
    requires Inv(s, n) && n + 2 * |s.writers| + Stage(s.sampling) < -INT64_MIN
    ensures Harmless(later) && |later| <= 2 * |s.writers| + Stage(s.sampling)
    ensures Run(s, later).sampling.Unlocked? && s.leaving <= Run(s, later).leaving
    decreases Stage(s.sampling)
  {
    hide Inv, Run;
    if s.sampling.Unlocked? {
      later := [];
      EmptyRun(s);
    } else if s.sampling.Waiting? {
      var wait := FinishWait(s, n);
      RunKeepsInv(s, wait, n);
      var rest := Finish(Run(s, wait), n + |wait|);
      RunConcat(s, wait, rest);
      later := wait + rest;
    } else {
      ReaderKeepsInv(s, n);
      var rest := Finish(ReaderStep(s), n + 1);
      RunCons(s, Reader, rest);
      later := [Reader] + rest;
    }
  }

  lemma EmptyRun(s: State)
    ensures Run(s, []) == s
  {
  }

  /** A second reader that may take the mutex can make the recording that `r` is given a live one. */
  lemma SecondReaderSpoils(s: State, r: nat, q: nat, n: nat) returns (later: seq<Event>)
    requires Inv(s, n) && r in s.leaving && q != r
    requires n + 2 * |s.writers| + 14 < -INT64_MIN
    ensures Before(later, r, iset{q}) && |later| <= 2 * |s.writers| + 14
    ensures !InactiveQuiet(Run(s, later)) && r in Run(s, later).leaving
  {
    var free := Finish(s, n);
    var t := Run(s, free);
    var u := Step(t, Return(q));
    var v := Step(u, Lock(q));
    RunKeepsInv(s, free, n);
    StepKeepsInv(t, Return(q), n + |free|);
    StepKeepsInv(u, Lock(q), n + |free| + 1);
    assert v.sampling.Locked?;
    var spoil := SpoilSwap(v, n + |free| + 2);
    RunCons(t, Return(q), [Lock(q)] + spoil);
    RunCons(u, Lock(q), spoil);
    RunConcat(s, free, [Return(q)] + ([Lock(q)] + spoil));
    later := free + ([Return(q)] + ([Lock(q)] + spoil));
    hide Inv;
    HarmlessKeepsLeaving(v, spoil, r);
  }

  lemma {:induction false} HarmlessKeepsLeaving(s: State, later: seq<Event>, r: nat)
    requires Harmless(later) && r in s.leaving
    ensures r in Run(s, later).leaving
    decreases |later|
  {
    if later != [] { HarmlessKeepsLeaving(s, later[..|later| - 1], r); }
  }

  lemma {:induction false} WritersBound(events: seq<Event>)
    ensures |Run(START, events).writers| <= |events|
    decreases |events|
  {
    if events != [] {
      var front, last := events[..|events| - 1], events[|events| - 1];
      WritersBound(front);
      OneWriterMore(Run(START, front), last);
    }
  }

  lemma WritersAfter(s: State, e: Event)
    ensures Step(s, e).writers.Keys <= s.writers.Keys + if e.Enter? then {e.writer} else {}
  {
    hide Entered, Exited;
  }

  lemma OneWriterMore(s: State, e: Event)
    ensures |Step(s, e).writers| <= |s.writers| + 1
  {
    hide Step;
    WritersAfter(s, e);
    var t := Step(s, e);
    assert |t.writers| == |t.writers.Keys| && |s.writers| == |s.writers.Keys|;
    Smaller(t.writers.Keys, s.writers.Keys + if e.Enter? then {e.writer} else {});
  }

  lemma Smaller(a: set<nat>, b: set<nat>)
    requires a <= b
    ensures |a| <= |b|
  {
    assert b == a + (b - a);
  }

  /** From any reachable state in which `r` has released the mutex and not yet read `inactive`: the recording it is
      going to be given stays out of the hands of the writers, whatever happens before it returns, exactly when it is
      settled now and no reader but `r` may take the mutex in the meantime. */
  lemma ReturnIsSafeIff(events: seq<Event>, r: nat, lockers: iset<nat>)
    requires 3 * |events| + 16 < -INT64_MIN
    requires r in Run(START, events).leaving
    ensures StaysQuiet(events, r, lockers) <==> Settled(Run(START, events)) && lockers <= iset{r}
  {
    hide Inv, Run, Step, InactiveQuiet;
    var s := Run(START, events);
    EveryRunKeepsInv(events);
    WritersBound(events);
    if Settled(s) && lockers <= iset{r} {
      forall later | Before(later, r, lockers) && |events| + |later| < -INT64_MIN
        ensures InactiveQuiet(Run(START, events + later))
      {
        RunConcat(START, events, later);
        RunStaysSettled(s, later, r, |events|);
      }
    } else {
      var later: seq<Event> := [];
      if !InactiveQuiet(s) {
        assert events + later == events;
      } else if !Settled(s) {
        later := SpoilSwap(s, |events|);
      } else {
        var q :| q in lockers && q != r;
        later := SecondReaderSpoils(s, r, q, |events|);
      }
      RunConcat(START, events, later);
      assert Before(later, r, lockers) && !InactiveQuiet(Run(START, events + later));
    }
  }
}
