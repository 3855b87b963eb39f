/**
 * The updaters as they run on several threads: an atomic get, work on a private copy, an atomic put, with nothing
 * to keep two of them apart.
 *
 * The state carries two histories: `puts`, every update that was put, and `lineage`, the updates whose effect the
 * stored document carries.
 */
module SharedState {
  import opened Options
  import opened StateDocument
  import opened Subsequences

  /** An update between its get and its put: the copy it read, and the histories at that moment. */
  datatype InFlight = InFlight(update: Update, copy: Summary, seen: seq<Update>, putsSeen: nat)

  datatype System = System(stored: Summary, lineage: seq<Update>, puts: seq<Update>, threads: map<nat, InFlight>)

  datatype Action = Get(thread: nat, update: Update) | Put(thread: nat)

  function Step(s: System, a: Action): System {
    match a
    case Get(t, u) =>
      if t in s.threads then s
      else s.(threads := s.threads[t := InFlight(u, s.stored, s.lineage, |s.puts|)])
    case Put(t) =>
      if t !in s.threads then s
      else
        var f := s.threads[t];
        match Apply(f.copy, f.update)
        case Write(d) => System(d, f.seen + [f.update], s.puts + [f.update], s.threads - {t})
        case _ => s.(threads := s.threads - {t})
  }

  /** Any interleaving of any number of updaters, from a stored document. */
  function Run(start: Summary, actions: seq<Action>): System {
    if actions == [] then System(start, [], [], map[])
    else Step(Run(start, actions[..|actions| - 1]), actions[|actions| - 1])
  }

  /** Stored document and copies are results of serial runs of some of the updates put, in the order of their puts. */
  ghost predicate Traceable(start: Summary, s: System) {
    && s.stored == Serial(start, s.lineage) && Subsequence(s.lineage, s.puts)
    && forall t :: t in s.threads ==>
                     && s.threads[t].copy == Serial(start, s.threads[t].seen)
                     && Subsequence(s.threads[t].seen, s.puts)
  }

  lemma StepStaysTraceable(start: Summary, s: System, a: Action)
    requires Traceable(start, s)
    ensures Traceable(start, Step(s, a))
  {
    if a.Put? && a.thread in s.threads {
      var f := s.threads[a.thread];
      var s' := Step(s, a);
      if Apply(f.copy, f.update).Write? {
        assert (f.seen + [f.update])[..|f.seen|] == f.seen;
        SubsequenceAppend(f.seen, s.puts, f.update);
        forall t | t in s'.threads
          ensures Subsequence(s'.threads[t].seen, s'.puts)
        {
          SubsequenceOfLonger(s.threads[t].seen, s.puts, f.update);
        }
      }
    }
  }

  /**
   * What survives every interleaving: the stored document is always the outcome of running some of the updates put
   * so far one after another, in the order of their puts. Lost updates leave no other trace.
   */
  lemma {:induction false} EveryDocumentIsSerial(start: Summary, actions: seq<Action>)
    ensures Traceable(start, Run(start, actions))
  {
    if actions != [] {
      EveryDocumentIsSerial(start, actions[..|actions| - 1]);
      StepStaysTraceable(start, Run(start, actions[..|actions| - 1]), actions[|actions| - 1]);
    }
  }

  lemma {:induction false} CountOfSubsequence(xs: seq<Update>, ys: seq<Update>, entry: string)
    requires Subsequence(xs, ys)
    ensures AlertCount(xs, entry) <= AlertCount(ys, entry)
  {
    if xs != [] {
      CountFromFront(ys, entry);
      if xs[0] == ys[0] && Subsequence(xs[1..], ys[1..]) {
        CountFromFront(xs, entry);
        CountOfSubsequence(xs[1..], ys[1..], entry);
      } else {
        CountOfSubsequence(xs, ys[1..], entry);
      }
    }
  }

  lemma {:induction false} CountFromFront(us: seq<Update>, entry: string)
    requires us != []
    ensures AlertCount(us, entry) ==
            (if us[0].Alert? && EntryOf(us[0].direction) == Some(entry) then 1 else 0) + AlertCount(us[1..], entry)
  {
    if |us| > 1 {
      CountFromFront(us[..|us| - 1], entry);
      assert us[1..][..|us| - 2] == us[..|us| - 1][1..];
    }
  }

  /** In every interleaving the stored document keeps its keys, and its supplies and counters stay non-negative. */
  lemma EveryInterleavingKeepsTheDocument(start: Summary, actions: seq<Action>)
    requires WellFormed(start)
    ensures WellFormed(Run(start, actions).stored)
  {
    EveryDocumentIsSerial(start, actions);
    SerialKeepsWellFormed(start, Run(start, actions).lineage);
  }

  /** So does every copy in flight, and no updater finds a counter missing. */
  lemma EveryCopyInFlightIsSound(start: Summary, actions: seq<Action>, t: nat)
    requires WellFormed(start) && t in Run(start, actions).threads
    ensures WellFormed(Run(start, actions).threads[t].copy)
    ensures Apply(Run(start, actions).threads[t].copy, Run(start, actions).threads[t].update) != Exit
  {
    EveryDocumentIsSerial(start, actions);
    var f := Run(start, actions).threads[t];
    SerialKeepsWellFormed(start, f.seen);
    UpdateKeepsWellFormed(f.copy, f.update);
  }

  /** No counter ever exceeds its start plus the alerts put for its entry. */
  lemma CountersNeverExceedPuts(start: Summary, actions: seq<Action>, entry: string)
    requires WellFormed(start) && entry in start.alerts
    ensures Counter(Run(start, actions).stored, entry) <= Counter(start, entry) + AlertCount(Run(start, actions).puts, entry)
  {
    var s := Run(start, actions);
    EveryDocumentIsSerial(start, actions);
    SerialCountsAlerts(start, s.lineage, entry);
    CountOfSubsequence(s.lineage, s.puts, entry);
  }

  /** This put, if it writes, comes after no other write since its get. */
  ghost predicate Undisturbed(s: System, a: Action) {
    a.Put? && a.thread in s.threads && Apply(s.threads[a.thread].copy, s.threads[a.thread].update).Write? ==>
      s.threads[a.thread].putsSeen == |s.puts|
  }

  ghost predicate NoOverlap(start: Summary, actions: seq<Action>) {
    actions == [] ||
    (NoOverlap(start, actions[..|actions| - 1]) && Undisturbed(Run(start, actions[..|actions| - 1]), actions[|actions| - 1]))
  }

  /** How far the histories of the copies and of the store can have drifted apart. */
  ghost predicate Aligned(s: System) {
    && |s.lineage| <= |s.puts|
    && forall t :: t in s.threads ==>
                     && |s.threads[t].seen| <= s.threads[t].putsSeen <= |s.puts|
                     && (s.threads[t].putsSeen == |s.puts| ==> s.threads[t].seen == s.lineage)
  }

  lemma {:induction false} FullIffNoOverlap(start: Summary, actions: seq<Action>)
    ensures Aligned(Run(start, actions))
    ensures |Run(start, actions).lineage| == |Run(start, actions).puts| <==> NoOverlap(start, actions)
  {
    hide Step, Undisturbed, Aligned;
    if actions != [] {
      var n := |actions| - 1;
      var before, a := actions[..n], actions[n];
      FullIffNoOverlap(start, before);
      StepKeepsAligned(Run(start, before), a);
    } else {
      NothingAligned(start);
    }
  }

  lemma NothingAligned(start: Summary)
    ensures Aligned(System(start, [], [], map[]))
  {
  }

  lemma StepKeepsAligned(s: System, a: Action)
    requires Aligned(s)
    ensures Aligned(Step(s, a))
    ensures |Step(s, a).lineage| == |Step(s, a).puts| <==> |s.lineage| == |s.puts| && Undisturbed(s, a)
  {
  }

  /**
   * No update is lost if and only if no write falls between another writer's get and its put. Then the store holds
   * what the updates would have produced one after another.
   */
  lemma NothingLostIffNoOverlap(start: Summary, actions: seq<Action>)
    ensures Run(start, actions).lineage == Run(start, actions).puts <==> NoOverlap(start, actions)
    ensures NoOverlap(start, actions) ==> Run(start, actions).stored == Serial(start, Run(start, actions).puts)
  {
    EveryDocumentIsSerial(start, actions);
    FullIffNoOverlap(start, actions);
    SubsequenceLength(Run(start, actions).lineage, Run(start, actions).puts);
  }

  // ---- Losses seen in the document: the alert counters. ----

  /** No updater creates the document anew. */
  ghost predicate NoCreation(actions: seq<Action>) {
    forall n :: 0 <= n < |actions| && actions[n].Get? ==> actions[n].update != Create
  }

  /** This put writes a copy that was read before an alert for the entry was put. */
  ghost predicate DropsAlert(s: System, a: Action, entry: string) {
    && a.Put? && a.thread in s.threads && Apply(s.threads[a.thread].copy, s.threads[a.thread].update).Write?
    && s.threads[a.thread].putsSeen <= |s.puts| && AlertCount(s.puts[s.threads[a.thread].putsSeen..], entry) > 0
  }

  ghost predicate NoAlertDropped(start: Summary, actions: seq<Action>, entry: string) {
    actions == [] ||
    (NoAlertDropped(start, actions[..|actions| - 1], entry)
     && !DropsAlert(Run(start, actions[..|actions| - 1]), actions[|actions| - 1], entry))
  }

  /** The stored counter has risen by all the alerts put for the entry. */
  ghost predicate CountsAll(start: Summary, s: System, entry: string) {
    Counter(s.stored, entry) == Counter(start, entry) + AlertCount(s.puts, entry)
  }

  ghost predicate AlwaysCountsAll(start: Summary, actions: seq<Action>, entry: string) {
    forall n :: 0 <= n <= |actions| ==> CountsAll(start, Run(start, actions[..n]), entry)
  }

  /** The history of the stored document and those of the copies contain all the alerts for the entry put before. */
  ghost predicate Counted(s: System, entry: string) {
    && AlertCount(s.lineage, entry) == AlertCount(s.puts, entry)
    && forall t :: t in s.threads ==> CopyCounted(s, t, entry)
  }

  ghost predicate CopyCounted(s: System, t: nat, entry: string)
    requires t in s.threads
  {
    s.threads[t].putsSeen <= |s.puts| &&
    AlertCount(s.threads[t].seen, entry) == AlertCount(s.puts[..s.threads[t].putsSeen], entry)
  }

  lemma {:induction false} AlertCountConcat(xs: seq<Update>, ys: seq<Update>, entry: string)
    ensures AlertCount(xs + ys, entry) == AlertCount(xs, entry) + AlertCount(ys, entry)
  {
    if ys == [] {
      assert xs + ys == xs;
    } else {
      AlertCountConcat(xs, ys[..|ys| - 1], entry);
      assert (xs + ys)[..|xs + ys| - 1] == xs + ys[..|ys| - 1];
    }
  }

  /** A get copies the history of the store; a put without a dropped alert keeps histories and puts in step. */
  lemma GetCounts(s: System, a: Action, entry: string)
    requires Counted(s, entry) && a.Get?
    ensures Counted(Step(s, a), entry) && Step(s, a).lineage == s.lineage && Step(s, a).puts == s.puts
  {
    hide AlertCount;
    assert s.puts[..|s.puts|] == s.puts;
    var s' := Step(s, a);
    forall t | t in s'.threads
      ensures CopyCounted(s', t, entry)
    {
      assert t in s.threads ==> CopyCounted(s, t, entry);
    }
  }

  /** What a written copy lacks are the alerts put since it was read. */
  lemma PutHistories(seen: seq<Update>, puts: seq<Update>, from: nat, u: Update, entry: string)
    requires from <= |puts| && AlertCount(seen, entry) == AlertCount(puts[..from], entry)
    ensures AlertCount(seen + [u], entry) + AlertCount(puts[from..], entry) == AlertCount(puts + [u], entry)
  {
    assert puts[..from] + puts[from..] == puts;
    AlertCountConcat(puts[..from], puts[from..], entry);
    AlertCountConcat(seen, [u], entry);
    AlertCountConcat(puts, [u], entry);
  }

  lemma CopiesStayCounted(s: System, s': System, entry: string)
    requires Counted(s, entry) && s.puts <= s'.puts
    requires forall t :: t in s'.threads ==> t in s.threads && s'.threads[t] == s.threads[t]
    ensures forall t :: t in s'.threads ==> CopyCounted(s', t, entry)
  {
    hide AlertCount;
    forall t | t in s'.threads
      ensures CopyCounted(s', t, entry)
    {
      assert CopyCounted(s, t, entry);
      assert s'.puts[..s.threads[t].putsSeen] == s.puts[..s.threads[t].putsSeen];
    }
  }

  lemma PutCounts(s: System, a: Action, entry: string)
    requires Counted(s, entry) && a.Put?
    ensures var s' := Step(s, a);
            if DropsAlert(s, a, entry) then AlertCount(s'.lineage, entry) < AlertCount(s'.puts, entry)
            else Counted(s', entry)
  {
    hide AlertCount, Apply;
    if a.thread in s.threads {
      var f := s.threads[a.thread];
      assert CopyCounted(s, a.thread, entry);
      PutHistories(f.seen, s.puts, f.putsSeen, f.update, entry);
      CopiesStayCounted(s, Step(s, a), entry);
      hide CopyCounted;
    }
  }

  lemma {:induction false} CountedUntilDropped(start: Summary, actions: seq<Action>, entry: string)
    requires NoAlertDropped(start, actions, entry)
    ensures Counted(Run(start, actions), entry)
  {
    if actions != [] {
      var before, a := Run(start, actions[..|actions| - 1]), actions[|actions| - 1];
      CountedUntilDropped(start, actions[..|actions| - 1], entry);
      if a.Get? {
        GetCounts(before, a, entry);
      } else {
        PutCounts(before, a, entry);
      }
    }
  }

  lemma {:induction false} NoCreationPut(start: Summary, actions: seq<Action>)
    requires NoCreation(actions)
    ensures Create !in Run(start, actions).puts
    ensures forall t :: t in Run(start, actions).threads ==> Run(start, actions).threads[t].update != Create
  {
    if actions != [] {
      NoCreationPut(start, actions[..|actions| - 1]);
    }
  }

  /** The stored counter is that of the store's history. */
  lemma CountsAllIffCounted(start: Summary, actions: seq<Action>, entry: string)
    requires WellFormed(start) && entry in start.alerts && NoCreation(actions)
    ensures var s := Run(start, actions);
            CountsAll(start, s, entry) <==> AlertCount(s.lineage, entry) == AlertCount(s.puts, entry)
  {
    var s := Run(start, actions);
    EveryDocumentIsSerial(start, actions);
    NoCreationPut(start, actions);
    SubsequenceMembers(s.lineage, s.puts);
    SerialCountsAlerts(start, s.lineage, entry);
    hide Run, Counter, AlertCount;
  }

  lemma AlwaysCountsAllSplits(start: Summary, actions: seq<Action>, entry: string)
    requires actions != []
    ensures AlwaysCountsAll(start, actions, entry) <==>
            AlwaysCountsAll(start, actions[..|actions| - 1], entry) && CountsAll(start, Run(start, actions), entry)
  {
    hide Run, CountsAll;
    var m := |actions| - 1;
    assert actions[..m + 1] == actions;
    assert forall n :: 0 <= n <= m ==> actions[..m][..n] == actions[..n];
  }

  /**
   * What the document shows while alerts, supplies and emergencies overlap in any way: its counter for an entry
   * never misses an alert put if and only if no updater ever writes a copy older than an alert put for that entry.
   * One run is judged at all its moments, because a later put of an even older copy may restore a lost count.
   */
  lemma {:induction false} CounterCompleteIffNoAlertDropped(start: Summary, actions: seq<Action>, entry: string)
    requires WellFormed(start) && entry in start.alerts && NoCreation(actions)
    ensures AlwaysCountsAll(start, actions, entry) <==> NoAlertDropped(start, actions, entry)
  {
    CountsAllIffCounted(start, actions, entry);
    if actions == [] {
      NothingCounted(start, entry);
    } else {
      var before, a := actions[..|actions| - 1], actions[|actions| - 1];
      CounterCompleteIffNoAlertDropped(start, before, entry);
      AlwaysCountsAllSplits(start, actions, entry);
      if NoAlertDropped(start, before, entry) {
        CountedUntilDropped(start, before, entry);
        if a.Get? {
          GetCounts(Run(start, before), a, entry);
        } else {
          PutCounts(Run(start, before), a, entry);
        }
      }
    }
    hide AlwaysCountsAll, CountsAll, Step, Apply, AlertCount, CopyCounted;
  }

  lemma NothingCounted(start: Summary, entry: string)
    ensures AlwaysCountsAll(start, [], entry)
  {
  }

  // ---- Which threads run which updaters. ----

  /** Thread 0, the select loop, runs all alerts and emergencies; the other threads serve supply requests. */
  ghost predicate OnProgramThreads(actions: seq<Action>) {
    forall n :: 0 <= n < |actions| && actions[n].Get? ==>
                  if actions[n].thread == 0 then actions[n].update.Alert? || actions[n].update.Emergency?
                  else actions[n].update.Supply?
  }

  /** No alert is put between the get and the put of thread 0, and the others carry supply updates. */
  ghost predicate AlertsOnThreadZero(s: System, entry: string) {
    && (forall t :: t in s.threads && t != 0 ==> s.threads[t].update.Supply?)
    && (0 in s.threads ==> s.threads[0].putsSeen <= |s.puts| && AlertCount(s.puts[s.threads[0].putsSeen..], entry) == 0)
  }

  lemma {:induction false} ProgramThreadsKept(start: Summary, actions: seq<Action>, entry: string)
    requires OnProgramThreads(actions)
    ensures AlertsOnThreadZero(Run(start, actions), entry)
  {
    if actions != [] {
      ProgramThreadsKept(start, actions[..|actions| - 1], entry);
      ProgramStep(Run(start, actions[..|actions| - 1]), actions[|actions| - 1], entry);
    }
  }

  lemma ProgramStep(s: System, a: Action, entry: string)
    requires AlertsOnThreadZero(s, entry) && OnProgramThreads([a])
    ensures AlertsOnThreadZero(Step(s, a), entry)
  {
    assert a.Get? ==> if a.thread == 0 then a.update.Alert? || a.update.Emergency? else a.update.Supply? by {
      assert [a][0] == a;
    }
    if a.Put? && a.thread in s.threads && a.thread != 0 && 0 in s.threads {
      var u := s.threads[a.thread].update;
      var from := s.threads[0].putsSeen;
      AlertCountConcat(s.puts[from..], [u], entry);
      assert (s.puts + [u])[from..] == s.puts[from..] + [u];
    }
  }

  /** In the program an alert is dropped only by a supply update of another thread, never by an alert or emergency. */
  lemma OnlySuppliesDropAlerts(start: Summary, actions: seq<Action>, a: Action, entry: string)
    requires OnProgramThreads(actions) && DropsAlert(Run(start, actions), a, entry)
    ensures a.thread != 0 && Run(start, actions).threads[a.thread].update.Supply?
  {
    ProgramThreadsKept(start, actions, entry);
  }

  /** A get followed at once by its put does to the store what the updater does when it runs alone. */
  lemma UndisturbedIsWritten(s: System, t: nat, u: Update)
    requires t !in s.threads
    ensures var after := Step(Step(s, Get(t, u)), Put(t));
            && after.stored == Written(s.stored, u) && after.threads == s.threads
            && after.puts == (if Apply(s.stored, u).Write? then s.puts + [u] else s.puts)
  {
    hide Apply;
    assert s.threads[t := InFlight(u, s.stored, s.lineage, |s.puts|)] - {t} == s.threads;
  }

  lemma RunStep(start: Summary, actions: seq<Action>, a: Action)
    ensures Run(start, actions + [a]) == Step(Run(start, actions), a)
  {
    assert (actions + [a])[..|actions|] == actions;
  }

  lemma FourSteps(start: Summary, a: Action, b: Action, c: Action, d: Action)
    ensures Run(start, [a, b, c, d]) == Step(Step(Step(Step(System(start, [], [], map[]), a), b), c), d)
  {
    hide Run, Step;
    RunStarts(start);
    RunStep(start, [], a);
    RunStep(start, [a], b);
    RunStep(start, [a, b], c);
    RunStep(start, [a, b, c], d);
    assert [] + [a] == [a] && [a] + [b] == [a, b] && [a, b] + [c] == [a, b, c] && [a, b, c] + [d] == [a, b, c, d];
  }

  /** Both of two updates that read the same document and are put one after the other. */
  lemma BothPut(start: Summary, u: Update, v: Update)
    requires Apply(start, u).Write? && Apply(start, v).Write?
    ensures var s := Step(Step(Step(Step(System(start, [], [], map[]), Get(1, u)), Get(0, v)), Put(0)), Put(1));
            s.puts == [v, u] && s.stored == Apply(start, u).summary
  {
    hide Apply;
    var s1 := Step(System(start, [], [], map[]), Get(1, u));
    var s2 := Step(s1, Get(0, v));
    assert s2.threads == map[1 := InFlight(u, start, [], 0), 0 := InFlight(v, start, [], 0)];
    var s3 := Step(s2, Put(0));
    assert s3.threads == map[1 := InFlight(u, start, [], 0)] && s3.puts == [v];
  }

  lemma AlertWrites(start: Summary, direction: string)
    requires WellFormed(start) && EntryOf(direction).Some?
    ensures Apply(start, Alert(direction)).Write?
  {
    EntriesAreKeys(direction);
    hide Initial, EntryOf;
  }

  lemma SupplyWrites(start: Summary, key: string, amount: nat)
    requires key in start.food || key in start.medicine
    ensures Apply(start, Supply(key, Int(amount))).Write?
    ensures Apply(start, Supply(key, Int(amount))).summary.alerts == start.alerts
  {
  }

  /** A supply update that reads before an alert is put and writes after it leaves the alert counters as they were. */
  lemma SupplyDropsAlert(start: Summary, key: string, amount: nat, direction: string)
    requires WellFormed(start) && EntryOf(direction).Some? && (key in start.food || key in start.medicine)
    ensures var supply, alert := Supply(key, Int(amount)), Alert(direction);
            var actions := [Get(1, supply), Get(0, alert), Put(0), Put(1)];
            && OnProgramThreads(actions)
            && Run(start, actions).puts == [alert, supply] && Run(start, actions).stored.alerts == start.alerts
  {
    var supply, alert := Supply(key, Int(amount)), Alert(direction);
    hide Run, Initial, EntryOf, Apply, Step, WellFormed;
    AlertWrites(start, direction);
    SupplyWrites(start, key, amount);
    FourSteps(start, Get(1, supply), Get(0, alert), Put(0), Put(1));
    BothPut(start, supply, alert);
  }

  lemma RunStarts(start: Summary)
    ensures Run(start, []) == System(start, [], [], map[])
  {
  }
}
