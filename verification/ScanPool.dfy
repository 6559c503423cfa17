/** The scan worker pool (internal/discovery/unified_scanner.go, runScanWithOptions) as
    interleaved atomic steps of one dispatcher and one worker per host. */
module ScanPool {
  import opened Text

  /** Where a host's worker is. Between Probing and Saved it holds a semaphore slot. */
  datatype Phase =
    | Idle      // not dispatched
    | Probing   // discovering the host
    | Hit       // a device was found, foundCount not yet raised
    | Ready     // about to publish progress
    | Saved     // progress published, slot not yet released
    | Released  // slot released, wait group not yet signalled
    | Finished

  datatype Dispatcher = Looping | Sending | Waiting | Over | Stopped

  datatype Status = Running | Completed | Failed

  datatype State = State(
    phase: seq<Phase>,
    hits: set<nat>,         // hosts whose discovery returned a device
    next: nat,              // the dispatch loop's index
    pc: Dispatcher,
    slots: nat,             // semaphore slots taken
    group: nat,             // wait group counter
    foundCount: nat,
    scannedHosts: nat,
    foundHosts: nat,
    status: Status,
    starts: multiset<nat>,      // dispatches so far
    publishes: multiset<nat>)   // progress publications so far

  datatype Action =
    | Add | Send | LoopEnd | Complete | Cancel
    | Probe(host: nat, device: bool) | CountHit(host: nat) | Publish(host: nat) | Release(host: nat) | Done(host: nat)

  function Init(hosts: nat): State {
    State(seq(hosts, _ => Idle), {}, 0, Looping, 0, 0, 0, 0, 0, Running, multiset{}, multiset{})
  }

  predicate At(s: State, host: nat, p: Phase) {
    host < |s.phase| && s.phase[host] == p
  }

  predicate Enabled(s: State, workers: nat, a: Action) {
    match a
    case Add => s.pc == Looping && s.next < |s.phase|
    case Cancel => s.pc == Looping && s.next < |s.phase|
    case Send => s.pc == Sending && s.slots < workers && s.next < |s.phase|
    case LoopEnd => s.pc == Looping && s.next >= |s.phase|
    case Complete => s.pc == Waiting && s.group == 0
    case Probe(i, _) => At(s, i, Probing)
    case CountHit(i) => At(s, i, Hit)
    case Publish(i) => At(s, i, Ready)
    case Release(i) => At(s, i, Saved) && s.slots > 0
    case Done(i) => At(s, i, Released) && s.group > 0
  }

  function Apply(s: State, workers: nat, a: Action): State
    requires Enabled(s, workers, a)
  {
    match a
    case Add => s.(group := s.group + 1, pc := Sending)
    case Cancel => s.(pc := Stopped, status := Failed)
    case Send =>
      s.(slots := s.slots + 1, phase := s.phase[s.next := Probing],
         starts := s.starts + multiset{s.next}, next := s.next + 1, pc := Looping)
    case LoopEnd => s.(pc := Waiting)
    case Complete => s.(pc := Over, status := Completed)
    case Probe(i, device) =>
      if device then s.(phase := s.phase[i := Hit], hits := s.hits + {i}) else s.(phase := s.phase[i := Ready])
    case CountHit(i) => s.(phase := s.phase[i := Ready], foundCount := s.foundCount + 1)
    case Publish(i) =>
      s.(phase := s.phase[i := Saved], scannedHosts := i + 1, foundHosts := s.foundCount,
         publishes := s.publishes + multiset{i})
    case Release(i) => s.(phase := s.phase[i := Released], slots := s.slots - 1)
    case Done(i) => s.(phase := s.phase[i := Finished], group := s.group - 1)
  }

  // ----- counting workers -----

  function Holds(p: Phase): nat {
    match p case Probing => 1 case Hit => 1 case Ready => 1 case Saved => 1 case _ => 0
  }

  predicate Published(p: Phase) { p == Saved || p == Released || p == Finished }

  function Pends(p: Phase): nat { if p == Idle || p == Finished then 0 else 1 }

  function Uncounted(p: Phase): nat { if p == Hit then 1 else 0 }

  function Rank(p: Phase): nat {
    match p
    case Idle => 7 case Probing => 5 case Hit => 4 case Ready => 3 case Saved => 2 case Released => 1 case Finished => 0
  }

  /** The sum of `f` over all workers. */
  function Tally(ps: seq<Phase>, f: Phase -> nat): nat {
    if ps == [] then 0 else Tally(ps[..|ps| - 1], f) + f(ps[|ps| - 1])
  }

  lemma {:induction false} TallyUpdate(ps: seq<Phase>, f: Phase -> nat, i: nat, q: Phase)
    requires i < |ps|
    ensures Tally(ps[i := q], f) + f(ps[i]) == Tally(ps, f) + f(q)
  {
    var n := |ps| - 1;
    if i == n {
      assert ps[i := q][..n] == ps[..n];
    } else {
      TallyUpdate(ps[..n], f, i, q);
      assert ps[i := q][..n] == ps[..n][i := q];
    }
  }

  lemma {:induction false} TallyHas(ps: seq<Phase>, f: Phase -> nat, i: nat)
    requires i < |ps|
    ensures f(ps[i]) <= Tally(ps, f)
  {
    if i < |ps| - 1 {
      TallyHas(ps[..|ps| - 1], f, i);
    }
  }

  /** A positive sum has a witness. */
  lemma {:induction false} TallyWitness(ps: seq<Phase>, f: Phase -> nat) returns (i: nat)
    requires Tally(ps, f) > 0
    ensures i < |ps| && f(ps[i]) > 0
  {
    var n := |ps| - 1;
    if f(ps[n]) > 0 {
      i := n;
    } else {
      i := TallyWitness(ps[..n], f);
    }
  }

  lemma {:induction false} TallyConstant(ps: seq<Phase>, f: Phase -> nat, v: nat)
    requires forall i :: 0 <= i < |ps| ==> f(ps[i]) == v
    ensures Tally(ps, f) == v * |ps|
  {
    if ps != [] {
      TallyConstant(ps[..|ps| - 1], f, v);
    }
  }

  // ----- the invariant -----

  /** Sizes, the dispatch frontier and the exactly-once counters. */
  ghost predicate Frontier(s: State) {
    && s.next <= |s.phase|
    && (s.pc == Sending ==> s.next < |s.phase|)
    && (forall i :: 0 <= i < |s.phase| ==> (s.phase[i] == Idle <==> s.next <= i))
    && (forall i: nat :: s.starts[i] == if i < s.next then 1 else 0)
    && (forall i: nat :: s.publishes[i] == if i < |s.phase| && Published(s.phase[i]) then 1 else 0)
  }

  /** The semaphore and the wait group count what they should. */
  ghost predicate Counters(s: State, workers: nat) {
    && s.slots == Tally(s.phase, Holds) && s.slots <= workers
    && s.group == Tally(s.phase, Pends) + if s.pc == Sending then 1 else 0
  }

  /** Hits are past probing, and workers at Hit are hits. */
  ghost predicate HitPhases(s: State) {
    && (forall i :: i in s.hits ==> i < |s.phase| && s.phase[i] != Idle && s.phase[i] != Probing)
    && (forall i :: 0 <= i < |s.phase| && s.phase[i] == Hit ==> i in s.hits)
  }

  /** The counted number lags behind the hits only by workers at Hit, and the published
      number lags behind the counted one only while some counted worker has yet to publish. */
  ghost predicate FoundNumbers(s: State) {
    && s.foundCount + Tally(s.phase, Uncounted) == |s.hits|
    && s.foundHosts <= s.foundCount
    && (s.foundHosts < s.foundCount ==> exists i :: i in s.hits && i < |s.phase| && s.phase[i] == Ready)
  }

  ghost predicate Findings(s: State) { HitPhases(s) && FoundNumbers(s) }

  ghost predicate Progress(s: State) {
    && s.scannedHosts <= |s.phase|
    && (forall i :: 0 <= i < |s.phase| && Published(s.phase[i]) ==> s.scannedHosts >= 1)
    && (s.pc in {Waiting, Over} ==> s.next == |s.phase|)
    && (s.pc == Over <==> s.status == Completed)
    && (s.pc == Stopped <==> s.status == Failed)
    && (s.pc == Over ==> s.group == 0)
  }

  ghost predicate Inv(s: State, workers: nat) {
    Frontier(s) && Counters(s, workers) && Findings(s) && Progress(s)
  }

  lemma InitInv(hosts: nat, workers: nat)
    ensures Inv(Init(hosts), workers)
  {
    var s := Init(hosts);
    TallyConstant(s.phase, Holds, 0);
    TallyConstant(s.phase, Pends, 0);
    TallyConstant(s.phase, Uncounted, 0);
  }

  /** The worker an action moves, if any. */
  function Mover(s: State, a: Action): nat {
    if a.Send? then s.next else if a.Add? || a.LoopEnd? || a.Complete? || a.Cancel? then 0 else a.host
  }

  predicate Moves(a: Action) { !(a.Add? || a.LoopEnd? || a.Complete? || a.Cancel?) }

  /** Any action changes the phase of at most its own worker. */
  lemma ApplyTallies(s: State, workers: nat, a: Action, f: Phase -> nat)
    requires Enabled(s, workers, a)
    ensures !Moves(a) ==> Apply(s, workers, a).phase == s.phase
    ensures Moves(a) ==> Mover(s, a) < |s.phase| == |Apply(s, workers, a).phase|
    ensures Moves(a) ==>
      Tally(Apply(s, workers, a).phase, f) + f(s.phase[Mover(s, a)]) ==
      Tally(s.phase, f) + f(Apply(s, workers, a).phase[Mover(s, a)])
  {
    if Moves(a) {
      var i := Mover(s, a);
      var q := Apply(s, workers, a).phase[i];
      TallyUpdate(s.phase, f, i, q);
      assert Apply(s, workers, a).phase == s.phase[i := q];
    }
  }

  predicate Dispatches(a: Action) { a.Send? || !Moves(a) }

  lemma StepFrontier(s: State, workers: nat, a: Action)
    requires Frontier(s) && Enabled(s, workers, a)
    ensures Frontier(Apply(s, workers, a))
  {
    if Dispatches(a) {
      DispatchFrontier(s, workers, a);
    } else {
      WorkFrontier(s, workers, a);
    }
  }

  lemma DispatchFrontier(s: State, workers: nat, a: Action)
    requires Frontier(s) && Enabled(s, workers, a) && Dispatches(a)
    ensures Frontier(Apply(s, workers, a))
  {
  }

  lemma WorkFrontier(s: State, workers: nat, a: Action)
    requires Frontier(s) && Enabled(s, workers, a) && !Dispatches(a)
    ensures Frontier(Apply(s, workers, a))
  {
    var t := Apply(s, workers, a);
    assert t.phase == s.phase[a.host := t.phase[a.host]];
  }

  lemma StepCounters(s: State, workers: nat, a: Action)
    requires Inv(s, workers) && Enabled(s, workers, a)
    ensures Counters(Apply(s, workers, a), workers)
  {
    hide Findings, Progress, Tally;
    ApplyTallies(s, workers, a, Holds);
    ApplyTallies(s, workers, a, Pends);
  }

  lemma StepFindings(s: State, workers: nat, a: Action)
    requires Frontier(s) && Findings(s) && Enabled(s, workers, a)
    ensures Findings(Apply(s, workers, a))
  {
    if Dispatches(a) {
      DispatchFindings(s, workers, a);
    } else {
      WorkFindings(s, workers, a);
    }
  }

  lemma DispatchFindings(s: State, workers: nat, a: Action)
    requires Frontier(s) && Findings(s) && Enabled(s, workers, a) && Dispatches(a)
    ensures Findings(Apply(s, workers, a))
  {
    hide Tally;
    ApplyTallies(s, workers, a, Uncounted);
    if s.foundHosts < s.foundCount {
      var i :| i in s.hits && s.phase[i] == Ready;
      assert Apply(s, workers, a).phase[i] == Ready;
    }
  }

  lemma WorkFindings(s: State, workers: nat, a: Action)
    requires Findings(s) && Enabled(s, workers, a) && !Dispatches(a)
    ensures Findings(Apply(s, workers, a))
  {
    WorkLag(s, workers, a);
    WorkHits(s, workers, a);
    WorkHitPhases(s, workers, a);
    hide HitPhases, Tally;
  }

  lemma WorkHitPhases(s: State, workers: nat, a: Action)
    requires HitPhases(s) && Enabled(s, workers, a) && !Dispatches(a)
    ensures HitPhases(Apply(s, workers, a))
  {
    var t := Apply(s, workers, a);
    assert t.phase == s.phase[a.host := t.phase[a.host]];
  }

  lemma WorkHits(s: State, workers: nat, a: Action)
    requires Findings(s) && Enabled(s, workers, a) && !Dispatches(a)
    ensures var t := Apply(s, workers, a); t.foundCount + Tally(t.phase, Uncounted) == |t.hits|
  {
    hide Tally;
    ApplyTallies(s, workers, a, Uncounted);
    if a.Probe? {
      assert a.host !in s.hits;
    }
  }

  lemma WorkLag(s: State, workers: nat, a: Action)
    requires Findings(s) && Enabled(s, workers, a) && !Dispatches(a)
    ensures var t := Apply(s, workers, a);
      t.foundHosts <= t.foundCount &&
      (t.foundHosts < t.foundCount ==> exists i :: i in t.hits && i < |t.phase| && t.phase[i] == Ready)
  {
    hide Tally;
    var t := Apply(s, workers, a);
    if a.CountHit? {
      assert a.host in t.hits && t.phase[a.host] == Ready;
    } else if t.foundHosts < t.foundCount {
      var i :| i in s.hits && s.phase[i] == Ready;
      assert i in t.hits && t.phase[i] == Ready;
    }
  }

  lemma StepProgress(s: State, workers: nat, a: Action)
    requires Inv(s, workers) && Enabled(s, workers, a)
    ensures Progress(Apply(s, workers, a))
  {
    hide Findings, Tally;
  }

  lemma FoundStep(s: State, workers: nat, a: Action)
    requires Findings(s) && Enabled(s, workers, a)
    ensures s.foundHosts <= Apply(s, workers, a).foundHosts
    ensures |Apply(s, workers, a).phase| == |s.phase|
  {
    hide Tally;
  }

  /** Every step of dispatcher or worker keeps the invariant, and the published number of
      found hosts never decreases. */
  lemma StepKeepsInv(s: State, workers: nat, a: Action)
    requires Inv(s, workers) && Enabled(s, workers, a)
    ensures Inv(Apply(s, workers, a), workers) && |Apply(s, workers, a).phase| == |s.phase|
    ensures s.foundHosts <= Apply(s, workers, a).foundHosts
  {
    hide Frontier, Counters, Progress, Findings;
    FoundStep(s, workers, a);
    StepFrontier(s, workers, a);
    StepCounters(s, workers, a);
    StepFindings(s, workers, a);
    StepProgress(s, workers, a);
  }

  // ----- runs -----

  /** The state a run leads to from the start, if every action was enabled in its turn. */
  function After(hosts: nat, workers: nat, run: seq<Action>): Option<State> {
    if run == [] then Some(Init(hosts))
    else
      var before := After(hosts, workers, run[..|run| - 1]);
      if before.Some? && Enabled(before.value, workers, run[|run| - 1])
      then Some(Apply(before.value, workers, run[|run| - 1]))
      else None
  }

  lemma {:induction false} RunKeepsInv(hosts: nat, workers: nat, run: seq<Action>)
    requires After(hosts, workers, run).Some?
    ensures Inv(After(hosts, workers, run).value, workers)
    ensures |After(hosts, workers, run).value.phase| == hosts
  {
    hide Inv, Apply, Enabled;
    if run == [] {
      InitInv(hosts, workers);
    } else {
      RunKeepsInv(hosts, workers, run[..|run| - 1]);
      StepKeepsInv(After(hosts, workers, run[..|run| - 1]).value, workers, run[|run| - 1]);
    }
  }

  /** The hosts being worked on: their workers hold a semaphore slot. */
  function InFlight(s: State): set<nat> { Marked(s.phase, Holds) }

  /** Under every interleaving: at most `workers` hosts in flight, published progress
      within 1..total once anything was published, no host dispatched or published twice;
      and completion only after every host was dispatched and published exactly once, with
      FoundHosts equal to the number of hosts whose discovery returned a device. */
  lemma PoolSafety(hosts: nat, workers: nat, run: seq<Action>, s: State)
    requires After(hosts, workers, run) == Some(s)
    ensures |s.phase| == hosts
    ensures |InFlight(s)| <= workers
    ensures forall i: nat :: s.publishes[i] <= s.starts[i] <= 1
    ensures s.scannedHosts <= hosts && (s.publishes != multiset{} ==> s.scannedHosts >= 1)
    ensures s.status == Failed <==> s.pc == Stopped
    ensures s.status == Completed ==>
      (forall i: nat :: i < hosts ==> s.starts[i] == 1 && s.publishes[i] == 1) && s.foundHosts == |s.hits|
  {
    hide After;
    RunKeepsInv(hosts, workers, run);
    TallyIsCardinality(s.phase, Holds);
    if s.publishes != multiset{} {
      var i :| i in s.publishes;
      assert s.publishes[i] > 0;
    }
    if s.status == Completed {
      AllFinished(s, workers);
    }
  }

  lemma AllFinished(s: State, workers: nat)
    requires Inv(s, workers) && s.status == Completed
    ensures forall i :: 0 <= i < |s.phase| ==> s.phase[i] == Finished
    ensures s.foundHosts == |s.hits|
  {
    forall i | 0 <= i < |s.phase| ensures s.phase[i] == Finished {
      TallyHas(s.phase, Pends, i);
    }
    TallyConstant(s.phase, Uncounted, 0);
  }

  function Marked(ps: seq<Phase>, f: Phase -> nat): set<nat> {
    set i: nat | i < |ps| && f(ps[i]) == 1
  }

  lemma {:induction false} TallyIsCardinality(ps: seq<Phase>, f: Phase -> nat)
    requires forall p :: f(p) <= 1
    ensures |Marked(ps, f)| == Tally(ps, f)
  {
    if ps == [] {
      assert Marked(ps, f) == {};
    } else {
      var n := |ps| - 1;
      TallyIsCardinality(ps[..n], f);
      assert Marked(ps, f) == Marked(ps[..n], f) + if f(ps[n]) == 1 then {n} else {};
    }
  }

  /** The hits are the hosts whose probe returned a device. */
  lemma {:induction false} HitsAreProbes(hosts: nat, workers: nat, run: seq<Action>, i: nat)
    requires After(hosts, workers, run).Some?
    ensures i in After(hosts, workers, run).value.hits <==> Probe(i, true) in run
  {
    if run != [] {
      var init, last := run[..|run| - 1], run[|run| - 1];
      HitsAreProbes(hosts, workers, init, i);
      StepHits(After(hosts, workers, init).value, workers, last);
      assert run == init + [last];
      hide Apply, Enabled;
    }
  }

  lemma StepHits(s: State, workers: nat, a: Action)
    requires Enabled(s, workers, a)
    ensures Apply(s, workers, a).hits == if a.Probe? && a.device then s.hits + {a.host} else s.hits
  {
  }

  /** FoundHosts never decreases along a run. */
  lemma {:induction false} FoundNeverDecreases(hosts: nat, workers: nat, run: seq<Action>, k: nat)
    requires k <= |run| && After(hosts, workers, run).Some?
    ensures After(hosts, workers, run[..k]).Some?
    ensures After(hosts, workers, run[..k]).value.foundHosts <= After(hosts, workers, run).value.foundHosts
  {
    hide Inv, Apply;
    if k == |run| {
      assert run[..k] == run;
    } else {
      var init := run[..|run| - 1];
      FoundNeverDecreases(hosts, workers, init, k);
      assert init[..k] == run[..k];
      RunKeepsInv(hosts, workers, init);
      StepKeepsInv(After(hosts, workers, init).value, workers, run[|run| - 1]);
    }
  }

  // ----- the reported number of scanned hosts -----

  /** The position of whichever host published last. */
  function LastPublisher(run: seq<Action>): nat {
    if run == [] then 0
    else if run[|run| - 1].Publish? then run[|run| - 1].host + 1
    else LastPublisher(run[..|run| - 1])
  }

  lemma {:induction false} ScannedIsLastPublisher(hosts: nat, workers: nat, run: seq<Action>)
    requires After(hosts, workers, run).Some?
    ensures After(hosts, workers, run).value.scannedHosts == LastPublisher(run)
  {
    if run != [] {
      ScannedIsLastPublisher(hosts, workers, run[..|run| - 1]);
    }
  }

  /** With one worker the hosts are handled one after the other: all but the last one dispatched have given
      back their slot, and the reported number is how many have published. */
  ghost predicate InTurn(s: State) {
    && (forall i :: 0 <= i < s.next - 1 && i < |s.phase| ==> s.phase[i] in {Released, Finished})
    && s.scannedHosts == if 0 < s.next <= |s.phase| && !Published(s.phase[s.next - 1]) then s.next - 1 else s.next
  }

  /** A dispatch needs a slot, so with a single one nobody else is at work. */
  lemma SlotMeansAlone(s: State, workers: nat)
    requires Frontier(s) && Counters(s, workers) && workers <= 1 && Enabled(s, workers, Send)
    ensures forall i :: 0 <= i < s.next ==> s.phase[i] in {Released, Finished}
  {
    hide Tally;
    forall i | 0 <= i < s.next ensures s.phase[i] in {Released, Finished} {
      TallyHas(s.phase, Holds, i);
    }
  }

  lemma WorkInTurn(s: State, workers: nat, a: Action)
    requires Frontier(s) && InTurn(s) && Enabled(s, workers, a) && !Dispatches(a)
    ensures InTurn(Apply(s, workers, a))
  {
    assert a.host < s.next;
  }

  lemma StepInTurn(s: State, workers: nat, a: Action)
    requires Frontier(s) && Counters(s, workers) && InTurn(s) && workers <= 1 && Enabled(s, workers, a)
    ensures InTurn(Apply(s, workers, a))
  {
    if !Dispatches(a) {
      WorkInTurn(s, workers, a);
    } else if a.Send? {
      SlotMeansAlone(s, workers);
      hide Counters;
    }
  }

  lemma {:induction false} RunInTurn(hosts: nat, workers: nat, run: seq<Action>)
    requires After(hosts, workers, run).Some? && workers <= 1
    ensures InTurn(After(hosts, workers, run).value)
  {
    hide Apply, Enabled, Frontier, Counters, Findings, Progress;
    if run != [] {
      hide InTurn;
      RunInTurn(hosts, workers, run[..|run| - 1]);
      RunKeepsInv(hosts, workers, run[..|run| - 1]);
      StepInTurn(After(hosts, workers, run[..|run| - 1]).value, workers, run[|run| - 1]);
    }
  }

  lemma OneAtATimeReportsAll(hosts: nat, workers: nat, run: seq<Action>, s: State)
    requires After(hosts, workers, run) == Some(s) && s.status == Completed
    requires workers <= 1 || hosts <= 1
    ensures s.scannedHosts == hosts
  {
    hide After, Tally;
    RunKeepsInv(hosts, workers, run);
    AllFinished(s, workers);
    if workers <= 1 {
      RunInTurn(hosts, workers, run);
    } else if hosts == 1 {
      assert Published(s.phase[0]);
    }
  }

  lemma Extend(hosts: nat, workers: nat, run: seq<Action>, s: State, a: Action) returns (run': seq<Action>, s': State)
    requires After(hosts, workers, run) == Some(s) && Enabled(s, workers, a)
    ensures s' == Apply(s, workers, a) && After(hosts, workers, run') == Some(s')
  {
    run', s' := run + [a], Apply(s, workers, a);
    assert run'[..|run|] == run;
  }

  /** The first `k` hosts are done and no other has been started. */
  ghost predicate DoneUpTo(s: State, hosts: nat, k: nat) {
    && |s.phase| == hosts && k <= hosts && s.next == k && s.pc == Looping && s.slots == 0 && s.group == 0
    && forall i :: 0 <= i < hosts ==> s.phase[i] == if i < k then Finished else Idle
  }

  /** One host after the other. */
  lemma {:induction false} FirstHostsDone(hosts: nat, workers: nat, k: nat) returns (run: seq<Action>, s: State)
    requires k <= hosts && workers > 0
    ensures After(hosts, workers, run) == Some(s) && DoneUpTo(s, hosts, k)
  {
    if k == 0 {
      run, s := [], Init(hosts);
    } else {
      hide After;
      run, s := FirstHostsDone(hosts, workers, k - 1);
      run, s := Extend(hosts, workers, run, s, Add);
      run, s := Extend(hosts, workers, run, s, Send);
      run, s := Extend(hosts, workers, run, s, Probe(k - 1, false));
      run, s := Extend(hosts, workers, run, s, Publish(k - 1));
      run, s := Extend(hosts, workers, run, s, Release(k - 1));
      run, s := Extend(hosts, workers, run, s, Done(k - 1));
    }
  }

  /** The last two hosts are both in phase `p`, all others done. */
  ghost predicate LastTwo(s: State, hosts: nat, p: Phase) {
    && |s.phase| == hosts && hosts >= 2 && s.next == hosts && s.pc == Waiting && s.slots == 2 && s.group == 2
    && forall i :: 0 <= i < hosts ==> s.phase[i] == if i < hosts - 2 then Finished else p
  }

  lemma LastTwoDispatched(hosts: nat, workers: nat) returns (run: seq<Action>, s: State)
    requires hosts >= 2 && workers >= 2
    ensures After(hosts, workers, run) == Some(s) && LastTwo(s, hosts, Probing)
  {
    hide After;
    run, s := FirstHostsDone(hosts, workers, hosts - 2);
    run, s := Extend(hosts, workers, run, s, Add);
    run, s := Extend(hosts, workers, run, s, Send);
    run, s := Extend(hosts, workers, run, s, Add);
    run, s := Extend(hosts, workers, run, s, Send);
    run, s := Extend(hosts, workers, run, s, LoopEnd);
  }

  lemma LastTwoSwapped(hosts: nat, workers: nat) returns (run: seq<Action>, s: State)
    requires hosts >= 2 && workers >= 2
    ensures After(hosts, workers, run) == Some(s) && LastTwo(s, hosts, Saved) && s.scannedHosts == hosts - 1
  {
    hide After;
    run, s := LastTwoDispatched(hosts, workers);
    run, s := Extend(hosts, workers, run, s, Probe(hosts - 2, false));
    run, s := Extend(hosts, workers, run, s, Probe(hosts - 1, false));
    run, s := Extend(hosts, workers, run, s, Publish(hosts - 1));
    run, s := Extend(hosts, workers, run, s, Publish(hosts - 2));
  }

  /** Whenever two hosts can be in flight, the last two may publish in swapped order, and the scan completes
      with one host too few. */
  lemma CompletedScanCanReportFewer(hosts: nat, workers: nat) returns (run: seq<Action>, s: State)
    requires hosts >= 2 && workers >= 2
    ensures After(hosts, workers, run) == Some(s) && s.status == Completed && s.scannedHosts == hosts - 1
  {
    hide After;
    run, s := LastTwoSwapped(hosts, workers);
    run, s := Extend(hosts, workers, run, s, Release(hosts - 2));
    run, s := Extend(hosts, workers, run, s, Done(hosts - 2));
    run, s := Extend(hosts, workers, run, s, Release(hosts - 1));
    run, s := Extend(hosts, workers, run, s, Done(hosts - 1));
    run, s := Extend(hosts, workers, run, s, Complete);
  }

  /** Every completed run reports all hosts scanned. */
  ghost predicate AlwaysReportsAll(hosts: nat, workers: nat) {
    forall run :: After(hosts, workers, run).Some? && After(hosts, workers, run).value.status == Completed ==>
      After(hosts, workers, run).value.scannedHosts == hosts
  }

  /** A completed scan is sure to report all hosts scanned exactly when no two hosts can be in flight at once. */
  lemma CompletedCountIsTotal(hosts: nat, workers: nat)
    ensures AlwaysReportsAll(hosts, workers) <==> workers <= 1 || hosts <= 1
  {
    hide After;
    if workers <= 1 || hosts <= 1 {
      forall run | After(hosts, workers, run).Some? && After(hosts, workers, run).value.status == Completed
        ensures After(hosts, workers, run).value.scannedHosts == hosts
      {
        OneAtATimeReportsAll(hosts, workers, run, After(hosts, workers, run).value);
      }
    } else {
      var run, s := CompletedScanCanReportFewer(hosts, workers);
    }
  }

  // ----- every run ends, and ends well -----

  function PcRank(pc: Dispatcher): nat {
    match pc case Looping => 3 case Sending => 2 case Waiting => 1 case Over => 0 case Stopped => 0
  }

  function Measure(s: State): nat { Tally(s.phase, Rank) + PcRank(s.pc) }

  lemma StepDecreases(s: State, workers: nat, a: Action)
    requires Frontier(s) && Enabled(s, workers, a)
    ensures Measure(Apply(s, workers, a)) < Measure(s)
  {
    hide Tally;
    ApplyTallies(s, workers, a, Rank);
  }

  /** No run has more than 7 x hosts + 3 steps. */
  lemma {:induction false} RunsAreBounded(hosts: nat, workers: nat, run: seq<Action>)
    requires After(hosts, workers, run).Some?
    ensures |run| + Measure(After(hosts, workers, run).value) <= 7 * hosts + 3
  {
    hide Apply;
    if run == [] {
      TallyConstant(Init(hosts).phase, Rank, 7);
    } else {
      hide Measure;
      var init := run[..|run| - 1];
      RunsAreBounded(hosts, workers, init);
      RunKeepsInv(hosts, workers, init);
      StepDecreases(After(hosts, workers, init).value, workers, run[|run| - 1]);
    }
  }

  /** The pool never gets stuck: with at least one worker slot, a state in which nothing can
      happen is the completed or cancelled end with every started worker finished. */
  lemma NoDeadlock(s: State, workers: nat)
    requires Inv(s, workers) && workers > 0
    requires forall a :: !Enabled(s, workers, a)
    ensures s.status == Completed || s.pc == Stopped
    ensures forall i :: 0 <= i < s.next ==> s.phase[i] == Finished
  {
    hide Findings;
    forall i | 0 <= i < |s.phase| ensures s.phase[i] in {Idle, Finished} {
      TallyHas(s.phase, Holds, i);
      TallyHas(s.phase, Pends, i);
      assert !Enabled(s, workers, Probe(i, true)) && !Enabled(s, workers, CountHit(i));
      assert !Enabled(s, workers, Publish(i)) && !Enabled(s, workers, Release(i)) && !Enabled(s, workers, Done(i));
    }
    TallyConstant(s.phase, Holds, 0);
    TallyConstant(s.phase, Pends, 0);
    assert !Enabled(s, workers, Add) && !Enabled(s, workers, Send);
    assert !Enabled(s, workers, LoopEnd) && !Enabled(s, workers, Complete);
  }
}
