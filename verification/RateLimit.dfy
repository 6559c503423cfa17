/** The per-client rate limiter (internal/api/ratelimit.go). Every call and every
    cleanup pass is one atomic step at a time given by the caller. */
module RateLimit {

  /** The limiter's parameters; cleanup forgets buckets after two windows. */
  datatype Config = Config(requests: int, window: nat)

  datatype Bucket = Bucket(tokens: int, lastReset: int)

  type Buckets = map<string, Bucket>

  // ----- one call -----

  /** The bucket a call at `now` draws from: a new or expired one is full. */
  function Drawn(cfg: Config, bs: Buckets, c: string, now: int): Bucket {
    if c !in bs || now - bs[c].lastReset > cfg.window then Bucket(cfg.requests, now) else bs[c]
  }

  predicate Admits(cfg: Config, bs: Buckets, c: string, now: int) {
    Drawn(cfg, bs, c, now).tokens > 0
  }

  function AfterCall(cfg: Config, bs: Buckets, c: string, now: int): Buckets {
    var b := Drawn(cfg, bs, c, now);
    bs[c := if b.tokens > 0 then b.(tokens := b.tokens - 1) else b]
  }

  function AfterSweep(cfg: Config, bs: Buckets, now: int): Buckets {
    map c | c in bs && now - bs[c].lastReset <= 2 * cfg.window :: bs[c]
  }

  function Remaining(cfg: Config, bs: Buckets, c: string, now: int): int {
    if c !in bs || now - bs[c].lastReset > cfg.window then cfg.requests else bs[c].tokens
  }

  function ResetTime(cfg: Config, bs: Buckets, c: string, now: int): int {
    if c !in bs then now + cfg.window else bs[c].lastReset + cfg.window
  }

  class RateLimiter {
    const cfg: Config
    var clients: Buckets

    constructor (requests: int, window: nat)
      ensures cfg == Config(requests, window) && clients == map[]
    {
      cfg := Config(requests, window);
      clients := map[];
    }

    method Allow(clientID: string, now: int) returns (ok: bool)
      modifies this
      ensures ok == Admits(cfg, old(clients), clientID, now)
      ensures clients == AfterCall(cfg, old(clients), clientID, now)
    {
      if clientID !in clients {
        clients := clients[clientID := Bucket(cfg.requests, now)];
      }
      if now - clients[clientID].lastReset > cfg.window {
        clients := clients[clientID := Bucket(cfg.requests, now)];
      }
      var bucket := clients[clientID];
      if bucket.tokens > 0 {
        clients := clients[clientID := bucket.(tokens := bucket.tokens - 1)];
        return true;
      }
      return false;
    }

    method GetRemaining(clientID: string, now: int) returns (r: int)
      ensures r == Remaining(cfg, clients, clientID, now)
    {
      if clientID !in clients { return cfg.requests; }
      if now - clients[clientID].lastReset > cfg.window { return cfg.requests; }
      return clients[clientID].tokens;
    }

    method GetResetTime(clientID: string, now: int) returns (t: int)
      ensures t == ResetTime(cfg, clients, clientID, now)
    {
      if clientID !in clients { return now + cfg.window; }
      return clients[clientID].lastReset + cfg.window;
    }

    /** One pass of the cleanup loop over the clients, in any order. */
    method Sweep(now: int)
      modifies this
      ensures clients == AfterSweep(cfg, old(clients), now)
    {
      var ids := clients.Keys;
      while ids != {}
        invariant ids <= old(clients).Keys
        invariant clients == map c | c in old(clients) &&
          (c in ids || now - old(clients)[c].lastReset <= 2 * cfg.window) :: old(clients)[c]
        decreases |ids|
      {
        var id :| id in ids;
        if now - clients[id].lastReset > 2 * cfg.window {
          clients := clients - {id};
        }
        ids := ids - {id};
      }
    }
  }

  // ----- runs -----

  datatype Event = Call(client: string, at: int) | Sweep(at: int)

  type Run = seq<Event>

  ghost predicate Ordered(run: Run) {
    forall i, j :: 0 <= i < j < |run| ==> run[i].at <= run[j].at
  }

  /** The state after a run; with `forget` false the sweeps do nothing, which is the
      limiter that never forgets a client. */
  function StateAfter(cfg: Config, run: Run, forget: bool): Buckets {
    if run == [] then map[]
    else
      var bs := StateAfter(cfg, run[..|run| - 1], forget);
      match run[|run| - 1]
      case Call(c, at) => AfterCall(cfg, bs, c, at)
      case Sweep(at) => if forget then AfterSweep(cfg, bs, at) else bs
  }

  /** The times of the admitted calls of one client. */
  function Admitted(cfg: Config, run: Run, forget: bool, c: string): seq<int> {
    if run == [] then []
    else
      var init, e := run[..|run| - 1], run[|run| - 1];
      Admitted(cfg, init, forget, c) +
      if e.Call? && e.client == c && Admits(cfg, StateAfter(cfg, init, forget), c, e.at) then [e.at] else []
  }

  // ----- cleanup cannot be observed -----

  /** What the forgetting limiter may lack: only buckets that are already expired. */
  ghost predicate Forgot(cfg: Config, bs: Buckets, kept: Buckets, now: int) {
    bs.Keys <= kept.Keys &&
    forall c :: c in kept ==>
      if c in bs then bs[c] == kept[c] else now - kept[c].lastReset > cfg.window
  }

  lemma {:induction false} ForgetsOnlyExpired(cfg: Config, run: Run, now: int)
    requires Ordered(run)
    requires forall i :: 0 <= i < |run| ==> run[i].at <= now
    ensures Forgot(cfg, StateAfter(cfg, run, true), StateAfter(cfg, run, false), now)
  {
    if run != [] {
      var init, e := run[..|run| - 1], run[|run| - 1];
      ForgetsOnlyExpired(cfg, init, e.at);
    }
  }

  /** After any run with any sweeps, Allow and GetRemaining answer as if nothing had ever been forgotten. */
  lemma CleanupUnobservable(cfg: Config, run: Run, c: string, now: int)
    requires Ordered(run)
    requires forall i :: 0 <= i < |run| ==> run[i].at <= now
    ensures Admits(cfg, StateAfter(cfg, run, true), c, now) == Admits(cfg, StateAfter(cfg, run, false), c, now)
    ensures Remaining(cfg, StateAfter(cfg, run, true), c, now) == Remaining(cfg, StateAfter(cfg, run, false), c, now)
  {
    ForgetsOnlyExpired(cfg, run, now);
  }

  /** Some sweep of the run came more than two windows after the last reset. */
  ghost predicate Swept(cfg: Config, run: Run, lastReset: int) {
    exists i :: 0 <= i < |run| && run[i].Sweep? && run[i].at - lastReset > 2 * cfg.window
  }

  lemma SweptStep(cfg: Config, run: Run, lastReset: int)
    requires run != []
    ensures var e := run[|run| - 1];
      Swept(cfg, run, lastReset) <==>
      Swept(cfg, run[..|run| - 1], lastReset) || (e.Sweep? && e.at - lastReset > 2 * cfg.window)
  {
    var init := run[..|run| - 1];
    assert forall i :: 0 <= i < |init| ==> init[i] == run[i];
  }

  /** A client that the never-forgetting limiter knows has been forgotten exactly when such a sweep came. */
  lemma {:induction false} ForgottenExactly(cfg: Config, run: Run, c: string)
    requires Ordered(run) && c in StateAfter(cfg, run, false)
    ensures c in StateAfter(cfg, run, true) <==> !Swept(cfg, run, StateAfter(cfg, run, false)[c].lastReset)
  {
    if run != [] {
      var init, e := run[..|run| - 1], run[|run| - 1];
      SweptStep(cfg, run, StateAfter(cfg, run, false)[c].lastReset);
      ForgetsOnlyExpired(cfg, init, e.at);
      if c in StateAfter(cfg, init, false) && !(e.Call? && e.client == c) {
        ForgottenExactly(cfg, init, c);
      }
    }
  }

  /** GetResetTime answers as if nothing had been forgotten exactly when no such sweep came. */
  lemma ResetTimeExactly(cfg: Config, run: Run, c: string, now: int)
    requires Ordered(run)
    requires forall i :: 0 <= i < |run| ==> run[i].at <= now
    ensures var kept := StateAfter(cfg, run, false);
      ResetTime(cfg, StateAfter(cfg, run, true), c, now) == ResetTime(cfg, kept, c, now) <==>
      (c in kept ==> !Swept(cfg, run, kept[c].lastReset))
  {
    hide StateAfter;
    ForgetsOnlyExpired(cfg, run, now);
    if c in StateAfter(cfg, run, false) {
      ForgottenExactly(cfg, run, c);
    }
  }

  /** So GetResetTime does observe cleanup. */
  lemma ResetTimeObservesCleanup()
    ensures var cfg := Config(1, 10);
      var run := [Call("c", 0), Sweep(21)];
      Ordered(run) &&
      ResetTime(cfg, StateAfter(cfg, run, true), "c", 21) != ResetTime(cfg, StateAfter(cfg, run, false), "c", 21)
  {
    var cfg, run := Config(1, 10), [Call("c", 0), Sweep(21)];
    assert run[..1] == [Call("c", 0)] && run[..1][..0] == [];
    assert StateAfter(cfg, run[..1], true) == map["c" := Bucket(0, 0)];
    assert StateAfter(cfg, run[..1], false) == map["c" := Bucket(0, 0)];
    assert "c" !in StateAfter(cfg, run, true);
  }

  lemma {:induction false} SameAdmitted(cfg: Config, run: Run, c: string)
    requires Ordered(run)
    ensures Admitted(cfg, run, true, c) == Admitted(cfg, run, false, c)
  {
    if run != [] {
      SameAdmitted(cfg, run[..|run| - 1], c);
      CleanupUnobservable(cfg, run[..|run| - 1], c, run[|run| - 1].at);
    }
  }

  // ----- the numeric bound -----

  /** How many calls had been admitted when the client's bucket was last filled. */
  function EpochStart(cfg: Config, run: Run, c: string): nat {
    if run == [] then 0
    else
      var init, e := run[..|run| - 1], run[|run| - 1];
      var bs := StateAfter(cfg, init, false);
      if e.Call? && e.client == c && (c !in bs || e.at - bs[c].lastReset > cfg.window)
      then |Admitted(cfg, init, false, c)|
      else EpochStart(cfg, init, c)
  }

  /** The most calls of one client that are ever admitted within one window. With no window at all that is one
      quota: a bucket serves a single instant. */
  function MostInWindow(cfg: Config): (n: nat)
    ensures n == 0 <==> cfg.requests <= 0
  {
    if cfg.requests <= 0 then 0 else if cfg.window == 0 then cfg.requests else 2 * cfg.requests - 1
  }

  /** The history of one client up to `now`, seen from its bucket: the current epoch starts
      at index `s` with the call that filled the bucket; earlier calls are older, and all
      but the last `requests - 1` of them are more than a window older. */
  ghost predicate History(cfg: Config, b: Bucket, log: seq<int>, s: nat, now: int) {
    && cfg.requests > 0
    && s < |log| && 0 <= b.tokens && b.tokens + |log| - s == cfg.requests
    && b.lastReset <= now && log[s] == b.lastReset
    && (forall i :: 0 <= i < s ==> log[i] <= b.lastReset && (cfg.window == 0 ==> log[i] < b.lastReset))
    && (forall i :: s <= i < |log| ==> b.lastReset <= log[i] <= now && log[i] <= b.lastReset + cfg.window)
    && (forall i :: 0 <= i <= s - cfg.requests ==> log[i] + cfg.window < b.lastReset)
    && Spread(log, MostInWindow(cfg), cfg.window)
  }

  /** Entries at least `k` places apart are more than `window` apart. */
  ghost predicate Spread(log: seq<int>, k: nat, window: nat) {
    forall i, j :: 0 <= i && i + k <= j < |log| ==> log[i] + window < log[j]
  }

  lemma HistoryFirst(cfg: Config, at: int)
    requires cfg.requests > 0
    ensures History(cfg, Bucket(cfg.requests - 1, at), [at], 0, at)
  {
  }

  lemma HistoryNewEpoch(cfg: Config, b: Bucket, log: seq<int>, s: nat, now: int, at: int)
    requires History(cfg, b, log, s, now) && now <= at && at - b.lastReset > cfg.window
    ensures History(cfg, Bucket(cfg.requests - 1, at), log + [at], |log|, at)
  {
    var log' := log + [at];
    forall i | 0 <= i <= |log| - cfg.requests ensures log'[i] + cfg.window < at {
      assert i <= s;
    }
  }

  lemma HistoryAdmit(cfg: Config, b: Bucket, log: seq<int>, s: nat, now: int, at: int)
    requires History(cfg, b, log, s, now) && now <= at <= b.lastReset + cfg.window && b.tokens > 0
    ensures History(cfg, b.(tokens := b.tokens - 1), log + [at], s, at)
  {
  }

  /** What is known of one client: nothing admitted yet, or a history. */
  ghost predicate Known(cfg: Config, bs: Buckets, c: string, log: seq<int>, s: nat, now: int) {
    if c !in bs then log == [] && s == 0
    else if cfg.requests <= 0 then bs[c].tokens == cfg.requests && log == [] && s == 0
    else History(cfg, bs[c], log, s, now)
  }

  lemma KnownAfterCall(cfg: Config, bs: Buckets, c: string, log: seq<int>, s: nat, now: int)
    requires Known(cfg, bs, c, log, s, now)
    ensures Known(cfg, AfterCall(cfg, bs, c, now), c,
      log + (if Admits(cfg, bs, c, now) then [now] else []),
      if c !in bs || now - bs[c].lastReset > cfg.window then |log| else s, now)
  {
    hide History;
    if cfg.requests > 0 {
      if c !in bs {
        HistoryFirst(cfg, now);
        assert log + [now] == [now];
      } else if now - bs[c].lastReset > cfg.window {
        HistoryNewEpoch(cfg, bs[c], log, s, now, now);
      } else if bs[c].tokens > 0 {
        HistoryAdmit(cfg, bs[c], log, s, now, now);
      } else {
        assert log + [] == log;
      }
    }
  }

  lemma {:induction false} HistoryHolds(cfg: Config, run: Run, c: string, now: int)
    requires Ordered(run)
    requires forall i :: 0 <= i < |run| ==> run[i].at <= now
    ensures Known(cfg, StateAfter(cfg, run, false), c, Admitted(cfg, run, false, c), EpochStart(cfg, run, c), now)
  {
    if run != [] {
      var init, e := run[..|run| - 1], run[|run| - 1];
      HistoryHolds(cfg, init, c, e.at);
      if e.Call? && e.client == c {
        hide Admits, AfterCall, Known;
        var bs, log, s := StateAfter(cfg, init, false), Admitted(cfg, init, false, c), EpochStart(cfg, init, c);
        KnownAfterCall(cfg, bs, c, log, s, e.at);
        var bs', log', s' := StateAfter(cfg, run, false), Admitted(cfg, run, false, c), EpochStart(cfg, run, c);
        KnownLater(cfg, bs', c, log', s', e.at, now);
      } else {
        assert Admitted(cfg, run, false, c) == Admitted(cfg, init, false, c);
      }
    }
  }

  lemma KnownLater(cfg: Config, bs: Buckets, c: string, log: seq<int>, s: nat, now: int, later: int)
    requires Known(cfg, bs, c, log, s, now) && now <= later
    ensures Known(cfg, bs, c, log, s, later)
  {
  }

  /** Between resets, admitted calls plus remaining tokens equal `requests`. */
  lemma TokensConserved(cfg: Config, run: Run, c: string)
    requires Ordered(run) && c in StateAfter(cfg, run, true)
    ensures EpochStart(cfg, run, c) <= |Admitted(cfg, run, true, c)|
    ensures StateAfter(cfg, run, true)[c].tokens +
      (|Admitted(cfg, run, true, c)| - EpochStart(cfg, run, c)) == cfg.requests
  {
    SameAdmitted(cfg, run, c);
    var now := if run == [] then 0 else run[|run| - 1].at;
    ForgetsOnlyExpired(cfg, run, now);
    HistoryHolds(cfg, run, c, now);
  }

  /** The number of entries in the closed interval [lo, hi]. */
  function CountIn(log: seq<int>, lo: int, hi: int): nat {
    if log == [] then 0
    else CountIn(log[..|log| - 1], lo, hi) + if lo <= log[|log| - 1] <= hi then 1 else 0
  }

  lemma {:induction false} CountSkips(log: seq<int>, lo: int, hi: int, m: nat)
    requires m <= |log|
    requires forall i :: 0 <= i < m ==> !(lo <= log[i] <= hi)
    ensures CountIn(log, lo, hi) <= |log| - m
  {
    if log != [] {
      CountSkips(log[..|log| - 1], lo, hi, if m == |log| then m - 1 else m);
    }
  }

  lemma {:induction false} SpreadBoundsCount(log: seq<int>, k: nat, lo: int, window: nat)
    requires k > 0 && Spread(log, k, window)
    ensures CountIn(log, lo, lo + window) <= k
  {
    if log != [] {
      var init, last := log[..|log| - 1], log[|log| - 1];
      if lo <= last <= lo + window && |init| >= k {
        assert forall i :: 0 <= i < |log| - k ==> init[i] + window < last;
        CountSkips(init, lo, lo + window, |log| - k);
      } else if |init| < k {
        CountSkips(log, lo, lo + window, 0);
      } else {
        SpreadBoundsCount(init, k, lo, window);
      }
    }
  }

  /** In any closed interval one window long, a client gets at most that many calls admitted, whatever the run
      and its sweeps: 2 x requests - 1 for a positive quota and window. */
  lemma WindowBound(cfg: Config, run: Run, c: string, lo: int)
    requires Ordered(run)
    ensures CountIn(Admitted(cfg, run, true, c), lo, lo + cfg.window) <= MostInWindow(cfg)
  {
    hide StateAfter, Admitted, EpochStart, Spread;
    SameAdmitted(cfg, run, c);
    var now := if run == [] then 0 else run[|run| - 1].at;
    HistoryHolds(cfg, run, c, now);
    var log := Admitted(cfg, run, false, c);
    if log != [] {
      SpreadBoundsCount(log, MostInWindow(cfg), lo, cfg.window);
    }
  }

  // ----- the answers a client is told -----

  /** The state after `k` further calls of one client at the same instant. */
  function AfterCalls(cfg: Config, bs: Buckets, c: string, now: int, k: nat): Buckets {
    if k == 0 then bs else AfterCall(cfg, AfterCalls(cfg, bs, c, now, k - 1), c, now)
  }

  /** GetRemaining = r means exactly the next r calls at that instant are admitted. */
  lemma {:induction false} RemainingIsExact(cfg: Config, bs: Buckets, c: string, now: int, k: nat)
    ensures Admits(cfg, AfterCalls(cfg, bs, c, now, k), c, now) <==> k < Remaining(cfg, bs, c, now)
    ensures k <= Remaining(cfg, bs, c, now) ==>
      Remaining(cfg, AfterCalls(cfg, bs, c, now, k), c, now) == Remaining(cfg, bs, c, now) - k
  {
    if k > 0 {
      RemainingIsExact(cfg, bs, c, now, k - 1);
    }
  }

  /** The never-forgetting limiter's bucket for `c` is untouched by events that are not calls of `c`. */
  lemma {:induction false} OthersLeaveBucket(cfg: Config, run: Run, more: Run, c: string)
    requires forall i :: 0 <= i < |more| ==> !(more[i].Call? && more[i].client == c)
    requires c in StateAfter(cfg, run, false)
    ensures c in StateAfter(cfg, run + more, false)
    ensures StateAfter(cfg, run + more, false)[c] == StateAfter(cfg, run, false)[c]
    decreases |more|
  {
    if more == [] {
      assert run + more == run;
    } else {
      OthersLeaveBucket(cfg, run, more[..|more| - 1], c);
      assert (run + more)[..|run + more| - 1] == run + more[..|more| - 1];
    }
  }

  /** A client refused at `now` is next admitted exactly when it comes back strictly after
      the announced reset time, whatever other clients and sweeps do in between. */
  lemma RefusedUntilReset(cfg: Config, run: Run, c: string, now: int, more: Run, later: int)
    requires cfg.requests > 0 && Ordered(run + more) && now <= later
    requires forall i :: 0 <= i < |run| ==> run[i].at <= now
    requires forall i :: 0 <= i < |more| ==> now <= more[i].at <= later
    requires forall i :: 0 <= i < |more| ==> !(more[i].Call? && more[i].client == c)
    requires !Admits(cfg, StateAfter(cfg, run, true), c, now)
    ensures Admits(cfg, StateAfter(cfg, run + more, true), c, later) <==>
      later > ResetTime(cfg, StateAfter(cfg, run, true), c, now)
  {
    assert Ordered(run) by {
      assert run == (run + more)[..|run|];
    }
    ForgetsOnlyExpired(cfg, run, now);
    CleanupUnobservable(cfg, run + more, c, later);
    OthersLeaveBucket(cfg, run, more, c);
  }

  lemma {:induction false} OthersLeaveUnknown(cfg: Config, run: Run, more: Run, c: string)
    requires forall i :: 0 <= i < |more| ==> !(more[i].Call? && more[i].client == c)
    requires c !in StateAfter(cfg, run, false)
    ensures c !in StateAfter(cfg, run + more, false)
    decreases |more|
  {
    if more == [] {
      assert run + more == run;
    } else {
      OthersLeaveUnknown(cfg, run, more[..|more| - 1], c);
      assert (run + more)[..|run + more| - 1] == run + more[..|more| - 1];
    }
  }

  /** A client that makes no call in between has its full quota again strictly after the reset time it was told,
      and until then exactly what it had left, whatever other clients and sweeps do. */
  lemma QuotaUntilReset(cfg: Config, run: Run, c: string, now: int, more: Run, later: int)
    requires Ordered(run + more) && now <= later
    requires forall i :: 0 <= i < |run| ==> run[i].at <= now
    requires forall i :: 0 <= i < |more| ==> now <= more[i].at <= later
    requires forall i :: 0 <= i < |more| ==> !(more[i].Call? && more[i].client == c)
    ensures Remaining(cfg, StateAfter(cfg, run + more, true), c, later) ==
      if later > ResetTime(cfg, StateAfter(cfg, run, true), c, now) then cfg.requests
      else Remaining(cfg, StateAfter(cfg, run, true), c, now)
  {
    assert Ordered(run) by {
      assert run == (run + more)[..|run|];
    }
    ForgetsOnlyExpired(cfg, run, now);
    CleanupUnobservable(cfg, run, c, now);
    CleanupUnobservable(cfg, run + more, c, later);
    hide StateAfter, Ordered;
    if c in StateAfter(cfg, run, false) {
      OthersLeaveBucket(cfg, run, more, c);
    } else {
      OthersLeaveUnknown(cfg, run, more, c);
    }
  }

  // ----- the bound is reached -----

  function Burst(c: string, at: int, k: nat): (run: Run)
    ensures |run| == k && forall i :: 0 <= i < k ==> run[i] == Call(c, at)
  {
    seq(k, _ => Call(c, at))
  }

  lemma OneMoreCall(cfg: Config, run: Run, c: string, at: int, lo: int, hi: int)
    ensures StateAfter(cfg, run + [Call(c, at)], true) == AfterCall(cfg, StateAfter(cfg, run, true), c, at)
    ensures Admits(cfg, StateAfter(cfg, run, true), c, at) ==>
      CountIn(Admitted(cfg, run + [Call(c, at)], true, c), lo, hi) ==
      CountIn(Admitted(cfg, run, true, c), lo, hi) + (if lo <= at <= hi then 1 else 0)
  {
    var run', log := run + [Call(c, at)], Admitted(cfg, run, true, c);
    assert run'[..|run'| - 1] == run;
    if Admits(cfg, StateAfter(cfg, run, true), c, at) {
      assert Admitted(cfg, run', true, c) == log + [at];
      assert (log + [at])[..|log|] == log;
    }
  }

  /** As long as tokens last, every call of a burst is admitted. */
  lemma {:induction false} BurstAdmitted(cfg: Config, run: Run, c: string, at: int, k: nat, lo: int, hi: int)
    requires k <= Remaining(cfg, StateAfter(cfg, run, true), c, at)
    ensures Remaining(cfg, StateAfter(cfg, run + Burst(c, at, k), true), c, at) ==
      Remaining(cfg, StateAfter(cfg, run, true), c, at) - k
    ensures CountIn(Admitted(cfg, run + Burst(c, at, k), true, c), lo, hi) ==
      CountIn(Admitted(cfg, run, true, c), lo, hi) + (if lo <= at <= hi then k else 0)
    ensures c in StateAfter(cfg, run, true) && at - StateAfter(cfg, run, true)[c].lastReset <= cfg.window ==>
      c in StateAfter(cfg, run + Burst(c, at, k), true) &&
      StateAfter(cfg, run + Burst(c, at, k), true)[c].lastReset == StateAfter(cfg, run, true)[c].lastReset
  {
    hide StateAfter, Admitted, CountIn;
    if k == 0 {
      assert run + Burst(c, at, 0) == run;
    } else {
      var init := run + Burst(c, at, k - 1);
      BurstAdmitted(cfg, run, c, at, k - 1, lo, hi);
      OneMoreCall(cfg, init, c, at, lo, hi);
      assert run + Burst(c, at, k) == init + [Call(c, at)];
    }
  }

  /** One call at time 0, the rest of the quota at the end of that window and a full quota
      right after it. */
  lemma TwoQuotasInWindow(cfg: Config, c: string) returns (run: Run, lo: int)
    requires cfg.requests > 0 && cfg.window > 0
    ensures Ordered(run)
    ensures CountIn(Admitted(cfg, run, true, c), lo, lo + cfg.window) == 2 * cfg.requests - 1
  {
    hide StateAfter, Admitted, CountIn;
    lo := cfg.window;
    var hi, n := 2 * cfg.window, cfg.requests;
    var first := [Call(c, 0)];
    FirstCall(cfg, c, lo, hi);
    BurstAdmitted(cfg, first, c, lo, n - 1, lo, hi);
    var second := first + Burst(c, lo, n - 1);
    BurstAdmitted(cfg, second, c, lo + 1, n, lo, hi);
    run := second + Burst(c, lo + 1, n);
  }

  /** For every quota and window, also zero ones, some run reaches the bound. */
  lemma WindowBoundIsReached(cfg: Config, c: string) returns (run: Run, lo: int)
    ensures Ordered(run)
    ensures CountIn(Admitted(cfg, run, true, c), lo, lo + cfg.window) == MostInWindow(cfg)
  {
    if cfg.requests <= 0 {
      run, lo := [], 0;
    } else if cfg.window == 0 {
      BurstAdmitted(cfg, [], c, 0, cfg.requests, 0, 0);
      run, lo := [] + Burst(c, 0, cfg.requests), 0;
    } else {
      run, lo := TwoQuotasInWindow(cfg, c);
    }
  }

  lemma FirstCall(cfg: Config, c: string, lo: int, hi: int)
    requires cfg.requests > 0 && 0 < lo
    ensures StateAfter(cfg, [Call(c, 0)], true) == map[c := Bucket(cfg.requests - 1, 0)]
    ensures CountIn(Admitted(cfg, [Call(c, 0)], true, c), lo, hi) == 0
  {
    OneMoreCall(cfg, [], c, 0, lo, hi);
    assert [] + [Call(c, 0)] == [Call(c, 0)];
  }
}
