/** Sessions held by the in-memory store (internal/auth/session.go, internal/auth/memory_store.go). */
module Sessions {
  import opened Text

  /** What a session says; `expires` is the last instant at which it is still accepted. */
  datatype Entry = Entry(user: string, username: string, isAdmin: bool, created: int, expires: int)

  type View = map<string, Entry>

  /** One call with the clock readings it makes; a refresh reads the clock twice. */
  datatype Call =
    | Create(token: string, user: string, username: string, isAdmin: bool, at: int)
    | Get(token: string, at: int)
    | Refresh(token: string, checked: int, at: int)
    | Invalidate(token: string, at: int)
    | InvalidateUser(user: string, at: int)
    | Cleanup(at: int)
  {
    function Begins(): int {
      if Refresh? then checked else at
    }
  }

  datatype Answer = Ok(entry: Entry) | NotFound | Expired | Done

  function Lookup(v: View, token: string, now: int): Answer {
    if token == "" || token !in v then NotFound
    else if now > v[token].expires then Expired
    else Ok(v[token])
  }

  function Without(v: View, token: string): View {
    map t | t in v && t != token :: v[t]
  }

  function WithoutUser(v: View, user: string): View {
    map t | t in v && v[t].user != user :: v[t]
  }

  function WithoutExpired(v: View, now: int): View {
    map t | t in v && now <= v[t].expires :: v[t]
  }

  function Renewed(e: Entry, ttl: int, at: int): Entry {
    e.(expires := at + ttl)
  }

  function Answered(v: View, ttl: int, c: Call): Answer {
    match c
    case Create(_, user, username, isAdmin, at) => Ok(Entry(user, username, isAdmin, at, at + ttl))
    case Get(token, at) => Lookup(v, token, at)
    case Refresh(token, checked, at) =>
      var found := Lookup(v, token, checked);
      if found.Ok? then Ok(Renewed(found.entry, ttl, at)) else found
    case Invalidate(token, _) => if token == "" || token !in v then NotFound else Done
    case InvalidateUser(_, _) => Done
    case Cleanup(_) => Done
  }

  function Step(v: View, ttl: int, c: Call): View {
    match c
    case Create(token, _, _, _, _) => v[token := Answered(v, ttl, c).entry]
    case Get(token, at) => if Lookup(v, token, at).Expired? then Without(v, token) else v
    case Refresh(token, checked, at) =>
      var found := Lookup(v, token, checked);
      if found.Ok? then v[token := Renewed(found.entry, ttl, at)]
      else if found.Expired? then Without(v, token)
      else v
    case Invalidate(token, _) => if token == "" then v else Without(v, token)
    case InvalidateUser(user, _) => if user == "" then v else WithoutUser(v, user)
    case Cleanup(at) => WithoutExpired(v, at)
  }

  // ----- the objects -----

  class Session {
    const token: string
    const user: string
    const username: string
    const isAdmin: bool
    const created: int
    var expires: int

    constructor (token: string, user: string, username: string, isAdmin: bool, created: int, expires: int)
      ensures this.token == token && Value() == Entry(user, username, isAdmin, created, expires)
    {
      this.token, this.user, this.username, this.isAdmin := token, user, username, isAdmin;
      this.created, this.expires := created, expires;
    }

    function Value(): Entry
      reads this
    {
      Entry(user, username, isAdmin, created, expires)
    }
  }

  datatype Found = Held(session: Session) | Missing | TooOld

  class MemoryStore {
    var sessions: map<string, Session>

    constructor ()
      ensures Valid() && View() == map[]
    {
      sessions := map[];
    }

    ghost predicate Valid()
      reads this
    {
      forall t :: t in sessions ==> sessions[t].token == t
    }

    ghost function View(): View
      reads this, sessions.Values
    {
      map t | t in sessions :: sessions[t].Value()
    }

    method Save(session: Session)
      requires Valid()
      modifies this
      ensures Valid() && sessions == old(sessions)[session.token := session]
    {
      sessions := sessions[session.token := session];
    }

    method Get(token: string, now: int) returns (r: Found)
      requires Valid()
      modifies this
      ensures Valid()
      ensures token !in old(sessions) ==> r == Missing && sessions == old(sessions)
      ensures token in old(sessions) && now > old(sessions[token].expires) ==>
                r == TooOld && sessions == old(sessions) - {token}
      ensures token in old(sessions) && now <= old(sessions[token].expires) ==>
                r == Held(old(sessions[token])) && sessions == old(sessions)
    {
      if token !in sessions { return Missing; }
      var session := sessions[token];
      if now > session.expires {
        var _ := Delete(token);
        return TooOld;
      }
      return Held(session);
    }

    method Delete(token: string) returns (found: bool)
      requires Valid()
      modifies this
      ensures Valid() && found == (token in old(sessions)) && sessions == old(sessions) - {token}
    {
      if token !in sessions { return false; }
      sessions := sessions - {token};
      return true;
    }

    method DeleteByUser(user: string)
      requires Valid()
      modifies this
      ensures Valid() && View() == WithoutUser(old(View()), user)
    {
      var left := sessions.Keys;
      while left != {}
        invariant left <= old(sessions).Keys
        invariant forall t :: t in sessions ==> t in old(sessions) && sessions[t] == old(sessions)[t]
        invariant forall t :: t in old(sessions) ==> (t in sessions <==> t in left || old(sessions)[t].user != user)
        decreases |left|
      {
        var token :| token in left;
        if sessions[token].user == user {
          sessions := sessions - {token};
        }
        left := left - {token};
      }
    }

    method Cleanup(now: int)
      requires Valid()
      modifies this
      ensures Valid() && View() == WithoutExpired(old(View()), now)
    {
      var left := sessions.Keys;
      while left != {}
        invariant left <= old(sessions).Keys
        invariant forall t :: t in sessions ==> t in old(sessions) && sessions[t] == old(sessions)[t]
        invariant forall t :: t in old(sessions) ==> (t in sessions <==> t in left || now <= old(sessions[t].expires))
        decreases |left|
      {
        var token :| token in left;
        if now > sessions[token].expires {
          sessions := sessions - {token};
        }
        left := left - {token};
      }
    }
  }

  class SessionManager {
    const store: MemoryStore
    const ttl: int

    constructor (ttl: int)
      ensures fresh(store) && this.ttl == ttl && store.Valid() && store.View() == map[]
    {
      this.store := new MemoryStore();
      this.ttl := ttl;
    }

    /** `token` is the generated token, or None when the random source failed. */
    method CreateSession(token: Option<string>, user: string, username: string, isAdmin: bool, now: int)
      returns (r: Option<Session>)
      requires store.Valid()
      modifies store
      ensures store.Valid() && r.Some? == token.Some?
      ensures token.None? ==> store.View() == old(store.View())
      ensures token.Some? ==>
                var c := Create(token.value, user, username, isAdmin, now);
                && store.View() == Step(old(store.View()), ttl, c)
                && fresh(r.value) && Ok(r.value.Value()) == Answered(old(store.View()), ttl, c)
    {
      if token.None? { return None; }
      var session := new Session(token.value, user, username, isAdmin, now, now + ttl);
      store.Save(session);
      return Some(session);
    }

    method GetSession(token: string, now: int) returns (r: Found)
      requires store.Valid()
      modifies store
      ensures store.Valid() && store.View() == Step(old(store.View()), ttl, Get(token, now))
      ensures AnswerOf(r) == Answered(old(store.View()), ttl, Get(token, now))
      ensures r.Held? ==> token in store.sessions && r.session == store.sessions[token]
      ensures store.sessions.Values <= old(store.sessions.Values)
    {
      if token == "" { return Missing; }
      r := store.Get(token, now);
    }

    /** The session object is shared with the store: its expiry is overwritten in place, then saved. */
    method RefreshSession(token: string, checked: int, now: int) returns (r: Found)
      requires store.Valid()
      modifies store, store.sessions.Values
      ensures store.Valid() && store.View() == Step(old(store.View()), ttl, Refresh(token, checked, now))
      ensures AnswerOf(r) == Answered(old(store.View()), ttl, Refresh(token, checked, now))
    {
      r := GetSession(token, checked);
      if !r.Held? { return; }
      var session := r.session;
      session.expires := now + ttl;
      store.Save(session);
    }

    method InvalidateSession(token: string, now: int) returns (ok: bool)
      requires store.Valid()
      modifies store
      ensures store.Valid() && store.View() == Step(old(store.View()), ttl, Invalidate(token, now))
      ensures ok == Answered(old(store.View()), ttl, Invalidate(token, now)).Done?
    {
      if token == "" { return false; }
      ok := store.Delete(token);
    }

    method InvalidateUserSessions(user: string, now: int)
      requires store.Valid()
      modifies store
      ensures store.Valid() && store.View() == Step(old(store.View()), ttl, InvalidateUser(user, now))
    {
      if user == "" { return; }
      store.DeleteByUser(user);
    }

    method CleanupExpiredSessions(now: int)
      requires store.Valid()
      modifies store
      ensures store.Valid() && store.View() == Step(old(store.View()), ttl, Cleanup(now))
    {
      store.Cleanup(now);
    }
  }

  ghost function AnswerOf(r: Found): Answer
    reads if r.Held? then {r.session} else {}
  {
    match r
    case Held(session) => Ok(session.Value())
    case Missing => NotFound
    case TooOld => Expired
  }

  // ----- runs -----

  function After(ttl: int, run: seq<Call>): View {
    if run == [] then map[] else Step(After(ttl, run[..|run| - 1]), ttl, run[|run| - 1])
  }

  /** The clock never goes back. */
  ghost predicate Ordered(run: seq<Call>) {
    && (forall i :: 0 <= i < |run| ==> run[i].Begins() <= run[i].at)
    && (forall i, j :: 0 <= i < j < |run| ==> run[i].at <= run[j].Begins())
  }

  ghost predicate Before(run: seq<Call>, now: int) {
    Ordered(run) && forall i :: 0 <= i < |run| ==> run[i].at <= now
  }

  /** The session a token stands for by the history of calls alone: set by its creation, prolonged by a
      refresh that comes in time, ended by an invalidation. Nothing is forgotten here. */
  function Granted(ttl: int, run: seq<Call>, t: string): Option<Entry> {
    if run == [] then None else GrantedBy(ttl, Granted(ttl, run[..|run| - 1], t), run[|run| - 1], t)
  }

  function GrantedBy(ttl: int, granted: Option<Entry>, c: Call, t: string): Option<Entry> {
    match c
    case Create(token, user, username, isAdmin, at) =>
      if token == t then Some(Entry(user, username, isAdmin, at, at + ttl)) else granted
    case Refresh(token, checked, at) =>
      if token == t && granted.Some? && checked <= granted.value.expires then Some(Renewed(granted.value, ttl, at))
      else granted
    case Invalidate(token, _) => if token == t then None else granted
    case InvalidateUser(user, _) => if granted.Some? && user != "" && granted.value.user == user then None else granted
    case Get(_, _) => granted
    case Cleanup(_) => granted
  }

  /** The store holds what was granted, except for sessions that have expired. */
  ghost predicate Tracks(v: View, granted: Option<Entry>, t: string, now: int) {
    && (t in v ==> granted == Some(v[t]))
    && (t !in v && granted.Some? ==> granted.value.expires < now)
  }

  lemma {:induction false} StoreTracksGrants(ttl: int, run: seq<Call>, t: string, now: int)
    requires Before(run, now) && t != ""
    ensures Tracks(After(ttl, run), Granted(ttl, run, t), t, now)
  {
    if run != [] {
      var n := |run| - 1;
      StoreTracksGrants(ttl, run[..n], t, run[n].Begins());
    }
  }

  /** The session that a lookup at `now` must find. */
  function Live(ttl: int, run: seq<Call>, t: string, now: int): Option<Entry> {
    var granted := Granted(ttl, run, t);
    if t != "" && granted.Some? && now <= granted.value.expires then granted else None
  }

  /** GetSession succeeds exactly when the token is granted and not yet expired, and returns that session. */
  lemma GetSucceedsExactly(ttl: int, run: seq<Call>, t: string, now: int, e: Entry)
    requires Before(run, now)
    ensures Answered(After(ttl, run), ttl, Get(t, now)) == Ok(e) <==> Live(ttl, run, t, now) == Some(e)
  {
    if t != "" {
      StoreTracksGrants(ttl, run, t, now);
    }
  }

  /** A refresh succeeds exactly then too, and grants a full lifetime from its second clock reading. */
  lemma RefreshSucceedsExactly(ttl: int, run: seq<Call>, t: string, checked: int, at: int, e: Entry)
    requires Before(run, checked) && checked <= at
    ensures Answered(After(ttl, run), ttl, Refresh(t, checked, at)) == Ok(e) <==>
            Live(ttl, run, t, checked).Some? && e == Renewed(Live(ttl, run, t, checked).value, ttl, at)
  {
    if t != "" {
      StoreTracksGrants(ttl, run, t, checked);
    }
  }

  // ----- what a grant means -----

  predicate Ends(c: Call, t: string, user: string) {
    || (c.Invalidate? && c.token == t)
    || (c.InvalidateUser? && user != "" && c.user == user)
    || (c.Create? && c.token == t)
  }

  /** Call `i` created the token and nothing since ended it. */
  ghost predicate CreatedAt(run: seq<Call>, t: string, i: nat) {
    && i < |run| && run[i].Create? && run[i].token == t
    && forall j :: i < j < |run| ==> !Ends(run[j], t, run[i].user)
  }

  /** A refresh of the token that came in time for expiry `expires`. */
  predicate Prolongs(c: Call, t: string, expires: int) {
    c.Refresh? && c.token == t && c.checked <= expires
  }

  /** Every grant goes back to a creation that nothing has ended since; its expiry is one lifetime after that
      creation or after the last refresh that came in time. */
  lemma {:induction false} GrantGoesBack(ttl: int, run: seq<Call>, t: string) returns (i: nat, k: nat)
    requires Granted(ttl, run, t).Some?
    ensures CreatedAt(run, t, i)
    ensures var e := Granted(ttl, run, t).value;
      && i <= k < |run|
      && e == Entry(run[i].user, run[i].username, run[i].isAdmin, run[i].at, run[k].at + ttl)
      && (k > i ==> var was := Granted(ttl, run[..k], t); was.Some? && Prolongs(run[k], t, was.value.expires))
      && forall j :: k < j < |run| ==> !Prolongs(run[j], t, e.expires)
  {
    var n := |run| - 1;
    var c := run[n];
    if c.Create? && c.token == t {
      i, k := n, n;
    } else {
      i, k := GrantGoesBack(ttl, run[..n], t);
      assert run[..n][..k] == run[..k];
      if Prolongs(c, t, Granted(ttl, run[..n], t).value.expires) {
        k := n;
      }
    }
  }

  /** A token that was created and not ended since is granted. */
  lemma {:induction false} CreatedIsGranted(ttl: int, run: seq<Call>, t: string, i: nat)
    requires CreatedAt(run, t, i)
    ensures Granted(ttl, run, t).Some? && Granted(ttl, run, t).value.user == run[i].user
  {
    var n := |run| - 1;
    if i < n {
      assert !Ends(run[n], t, run[i].user);
      CreatedIsGranted(ttl, run[..n], t, i);
    }
  }

  // ----- expired sessions stay expired -----

  lemma {:induction false} ExpiredStaysExpired(
    ttl: int, run: seq<Call>, more: seq<Call>, t: string, now: int, later: int)
    requires Before(run, now) && Before(more, later) && now <= later
    requires forall i :: 0 <= i < |more| ==> now <= more[i].Begins() && !(more[i].Create? && more[i].token == t)
    requires Live(ttl, run, t, now).None?
    ensures Live(ttl, run + more, t, later).None?
    decreases |more|
  {
    if more == [] {
      assert run + more == run;
    } else {
      var n := |more| - 1;
      ExpiredStaysExpired(ttl, run, more[..n], t, now, more[n].Begins());
      assert (run + more)[..|run| + n] == run + more[..n];
    }
  }

  // ----- cleaning up -----

  function NoCleanups(run: seq<Call>): seq<Call> {
    if run == [] then []
    else
      var n := |run| - 1;
      NoCleanups(run[..n]) + if run[n].Cleanup? then [] else [run[n]]
  }

  lemma {:induction false} NoCleanupsOrdered(run: seq<Call>, now: int)
    requires Before(run, now)
    ensures Before(NoCleanups(run), now)
  {
    if run != [] {
      var n := |run| - 1;
      NoCleanupsOrdered(run[..n], run[n].Begins());
    }
  }

  lemma {:induction false} GrantsIgnoreCleanup(ttl: int, run: seq<Call>, t: string)
    ensures Granted(ttl, NoCleanups(run), t) == Granted(ttl, run, t)
  {
    if run != [] {
      var n := |run| - 1;
      GrantsIgnoreCleanup(ttl, run[..n], t);
      var quiet, c := NoCleanups(run[..n]), run[n];
      if c.Cleanup? {
        assert quiet + [] == quiet;
      } else {
        hide GrantedBy;
        assert (quiet + [c])[..|quiet|] == quiet;
      }
    }
  }

  /** Cleanup passes anywhere in a run change neither which lookups and refreshes succeed nor what they return. */
  lemma CleanupUnobservable(ttl: int, run: seq<Call>, t: string, checked: int, at: int, e: Entry)
    requires Before(run, checked) && checked <= at
    ensures Answered(After(ttl, run), ttl, Get(t, checked)) == Ok(e) <==>
            Answered(After(ttl, NoCleanups(run)), ttl, Get(t, checked)) == Ok(e)
    ensures Answered(After(ttl, run), ttl, Refresh(t, checked, at)) == Ok(e) <==>
            Answered(After(ttl, NoCleanups(run)), ttl, Refresh(t, checked, at)) == Ok(e)
  {
    NoCleanupsOrdered(run, checked);
    GrantsIgnoreCleanup(ttl, run, t);
    GetSucceedsExactly(ttl, run, t, checked, e);
    GetSucceedsExactly(ttl, NoCleanups(run), t, checked, e);
    RefreshSucceedsExactly(ttl, run, t, checked, at, e);
    RefreshSucceedsExactly(ttl, NoCleanups(run), t, checked, at, e);
  }

  // ----- when a cleanup is noticed -----

  /** The call makes the store drop a session of `t` that expired at `expires`; passes count if `cleanups`. */
  predicate Drops(c: Call, t: string, expires: int, cleanups: bool) {
    match c
    case Get(token, at) => token == t && at > expires
    case Refresh(token, checked, _) => token == t && checked > expires
    case Cleanup(at) => cleanups && at > expires
    case _ => false
  }

  predicate Creates(c: Call, t: string) {
    c.Create? && c.token == t
  }

  /** Such a call came, and the token was not created again since. */
  ghost predicate Dropped(run: seq<Call>, t: string, expires: int, cleanups: bool) {
    exists j :: 0 <= j < |run| && Drops(run[j], t, expires, cleanups) &&
      forall m :: j < m < |run| ==> !Creates(run[m], t)
  }

  lemma DroppedStep(run: seq<Call>, t: string, expires: int, cleanups: bool)
    requires run != []
    ensures var init, c := run[..|run| - 1], run[|run| - 1];
      Dropped(run, t, expires, cleanups) <==>
      !Creates(c, t) && (Dropped(init, t, expires, cleanups) || Drops(c, t, expires, cleanups))
  {
    hide Drops, Creates;
    var n := |run| - 1;
    var init, c := run[..n], run[n];
    if Dropped(run, t, expires, cleanups) && !Creates(c, t) && !Drops(c, t, expires, cleanups) {
      var j :| 0 <= j < |run| && Drops(run[j], t, expires, cleanups) &&
        forall m :: j < m < |run| ==> !Creates(run[m], t);
      assert Drops(init[j], t, expires, cleanups);
    }
    if !Creates(c, t) && Dropped(init, t, expires, cleanups) {
      var j :| 0 <= j < n && Drops(init[j], t, expires, cleanups) && forall m :: j < m < n ==> !Creates(init[m], t);
      assert Drops(run[j], t, expires, cleanups);
      assert forall m :: j < m < n ==> !Creates(init[m], t) && init[m] == run[m];
    }
    CreatingDropsNothing(c, t, expires, cleanups);
  }

  lemma CreatingDropsNothing(c: Call, t: string, expires: int, cleanups: bool)
    ensures Creates(c, t) ==> !Drops(c, t, expires, cleanups)
  {
  }

  /** A grant was given at a time that has passed. */
  lemma {:induction false} GrantIsPast(ttl: int, run: seq<Call>, t: string, now: int)
    requires Before(run, now)
    ensures Granted(ttl, run, t).Some? ==> Granted(ttl, run, t).value.expires <= now + ttl
  {
    if run != [] {
      GrantIsPast(ttl, run[..|run| - 1], t, run[|run| - 1].Begins());
    }
  }

  lemma DroppedIsPast(run: seq<Call>, t: string, expires: int, cleanups: bool, now: int)
    requires Before(run, now) && Dropped(run, t, expires, cleanups)
    ensures expires < now
  {
  }

  /** A session that a refresh has just renewed was not dropped before. */
  lemma RenewedIsNotDropped(ttl: int, init: seq<Call>, c: Call, t: string)
    requires Before(init, c.Begins()) && c.Begins() <= c.at
    requires Granted(ttl, init, t).Some?
    requires Prolongs(c, t, Granted(ttl, init, t).value.expires)
    ensures !Dropped(init, t, c.at + ttl, true) && !Drops(c, t, c.at + ttl, true)
  {
    GrantIsPast(ttl, init, t, c.Begins());
    if Dropped(init, t, c.at + ttl, true) {
      DroppedIsPast(init, t, c.at + ttl, true, c.Begins());
    }
  }

  /** A call that neither creates nor renews the token's session ends it, drops it or leaves it. */
  lemma StoredStep(ttl: int, v: View, granted: Option<Entry>, c: Call, t: string)
    requires t != "" && Tracks(v, granted, t, c.Begins())
    requires !Creates(c, t) && !(granted.Some? && Prolongs(c, t, granted.value.expires))
    ensures var granted' := GrantedBy(ttl, granted, c, t);
      && (granted' == granted || granted' == None)
      && (t in Step(v, ttl, c) <==> t in v && granted'.Some? && !Drops(c, t, granted'.value.expires, true))
  {
  }

  lemma StoredWhenGiven(ttl: int, v: View, granted: Option<Entry>, c: Call, t: string)
    requires t != "" && Tracks(v, granted, t, c.Begins())
    requires Creates(c, t) || (granted.Some? && Prolongs(c, t, granted.value.expires))
    ensures t in Step(v, ttl, c) && GrantedBy(ttl, granted, c, t).Some?
    ensures !Creates(c, t) ==> GrantedBy(ttl, granted, c, t).value.expires == c.at + ttl
  {
  }

  /** The store holds a token exactly when it is granted and has not been dropped. */
  lemma {:induction false} StoredExactly(ttl: int, run: seq<Call>, t: string, now: int)
    requires Before(run, now) && t != ""
    ensures var granted := Granted(ttl, run, t);
      t in After(ttl, run) <==> granted.Some? && !Dropped(run, t, granted.value.expires, true)
  {
    if run != [] {
      var n := |run| - 1;
      var init, c := run[..n], run[n];
      assert Before(init, c.Begins()) && c.Begins() <= c.at;
      hide Step, GrantedBy, Drops, Creates, Dropped, Before, Tracks, Prolongs;
      StoredExactly(ttl, init, t, c.Begins());
      StoreTracksGrants(ttl, init, t, c.Begins());
      var v, was, granted := After(ttl, init), Granted(ttl, init, t), Granted(ttl, run, t);
      if granted.Some? {
        DroppedStep(run, t, granted.value.expires, true);
      }
      if Creates(c, t) {
        StoredWhenGiven(ttl, v, was, c, t);
      } else if was.Some? && Prolongs(c, t, was.value.expires) {
        StoredWhenGiven(ttl, v, was, c, t);
        RenewedIsNotDropped(ttl, init, c, t);
      } else {
        StoredStep(ttl, v, was, c, t);
      }
    }
  }

  /** Leaving out the passes leaves the other calls that drop a session. */
  lemma {:induction false} DroppedWithoutCleanups(run: seq<Call>, t: string, expires: int)
    ensures Dropped(NoCleanups(run), t, expires, true) <==> Dropped(run, t, expires, false)
  {
    if run != [] {
      var n := |run| - 1;
      var quiet, c := NoCleanups(run[..n]), run[n];
      DroppedWithoutCleanups(run[..n], t, expires);
      DroppedStep(run, t, expires, false);
      if c.Cleanup? {
        assert NoCleanups(run) == quiet;
      } else {
        assert NoCleanups(run) == quiet + [c];
        assert (quiet + [c])[..|quiet|] == quiet;
        DroppedStep(quiet + [c], t, expires, true);
      }
    }
  }

  /** Only cleanup has dropped the token's session: a pass came after it expired, but no lookup and no refresh. */
  ghost predicate OnlyCleanedUp(ttl: int, run: seq<Call>, t: string) {
    var granted := Granted(ttl, run, t);
    && t != "" && granted.Some?
    && Dropped(run, t, granted.value.expires, true) && !Dropped(run, t, granted.value.expires, false)
  }

  lemma StoredWithoutCleanups(ttl: int, run: seq<Call>, t: string, now: int)
    requires Before(run, now) && t != ""
    ensures t in After(ttl, run) ==> t in After(ttl, NoCleanups(run))
    ensures OnlyCleanedUp(ttl, run, t) <==> t !in After(ttl, run) && t in After(ttl, NoCleanups(run))
  {
    StoredExactly(ttl, run, t, now);
    NoCleanupsOrdered(run, now);
    StoredExactly(ttl, NoCleanups(run), t, now);
    GrantsIgnoreCleanup(ttl, run, t);
    var granted := Granted(ttl, run, t);
    if granted.Some? {
      DroppedWithoutCleanups(run, t, granted.value.expires);
      CleanupsDropMore(run, t, granted.value.expires);
    }
  }

  lemma CleanupsDropMore(run: seq<Call>, t: string, expires: int)
    ensures Dropped(run, t, expires, false) ==> Dropped(run, t, expires, true)
  {
    if Dropped(run, t, expires, false) {
      var j :| 0 <= j < |run| && Drops(run[j], t, expires, false) && forall m :: j < m < |run| ==> !Creates(run[m], t);
      assert Drops(run[j], t, expires, true);
    }
  }

  /** The full answers of a lookup, a refresh and an invalidation, errors included, are the same as without any
      cleanup pass exactly when it is not the case that only cleanup has dropped the session. */
  lemma CleanupNoticedExactly(ttl: int, run: seq<Call>, t: string, checked: int, at: int)
    requires Before(run, checked) && checked <= at
    ensures var v, quiet := After(ttl, run), After(ttl, NoCleanups(run));
      && (Answered(v, ttl, Get(t, checked)) == Answered(quiet, ttl, Get(t, checked)) <==> !OnlyCleanedUp(ttl, run, t))
      && (Answered(v, ttl, Refresh(t, checked, at)) == Answered(quiet, ttl, Refresh(t, checked, at)) <==>
            !OnlyCleanedUp(ttl, run, t))
      && (Answered(v, ttl, Invalidate(t, at)) == Answered(quiet, ttl, Invalidate(t, at)) <==>
            !OnlyCleanedUp(ttl, run, t))
  {
    if t != "" {
      hide OnlyCleanedUp, Granted, After;
      StoredWithoutCleanups(ttl, run, t, checked);
      StoreTracksGrants(ttl, run, t, checked);
      NoCleanupsOrdered(run, checked);
      StoreTracksGrants(ttl, NoCleanups(run), t, checked);
      GrantsIgnoreCleanup(ttl, run, t);
    }
  }

  /** A session that expired at 10 and was cleaned up at 11: a lookup then says "not found" instead of
      "expired", and an invalidation fails instead of succeeding. */
  lemma CleanupCanBeNoticed()
    ensures var run := [Create("t", "u", "n", false, 0)];
      && Answered(After(10, run), 10, Get("t", 11)) == Expired
      && Answered(After(10, run + [Cleanup(11)]), 10, Get("t", 11)) == NotFound
      && Answered(After(10, run), 10, Invalidate("t", 11)) == Done
      && Answered(After(10, run + [Cleanup(11)]), 10, Invalidate("t", 11)) == NotFound
  {
    var run := [Create("t", "u", "n", false, 0)];
    assert After(10, run[..0]) == map[];
    assert (run + [Cleanup(11)])[..1] == run;
  }
}
