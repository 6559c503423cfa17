/** The recent-log buffer and its pages (internal/log/log.go). */
module RecentLog {
  import opened Text
  import opened Paging

  const CAPACITY := 2000

  datatype Entry = Entry(id: string, at: int, level: string, message: string, source: string)

  /** Case-insensitive comparison and text search, as the standard library provides them. */
  datatype Matching = Matching(equalFold: (string, string) -> bool, hasQuery: (Entry, string) -> bool)

  datatype Filter = Filter(level: string, source: string, start: Option<int>, end: Option<int>, query: string,
                           limit: int, offset: int)

  predicate Keeps(m: Matching, filter: Option<Filter>, e: Entry) {
    filter.Some? ==>
      var f := filter.value;
      && (f.level == "" || m.equalFold(e.level, f.level))
      && (f.source == "" || m.equalFold(e.source, f.source))
      && (f.start.Some? ==> f.start.value <= e.at)
      && (f.end.Some? ==> e.at <= f.end.value)
      && (f.query == "" || m.hasQuery(e, f.query))
  }

  /** The last `n` elements of a sequence. */
  function LastOf<T>(s: seq<T>, n: nat): (r: seq<T>)
    ensures |r| == if |s| < n then |s| else n
    ensures forall i :: 0 <= i < |r| ==> r[i] == s[|s| - |r| + i]
  {
    if |s| <= n then s else s[|s| - n..]
  }

  function Kept(m: Matching, filter: Option<Filter>, e: Entry): seq<Entry> {
    if Keeps(m, filter, e) then [e] else []
  }

  /** The kept entries, newest first. */
  function Newest(m: Matching, filter: Option<Filter>, entries: seq<Entry>): seq<Entry> {
    if entries == [] then []
    else
      var n := |entries| - 1;
      Kept(m, filter, entries[n]) + Newest(m, filter, entries[..n])
  }

  lemma NewestOfNone(m: Matching, filter: Option<Filter>, entries: seq<Entry>)
    requires entries == []
    ensures Newest(m, filter, entries) == []
  {
  }

  lemma CollectStep(m: Matching, filter: Option<Filter>, entries: seq<Entry>, i: nat, filtered: seq<Entry>)
    requires i < |entries|
    ensures filtered + Newest(m, filter, entries[..i + 1]) ==
            (filtered + Kept(m, filter, entries[i])) + Newest(m, filter, entries[..i])
  {
    hide Kept;
    assert entries[..i + 1][..i] == entries[..i];
  }

  /** The elements of `all` at positions offset .. offset + limit - 1, as far as there are any. */
  function Page(all: seq<Entry>, limit: nat, offset: nat): (page: seq<Entry>)
    ensures |page| <= limit
    ensures forall i :: 0 <= i < |page| ==> offset + i < |all| && page[i] == all[offset + i]
    ensures |page| < limit ==> offset + |page| >= |all|
  {
    if offset >= |all| then []
    else all[offset..if offset + limit > |all| then |all| else offset + limit]
  }

  class Store {
    var entries: seq<Entry>
    ghost var history: seq<Entry>  // everything added since the last clear

    /** The buffer holds exactly the last min(n, 2000) of the n entries added since the last clear, in order. */
    ghost predicate Valid()
      reads this
    {
      entries == LastOf(history, CAPACITY)
    }

    constructor ()
      ensures Valid() && history == []
    {
      entries, history := [], [];
    }

    method Add(entry: Entry)
      requires Valid()
      modifies this
      ensures Valid() && history == old(history) + [entry]
    {
      history := history + [entry];
      if |entries| == CAPACITY {
        entries := entries[1..] + [entries[|entries| - 1]];
        entries := entries[|entries| - 1 := entry];
        return;
      }
      entries := entries + [entry];
    }

    method Clear()
      modifies this
      ensures Valid() && history == [] && entries == []
    {
      entries, history := entries[..0], [];
    }

    /** Finds an id exactly when one of the last 2000 entries has it, and then the newest of those. */
    method Get(id: string) returns (r: Option<Entry>)
      requires Valid()
      ensures r.None? <==> forall e :: e in LastOf(history, CAPACITY) ==> e.id != id
      ensures r.Some? ==>
                exists i :: 0 <= i < |entries| && r.value == entries[i] && r.value.id == id &&
                            forall j :: i < j < |entries| ==> entries[j].id != id
    {
      var i := |entries| - 1;
      while i >= 0
        invariant -1 <= i < |entries|
        invariant forall j :: i < j < |entries| ==> entries[j].id != id
      {
        if entries[i].id == id { return Some(entries[i]); }
        i := i - 1;
      }
      return None;
    }

    /** The filtering loop of List. */
    method Collect(m: Matching, filter: Option<Filter>) returns (filtered: seq<Entry>)
      ensures filtered == Newest(m, filter, entries)
    {
      hide Keeps, Newest;
      filtered := [];
      var i := |entries| - 1;
      assert entries[..|entries|] == entries;
      while i >= 0
        invariant -1 <= i < |entries|
        invariant filtered + Newest(m, filter, entries[..i + 1]) == Newest(m, filter, entries)
      {
        CollectStep(m, filter, entries, i, filtered);
        if Keeps(m, filter, entries[i]) {
          filtered := filtered + [entries[i]];
        }
        i := i - 1;
      }
      NewestOfNone(m, filter, entries[..i + 1]);
    }

    /** Without a filter everything, newest first; with one, the requested page of what it keeps. */
    method List(m: Matching, filter: Option<Filter>) returns (page: seq<Entry>)
      ensures filter.None? ==> page == Newest(m, filter, entries)
      ensures filter.Some? ==>
                page == Page(Newest(m, filter, entries), ClampedLimit(filter.value.limit),
                             if filter.value.offset < 0 then 0 else filter.value.offset)
    {
      var filtered := Collect(m, filter);
      if filter.None? { return filtered; }
      hide Newest;
      var pagination := new Pagination(filter.value.limit, filter.value.offset);
      pagination.Clamp();
      if pagination.offset >= |filtered| { return []; }
      var end := pagination.offset + pagination.limit;
      if end > |filtered| { end := |filtered|; }
      return filtered[pagination.offset..end];
    }
  }

  // ----- paging through a list -----

  /** The first `n` pages, one after the other. */
  function Pages(all: seq<Entry>, limit: nat, n: nat): seq<Entry> {
    if n == 0 then [] else Pages(all, limit, n - 1) + Page(all, limit, (n - 1) * limit)
  }

  /** Successive pages concatenate to a prefix of the list: nothing is lost or repeated. */
  lemma {:induction false} PagesArePrefix(all: seq<Entry>, limit: nat, n: nat)
    ensures Pages(all, limit, n) == all[..if n * limit > |all| then |all| else n * limit]
  {
    if n > 0 {
      PagesArePrefix(all, limit, n - 1);
      assert n * limit == (n - 1) * limit + limit;
    }
  }

  lemma MorePagesReachFurther(n: nat, later: nat, limit: nat)
    requires n <= later
    ensures n * limit <= later * limit
  {
  }

  /** For any requested limit, enough pages give the whole filtered list and every later page is empty. */
  lemma PagesCoverList(all: seq<Entry>, requested: int, n: nat, later: nat)
    requires n * ClampedLimit(requested) >= |all| && later >= n
    ensures Pages(all, ClampedLimit(requested), n) == all
    ensures Page(all, ClampedLimit(requested), later * ClampedLimit(requested)) == []
  {
    hide ClampedLimit, Pages;
    var limit := ClampedLimit(requested);
    MorePagesReachFurther(n, later, limit);
    PagesArePrefix(all, limit, n);
  }

  /** The filtered list has every kept entry as often as the buffer does, and nothing else. */
  lemma {:induction false} NewestKeepsExactly(m: Matching, filter: Option<Filter>, entries: seq<Entry>, e: Entry)
    ensures multiset(Newest(m, filter, entries))[e] == if Keeps(m, filter, e) then multiset(entries)[e] else 0
  {
    if entries != [] {
      var n := |entries| - 1;
      NewestKeepsExactly(m, filter, entries[..n], e);
      assert entries == entries[..n] + [entries[n]];
    }
  }

  /** A filtered list holds an entry exactly when the buffer does, its level and source are the wanted ones up to
      case, it is not older than the start and not younger than the end, and the query matches; a criterion that
      was not given does not matter. */
  lemma FilterMeans(m: Matching, f: Filter, entries: seq<Entry>, e: Entry)
    ensures e in Newest(m, Some(f), entries) <==>
      && e in entries
      && (f.level != "" ==> m.equalFold(e.level, f.level))
      && (f.source != "" ==> m.equalFold(e.source, f.source))
      && (f.start.Some? ==> !(e.at < f.start.value))
      && (f.end.Some? ==> !(e.at > f.end.value))
      && (f.query != "" ==> m.hasQuery(e, f.query))
  {
    NewestKeepsExactly(m, Some(f), entries, e);
  }

  /** Without a filter the list holds the whole buffer. */
  lemma NoFilterKeepsAll(m: Matching, entries: seq<Entry>)
    ensures multiset(Newest(m, None, entries)) == multiset(entries)
  {
    forall e: Entry ensures multiset(Newest(m, None, entries))[e] == multiset(entries)[e] {
      NewestKeepsExactly(m, None, entries, e);
    }
  }

  /** Newer entries come before older ones. */
  lemma {:induction false} NewestFirst(m: Matching, filter: Option<Filter>, older: seq<Entry>, newer: seq<Entry>)
    ensures Newest(m, filter, older + newer) == Newest(m, filter, newer) + Newest(m, filter, older)
    decreases |newer|
  {
    hide Kept;
    if newer == [] {
      assert older + newer == older;
    } else {
      var n := |newer| - 1;
      NewestFirst(m, filter, older, newer[..n]);
      assert (older + newer)[..|older| + n] == older + newer[..n];
      var head := Kept(m, filter, newer[n]);
      assert head + (Newest(m, filter, newer[..n]) + Newest(m, filter, older)) ==
             (head + Newest(m, filter, newer[..n])) + Newest(m, filter, older);
    }
  }
}
