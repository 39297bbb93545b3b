/** The time-to-live cache of inspection results, against a map that never forgets. */
module InspectionCache {
  import opened Common

  datatype Cached<R> = Cached(result: R, cachedAt: nat)

  /** A call; an eviction reads the clock once for each entry, somewhere between its begin and its end. */
  datatype Event<R> =
    | Stored(url: string, result: R, at: nat)
    | Queried(url: string, at: nat)
    | Evicted(begin: nat, end: nat, reading: string -> nat)

  function Begin<R>(e: Event<R>): nat {
    if e.Evicted? then e.begin else e.at
  }

  function End<R>(e: Event<R>): nat {
    if e.Evicted? then e.end else e.at
  }

  /** All readings of an eviction fall between its begin and its end. */
  ghost predicate ReadsWithin(reading: string -> nat, begin: nat, end: nat) {
    begin <= end && forall url :: begin <= reading(url) <= end
  }

  /** `Instant::elapsed`, which never goes below zero. */
  function Age(cachedAt: nat, now: nat): nat {
    if now < cachedAt then 0 else now - cachedAt
  }

  // ----- the reference: what was put last, and when

  function LatestPut<R>(history: seq<Event<R>>, url: string): Option<Cached<R>> {
    if history == [] then None
    else
      var e := history[|history| - 1];
      if e.Stored? && e.url == url then Some(Cached(e.result, e.at)) else LatestPut(history[..|history| - 1], url)
  }

  /** The latest value put for the url, if it is younger than the time-to-live. */
  function Answer<R>(history: seq<Event<R>>, url: string, now: nat, ttl: nat): Option<R> {
    match LatestPut(history, url)
    case None => None
    case Some(c) => if Age(c.cachedAt, now) < ttl then Some(c.result) else None
  }

  // ----- the cache

  type Entries<R> = map<string, Cached<R>>

  function Lookup<R>(entries: Entries<R>, url: string, now: nat, ttl: nat): Option<R> {
    if url in entries && Age(entries[url].cachedAt, now) < ttl then Some(entries[url].result) else None
  }

  function Retained<R>(entries: Entries<R>, reading: string -> nat, ttl: nat): Entries<R> {
    map url | url in entries && Age(entries[url].cachedAt, reading(url)) < ttl :: entries[url]
  }

  function Apply<R>(entries: Entries<R>, e: Event<R>, ttl: nat): Entries<R> {
    match e
    case Stored(url, result, at) => entries[url := Cached(result, at)]
    case Queried(_, _) => entries
    case Evicted(_, _, reading) => Retained(entries, reading, ttl)
  }

  /** The entries after a run. */
  function Run<R>(history: seq<Event<R>>, ttl: nat): Entries<R> {
    if history == [] then map[] else Apply(Run(history[..|history| - 1], ttl), history[|history| - 1], ttl)
  }

  /** The clock never goes backwards during the run. */
  ghost predicate InOrder<R>(history: seq<Event<R>>) {
    && (forall i, j :: 0 <= i < j < |history| ==> End(history[i]) <= Begin(history[j]))
    && (forall e :: e in history && e.Evicted? ==> ReadsWithin(e.reading, e.begin, e.end))
  }

  ghost predicate NotBefore<R>(history: seq<Event<R>>, now: nat) {
    forall e :: e in history ==> End(e) <= now
  }

  lemma {:induction false} LatestPutIsPast<R>(history: seq<Event<R>>, url: string, now: nat)
    requires NotBefore(history, now)
    ensures LatestPut(history, url).Some? ==> LatestPut(history, url).value.cachedAt <= now
  {
    if history == [] {
    } else {
      assert history[|history| - 1] in history;
      LatestPutIsPast(history[..|history| - 1], url, now);
    }
  }

  /** An entry is the latest put; a missing entry was never put, or its latest put has expired. */
  lemma {:induction false} EntryIsLatestOrExpired<R>(history: seq<Event<R>>, url: string, now: nat, ttl: nat)
    requires InOrder(history) && NotBefore(history, now)
    ensures var entries := Run(history, ttl);
      if url in entries then LatestPut(history, url) == Some(entries[url])
      else LatestPut(history, url).None? || Age(LatestPut(history, url).value.cachedAt, now) >= ttl
  {
    if history == [] {
    } else {
      var before, e := history[..|history| - 1], history[|history| - 1];
      assert NotBefore(before, Begin(e));
      assert e.Evicted? ==> e.begin <= e.reading(url) <= e.end;
      EntryIsLatestOrExpired(before, url, now, ttl);
    }
  }

  /** After any run under a clock that does not go backwards, a lookup is the reference answer. */
  lemma {:induction false} CacheIsATimedMap<R>(history: seq<Event<R>>, url: string, now: nat, ttl: nat)
    requires InOrder(history) && NotBefore(history, now)
    ensures Lookup(Run(history, ttl), url, now, ttl) == Answer(history, url, now, ttl)
  {
    EntryIsLatestOrExpired(history, url, now, ttl);
  }

  // ----- eviction cannot be observed

  function WithoutEvictions<R>(history: seq<Event<R>>): seq<Event<R>> {
    if history == [] then []
    else
      var e := history[|history| - 1];
      WithoutEvictions(history[..|history| - 1]) + (if e.Evicted? then [] else [e])
  }

  /** The results of the gets of a run, in order. */
  function Results<R>(history: seq<Event<R>>, ttl: nat): seq<Option<R>> {
    if history == [] then []
    else
      var before, e := history[..|history| - 1], history[|history| - 1];
      Results(before, ttl) + (if e.Queried? then [Lookup(Run(before, ttl), e.url, e.at, ttl)] else [])
  }

  /** The results the reference gives. */
  function ReferenceResults<R>(history: seq<Event<R>>, ttl: nat): seq<Option<R>> {
    if history == [] then []
    else
      var before, e := history[..|history| - 1], history[|history| - 1];
      ReferenceResults(before, ttl) + (if e.Queried? then [Answer(before, e.url, e.at, ttl)] else [])
  }

  lemma {:induction false} LatestPutIgnoresEvictions<R>(history: seq<Event<R>>, url: string)
    ensures LatestPut(WithoutEvictions(history), url) == LatestPut(history, url)
  {
    if history == [] {
    } else {
      var before, e := history[..|history| - 1], history[|history| - 1];
      LatestPutIgnoresEvictions(before, url);
      if !e.Evicted? {
        assert (WithoutEvictions(before) + [e])[..|WithoutEvictions(before)|] == WithoutEvictions(before);
      } else {
        assert WithoutEvictions(before) + [] == WithoutEvictions(before);
      }
    }
  }

  lemma {:induction false} ResultsAreTheReference<R>(history: seq<Event<R>>, ttl: nat)
    requires InOrder(history)
    ensures Results(history, ttl) == ReferenceResults(WithoutEvictions(history), ttl)
  {
    if history == [] {
    } else {
      var before, e := history[..|history| - 1], history[|history| - 1];
      var kept := WithoutEvictions(before);
      ResultsAreTheReference(before, ttl);
      if e.Evicted? {
        assert kept + [] == kept && Results(before, ttl) + [] == Results(before, ttl);
      } else {
        assert (kept + [e])[..|kept|] == kept;
        if e.Queried? {
          assert NotBefore(before, e.at);
          CacheIsATimedMap(before, e.url, e.at, ttl);
          LatestPutIgnoresEvictions(before, e.url);
        }
      }
    }
  }

  /** Adding, moving or dropping evictions anywhere in a run changes no result of a get. */
  lemma EvictionIsUnobservable<R>(a: seq<Event<R>>, b: seq<Event<R>>, ttl: nat)
    requires InOrder(a) && InOrder(b) && WithoutEvictions(a) == WithoutEvictions(b)
    ensures Results(a, ttl) == Results(b, ttl)
  {
    ResultsAreTheReference(a, ttl);
    ResultsAreTheReference(b, ttl);
  }

  /** The clock must not go backwards: otherwise an eviction shows. */
  lemma BackwardClockShowsEviction<R>(url: string, result: R, ttl: nat)
    requires ttl > 0
    ensures var history := [Stored(url, result, 0), Evicted(ttl, ttl, _ => ttl), Queried(url, 0)];
      Results(history, ttl) == [None] && ReferenceResults(WithoutEvictions(history), ttl) == [Some(result)]
  {
    var p, e, g := Stored(url, result, 0), Evicted(ttl, ttl, _ => ttl), Queried(url, 0);
    var history := [p, e, g];
    assert history[..2] == [p, e] && [p, e][..1] == [p] && [p][..0] == [] && [p, g][..1] == [p];
    assert Run([p], ttl) == map[url := Cached(result, 0)];
    assert Run([p, e], ttl) == map[];
    assert WithoutEvictions([p]) == [p] && WithoutEvictions([p, e]) == [p];
    assert WithoutEvictions(history) == [p, g];
    assert Results([p], ttl) == Results([], ttl) + [] == [];
    assert Results([p, e], ttl) == Results([p], ttl) + [] == [];
    assert ReferenceResults([p], ttl) == ReferenceResults([], ttl) + [] == [];
    assert LatestPut([p], url) == Some(Cached(result, 0));
    assert [p, g][1] == g;
  }

  // ----- the shared object

  /** `history` records the calls that changed the entries; every call is given its clock readings. */
  class Cache<R> {
    var entries: Entries<R>
    const ttl: nat
    ghost var history: seq<Event<R>>

    ghost predicate Valid()
      reads this
    {
      InOrder(history) && entries == Run(history, ttl)
    }

    constructor (ttl: nat)
      ensures Valid() && this.ttl == ttl && history == []
    {
      entries := map[];
      this.ttl := ttl;
      history := [];
    }

    method Get(url: string, now: nat) returns (r: Option<R>)
      requires Valid() && NotBefore(history, now)
      ensures r == Answer(history, url, now, ttl)
      ensures match LatestPut(history, url)
        case None => r == None
        case Some(c) => r == if now < c.cachedAt + ttl then Some(c.result) else None
    {
      LatestPutIsPast(history, url, now);
      CacheIsATimedMap(history, url, now, ttl);
      if url !in entries {
        return None;
      }
      var cached := entries[url];
      if Age(cached.cachedAt, now) < ttl {
        r := Some(cached.result);
      } else {
        r := None;
      }
    }

    method Put(url: string, result: R, now: nat)
      requires Valid() && NotBefore(history, now)
      modifies this
      ensures Valid() && history == old(history) + [Stored(url, result, now)]
      ensures entries == old(entries)[url := Cached(result, now)]
    {
      entries := entries[url := Cached(result, now)];
      history := history + [Stored(url, result, now)];
      assert history[..|history| - 1] == old(history);
    }

    /** `retain` with a clock reading for each entry. */
    method EvictExpired(begin: nat, end: nat, reading: string -> nat)
      requires Valid() && NotBefore(history, begin) && ReadsWithin(reading, begin, end)
      modifies this
      ensures Valid() && history == old(history) + [Evicted(begin, end, reading)]
      ensures forall url :: url in entries <==> url in old(entries) && reading(url) < old(entries)[url].cachedAt + ttl
      ensures forall url :: url in entries ==> entries[url] == old(entries)[url]
    {
      forall url | url in entries ensures entries[url].cachedAt <= reading(url) {
        EntryIsLatestOrExpired(history, url, begin, ttl);
        LatestPutIsPast(history, url, begin);
      }
      entries := map url | url in entries && Age(entries[url].cachedAt, reading(url)) < ttl :: entries[url];
      history := history + [Evicted(begin, end, reading)];
      assert history[..|history| - 1] == old(history);
    }
  }
}
