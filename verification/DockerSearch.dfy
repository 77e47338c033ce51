// Searching the repositories of a Docker Hub namespace page by page: SearchCursor of
// pkg/dockerhub/search.go over HubNamespace of pkg/dockerhub/repositories.go.
//
// The hub is a fixed, non-empty list of pages; a page carries the URL of the next one, empty on the
// last. Loading a page may fail, in any order but only a given number of times.

module DockerSearch {
  import opened Common

  datatype Repository = Repository(name: string, namespace: string)

  datatype Page = Page(results: seq<Repository>, next: string)

  predicate Linked(pages: seq<Page>) {
    pages != [] && forall k :: 0 <= k < |pages| ==> (pages[k].next == "" <==> k == |pages| - 1)
  }

  /** All repositories of the first n pages, in order. */
  function Listed(pages: seq<Page>, n: nat): seq<Repository>
    requires n <= |pages|
  {
    if n == 0 then [] else Listed(pages, n - 1) + pages[n - 1].results
  }

  predicate Matches(repository: Repository, query: string) {
    query <= repository.name
  }

  /** The matching repositories, in order: what an eager search would return. */
  function Matching(repositories: seq<Repository>, query: string): seq<Repository> {
    if repositories == [] then []
    else (if Matches(repositories[0], query) then [repositories[0]] else []) + Matching(repositories[1..], query)
  }

  datatype Lookup = NotFound | Found(repository: Repository)

  /** k is the index of the first match, or -1 when there is none. */
  ghost predicate IsFirstMatch(repositories: seq<Repository>, query: string, k: int) {
    && -1 <= k < |repositories|
    && (k >= 0 ==> Matches(repositories[k], query))
    && forall j :: 0 <= j < (if k >= 0 then k else |repositories|) ==> !Matches(repositories[j], query)
  }

  lemma Regroup(a: seq<Repository>, b: seq<Repository>, c: seq<Repository>)
    ensures a + (b + c) == a + b + c
  {
  }

  lemma {:induction false} MatchingConcat(a: seq<Repository>, b: seq<Repository>, query: string)
    ensures Matching(a + b, query) == Matching(a, query) + Matching(b, query)
  {
    if a == [] {
      assert a + b == b;
    } else {
      assert (a + b)[1..] == a[1..] + b;
      MatchingConcat(a[1..], b, query);
      Regroup(if Matches(a[0], query) then [a[0]] else [], Matching(a[1..], query), Matching(b, query));
    }
  }

  lemma FirstMatchTail(repositories: seq<Repository>, query: string, k: int)
    requires IsFirstMatch(repositories, query, k) && repositories != [] && k != 0
    ensures !Matches(repositories[0], query)
    ensures IsFirstMatch(repositories[1..], query, if k < 0 then k else k - 1)
  {
    var rest := repositories[1..];
    assert forall j :: 0 <= j < |rest| ==> rest[j] == repositories[j + 1];
  }

  lemma {:induction false} NoMatch(repositories: seq<Repository>, query: string)
    requires IsFirstMatch(repositories, query, -1)
    ensures Matching(repositories, query) == []
  {
    if repositories != [] {
      FirstMatchTail(repositories, query, -1);
      NoMatch(repositories[1..], query);
    }
  }

  lemma {:induction false} FirstMatchSplits(repositories: seq<Repository>, query: string, k: nat)
    requires IsFirstMatch(repositories, query, k)
    ensures Matching(repositories, query) == [repositories[k]] + Matching(repositories[k + 1..], query)
  {
    if k > 0 {
      var rest := repositories[1..];
      FirstMatchTail(repositories, query, k);
      FirstMatchSplits(rest, query, k - 1);
      assert rest[k..] == repositories[k + 1..];
    }
  }

  lemma {:induction false} ListedGrows(pages: seq<Page>, n: nat, m: nat)
    requires n <= m <= |pages|
    ensures Listed(pages, n) <= Listed(pages, m)
  {
    if n < m {
      ListedGrows(pages, n, m - 1);
    }
  }

  method FindFirstMatch(repositories: seq<Repository>, name: string) returns (repository: Lookup, index: int)
    ensures IsFirstMatch(repositories, name, index)
    ensures repository == if index >= 0 then Found(repositories[index]) else NotFound
  {
    for i := 0 to |repositories|
      invariant forall j :: 0 <= j < i ==> !Matches(repositories[j], name)
    {
      if Matches(repositories[i], name) {
        return Found(repositories[i]), i;
      }
    }
    return NotFound, -1;
  }

  // ---------- the shared namespace ----------

  class HubNamespace {
    const pages: seq<Page>
    var failures: nat  // how many of the requests to come may fail
    var loaded: nat  // which page the next URL stands for
    var nextURL: string
    var hasLoaded: bool
    var allRepositories: seq<Repository>

    ghost predicate Valid()
      reads this
    {
      && Linked(pages) && loaded <= |pages|
      && allRepositories == Listed(pages, loaded)
      && (hasLoaded <==> loaded > 0)
      && nextURL == if loaded == 0 then "" else pages[loaded - 1].next
    }

    constructor (pages: seq<Page>, failures: nat)
      requires Linked(pages)
      ensures Valid() && this.pages == pages && loaded == 0 && this.failures == failures
    {
      this.pages, this.failures := pages, failures;
      loaded, nextURL, hasLoaded, allRepositories := 0, "", false, [];
    }

    lemma Exhausted()
      requires Valid() && hasLoaded && nextURL == ""
      ensures loaded == |pages|
    {
    }

    // Without a next page, or when the request fails, nothing of the namespace changes.
    method LoadNext() returns (ok: bool)
      requires Valid()
      modifies this
      ensures Valid()
      ensures ok ==> loaded == old(loaded) + 1 && failures == old(failures)
      ensures !ok ==> loaded == old(loaded) && nextURL == old(nextURL) && hasLoaded == old(hasLoaded)
      ensures !ok ==> loaded == |pages| || failures == old(failures) - 1
    {
      if hasLoaded && nextURL == "" {
        return false;
      }
      if failures > 0 {
        var fails: bool := *;
        if fails {
          failures := failures - 1;
          return false;
        }
      }
      var page := pages[loaded];
      allRepositories := allRepositories + page.results;
      nextURL := page.next;
      hasLoaded := true;
      loaded := loaded + 1;
      return true;
    }
  }

  /** The matches behind a position, among the first n pages. */
  function Ahead(pages: seq<Page>, n: nat, index: int, query: string): seq<Repository>
    requires n <= |pages| && -1 <= index < |Listed(pages, n)|
  {
    Matching(Listed(pages, n)[index + 1..], query)
  }

  /** The first match behind `index` among the first n pages stands at index', and is this repository. */
  ghost predicate IsNextMatch(pages: seq<Page>, n: nat, index: int, query: string, index': int, repository: Lookup)
    requires n <= |pages| && -1 <= index < |Listed(pages, n)|
  {
    && index < index'
    && IsFirstMatch(Listed(pages, n)[index + 1..], query, index' - index - 1)
    && repository == Found(Listed(pages, n)[index'])
  }

  predicate InBounds(pages: seq<Page>, n: nat, index: int) {
    n <= |pages| && -1 <= index < |Listed(pages, n)|
  }

  lemma BoundsGrow(pages: seq<Page>, n: nat, m: nat, index: int)
    requires InBounds(pages, n, index) && n <= m <= |pages|
    ensures InBounds(pages, m, index)
  {
    ListedGrows(pages, n, m);
  }

  // What lies ahead among the loaded pages lies ahead at all.
  lemma AheadGrows(pages: seq<Page>, n: nat, index: int, query: string)
    requires InBounds(pages, n, index)
    ensures InBounds(pages, |pages|, index)
    ensures Ahead(pages, n, index, query) <= Ahead(pages, |pages|, index, query)
  {
    ListedGrows(pages, n, |pages|);
    var some, all := Listed(pages, n)[index + 1..], Listed(pages, |pages|)[index + 1..];
    assert all == some + all[|some|..];
    MatchingConcat(some, all[|some|..], query);
  }

  // A longer list has the same first match.
  lemma FirstMatchOfLonger(a: seq<Repository>, b: seq<Repository>, query: string, k: nat)
    requires a <= b && IsFirstMatch(a, query, k)
    ensures IsFirstMatch(b, query, k)
  {
    assert forall j :: 0 <= j <= k ==> b[j] == a[j];
  }

  // The first match ahead among the loaded pages is the first one ahead at all.
  lemma AheadStep(pages: seq<Page>, n: nat, index: int, query: string, k: nat)
    requires InBounds(pages, n, index) && IsFirstMatch(Listed(pages, n)[index + 1..], query, k)
    ensures InBounds(pages, n, index + k + 1) && InBounds(pages, |pages|, index)
    ensures InBounds(pages, |pages|, index + k + 1)
    ensures Ahead(pages, |pages|, index, query)
            == [Listed(pages, n)[index + k + 1]] + Ahead(pages, |pages|, index + k + 1, query)
  {
    ListedGrows(pages, n, |pages|);
    var some, all := Listed(pages, n)[index + 1..], Listed(pages, |pages|)[index + 1..];
    FirstMatchOfLonger(some, all, query, k);
    FirstMatchSplits(all, query, k);
    assert all[k + 1..] == Listed(pages, |pages|)[index + k + 1 + 1..];
    assert all[k] == Listed(pages, n)[index + k + 1];
  }

  // Some match lies ahead exactly when the search finds one.
  lemma AheadIffFound(pages: seq<Page>, n: nat, index: int, query: string, k: int)
    requires InBounds(pages, n, index) && IsFirstMatch(Listed(pages, n)[index + 1..], query, k)
    ensures k < 0 <==> Ahead(pages, n, index, query) == []
  {
    if k < 0 {
      NoMatch(Listed(pages, n)[index + 1..], query);
    } else {
      FirstMatchSplits(Listed(pages, n)[index + 1..], query, k);
    }
  }

  class SearchCursor {
    const hub: HubNamespace
    const query: string
    var index: int

    ghost predicate Valid()
      reads this, hub
    {
      hub.Valid() && InBounds(hub.pages, hub.loaded, index)
    }

    /** What the cursor has still to yield; it depends on its own position only. */
    function Remaining(): seq<Repository>
      requires InBounds(hub.pages, |hub.pages|, index)
      reads this`index
    {
      Ahead(hub.pages, |hub.pages|, index, query)
    }

    constructor (hub: HubNamespace, query: string)
      ensures this.hub == hub && this.query == query && index == -1
    {
      this.hub, this.query, index := hub, query, -1;
    }

    // The first match behind the cursor among the loaded repositories: it is the first one ahead at
    // all, and the rest lies behind it.
    method FirstAhead() returns (repository: Lookup, k: int)
      requires Valid()
      ensures InBounds(hub.pages, |hub.pages|, index)
      ensures k < 0 <==> Ahead(hub.pages, hub.loaded, index, query) == []
      ensures IsFirstMatch(Listed(hub.pages, hub.loaded)[index + 1..], query, k)
      ensures repository == if k < 0 then NotFound else Found(Listed(hub.pages, hub.loaded)[index + k + 1])
      ensures k >= 0 ==> InBounds(hub.pages, hub.loaded, index + k + 1)
                         && InBounds(hub.pages, |hub.pages|, index + k + 1)
                         && Ahead(hub.pages, |hub.pages|, index, query)
                            == [repository.repository] + Ahead(hub.pages, |hub.pages|, index + k + 1, query)
    {
      var start := index + 1;
      repository, k := FindFirstMatch(hub.allRepositories[start..], query);
      BoundsGrow(hub.pages, hub.loaded, |hub.pages|, index);
      AheadIffFound(hub.pages, hub.loaded, index, query, k);
      if k >= 0 {
        AheadStep(hub.pages, hub.loaded, index, query, k);
      }
    }

    // Whether anything lies ahead among the loaded repositories.
    method LooksAhead() returns (k: int)
      requires Valid()
      ensures k < 0 <==> Ahead(hub.pages, hub.loaded, index, query) == []
    {
      var repository;
      repository, k := FirstAhead();
    }

    /** Exact whatever has been loaded so far; loads pages only if it has to, and then all of them, however
        often a request fails in between. */
    method HasNext() returns (found: bool)
      requires Valid()
      modifies hub
      ensures Valid() && InBounds(hub.pages, |hub.pages|, index)
      ensures found <==> Remaining() != []
      ensures found ==> Ahead(hub.pages, hub.loaded, index, query) != []
      ensures old(hub.loaded) <= hub.loaded
      ensures hub.loaded == if old(Ahead(hub.pages, hub.loaded, index, query)) != []
                            then old(hub.loaded) else |hub.pages|
    {
      AheadGrows(hub.pages, hub.loaded, index, query);
      var k := LooksAhead();
      if k >= 0 {
        return true;
      }
      while hub.nextURL != "" || !hub.hasLoaded
        invariant Valid()
        invariant k < 0 <==> Ahead(hub.pages, hub.loaded, index, query) == []
        decreases |hub.pages| - hub.loaded, hub.failures
      {
        k := LoadAndLook();
      }
      hub.Exhausted();
      return k >= 0;
    }

    // One more page if the request succeeds, and another look at what lies ahead.
    method LoadAndLook() returns (k: int)
      requires Valid() && (hub.nextURL != "" || !hub.hasLoaded)
      modifies hub
      ensures Valid()
      ensures old(hub.loaded) < hub.loaded
              || (old(hub.loaded) == hub.loaded && hub.failures < old(hub.failures))
      ensures k < 0 <==> Ahead(hub.pages, hub.loaded, index, query) == []
    {
      BoundsGrow(hub.pages, hub.loaded, hub.loaded + 1, index);
      var _ := hub.LoadNext();
      k := LooksAhead();
    }

    /** The next match among the loaded repositories, which the cursor moves past. */
    method Next() returns (repository: Lookup)
      requires Valid()
      modifies this`index
      ensures Valid() && InBounds(hub.pages, |hub.pages|, old(index)) && InBounds(hub.pages, |hub.pages|, index)
      ensures old(Ahead(hub.pages, hub.loaded, index, query)) == [] ==>
                repository.NotFound? && index == old(index)
      ensures old(Ahead(hub.pages, hub.loaded, index, query)) != [] ==>
                IsNextMatch(hub.pages, hub.loaded, old(index), query, index, repository)
                && Ahead(hub.pages, |hub.pages|, old(index), query) == [repository.repository] + Remaining()
    {
      var k;
      repository, k := FirstAhead();
      if k >= 0 {
        index := index + k + 1;
      }
    }
  }

  /** The loop of cmd/dockerhub/main.go: it ends, and yields exactly the matches of the concatenated
      pages that lie ahead of the cursor, in order, once each. */
  method Drain(cursor: SearchCursor) returns (found: seq<Repository>)
    requires cursor.Valid() && InBounds(cursor.hub.pages, |cursor.hub.pages|, cursor.index)
    modifies cursor, cursor.hub
    ensures found == old(cursor.Remaining())
  {
    found := [];
    var more := cursor.HasNext();
    while more
      invariant cursor.Valid() && InBounds(cursor.hub.pages, |cursor.hub.pages|, cursor.index)
      invariant found + cursor.Remaining() == old(cursor.Remaining())
      invariant more <==> cursor.Remaining() != []
      invariant more ==> Ahead(cursor.hub.pages, cursor.hub.loaded, cursor.index, cursor.query) != []
      decreases |cursor.Remaining()|
    {
      var repository := cursor.Next();
      Regroup(found, [repository.repository], cursor.Remaining());
      found := found + [repository.repository];
      more := cursor.HasNext();
    }
  }

  // ---------- several cursors on one namespace ----------

  datatype CursorState = CursorState(index: int, query: string, found: seq<Repository>)

  datatype Shared = Shared(loaded: nat, cursors: seq<CursorState>)

  ghost predicate SharedValid(pages: seq<Page>, s: Shared) {
    && s.loaded <= |pages|
    && forall i :: 0 <= i < |s.cursors| ==> InBounds(pages, s.loaded, s.cursors[i].index)
  }

  /** Cursor c asks HasNext and, if there is a next repository, takes it with Next, with `loaded` pages
      there before and loaded' after. */
  ghost predicate Takes(pages: seq<Page>, loaded: nat, c: CursorState, loaded': nat, c': CursorState)
    requires InBounds(pages, loaded, c.index)
  {
    && loaded' == (if Ahead(pages, loaded, c.index, c.query) != [] then loaded else |pages|)
    && InBounds(pages, loaded', c.index)
    && if Ahead(pages, loaded', c.index, c.query) == [] then c' == c
       else exists k: nat :: TakesAt(pages, loaded', c, k, c')
  }

  ghost predicate TakesAt(pages: seq<Page>, loaded: nat, c: CursorState, k: nat, c': CursorState)
    requires InBounds(pages, loaded, c.index)
  {
    && IsFirstMatch(Listed(pages, loaded)[c.index + 1..], c.query, k)
    && c' == CursorState(c.index + k + 1, c.query, c.found + [Listed(pages, loaded)[c.index + k + 1]])
  }

  ghost predicate Turn(pages: seq<Page>, s: Shared, i: nat, s': Shared) {
    && SharedValid(pages, s) && i < |s.cursors| == |s'.cursors|
    && Takes(pages, s.loaded, s.cursors[i], s'.loaded, s'.cursors[i])
    && forall j :: 0 <= j < |s.cursors| && j != i ==> s'.cursors[j] == s.cursors[j]
  }

  /** The cursor has found a prefix of the eager result, and has exactly the rest of it ahead. */
  ghost predicate OnTrack(pages: seq<Page>, c: CursorState) {
    && InBounds(pages, |pages|, c.index)
    && c.found + Ahead(pages, |pages|, c.index, c.query) == Matching(Listed(pages, |pages|), c.query)
  }

  lemma TakesKeepsTrack(pages: seq<Page>, loaded: nat, c: CursorState, loaded': nat, c': CursorState)
    requires InBounds(pages, loaded, c.index) && Takes(pages, loaded, c, loaded', c') && OnTrack(pages, c)
    ensures InBounds(pages, loaded', c'.index) && OnTrack(pages, c') && loaded <= loaded'
  {
    if Ahead(pages, loaded', c.index, c.query) != [] {
      var k: nat :| TakesAt(pages, loaded', c, k, c');
      TakenStaysOnTrack(pages, loaded', c, k, c');
    }
  }

  lemma TakenStaysOnTrack(pages: seq<Page>, loaded: nat, c: CursorState, k: nat, c': CursorState)
    requires InBounds(pages, loaded, c.index) && TakesAt(pages, loaded, c, k, c') && OnTrack(pages, c)
    ensures InBounds(pages, loaded, c'.index) && OnTrack(pages, c')
  {
    AheadStep(pages, loaded, c.index, c.query, k);
    Regroup(c.found, [Listed(pages, loaded)[c.index + k + 1]], Ahead(pages, |pages|, c'.index, c.query));
  }

  ghost predicate IsRun(pages: seq<Page>, run: seq<Shared>, turns: seq<nat>) {
    && |run| == |turns| + 1
    && forall n :: 0 <= n < |turns| ==> Turn(pages, run[n], turns[n], run[n + 1])
  }

  /** Cursors that share a namespace do not disturb each other: after any sequence of turns, each has
      found a prefix of the eager result for its own query and has exactly the rest ahead. */
  lemma {:induction false} CursorsDoNotInterfere(pages: seq<Page>, run: seq<Shared>, turns: seq<nat>, n: nat)
    requires IsRun(pages, run, turns) && n < |run| && SharedValid(pages, run[0])
    requires forall i :: 0 <= i < |run[0].cursors| ==> run[0].cursors[i].index == -1 && run[0].cursors[i].found == []
    ensures SharedValid(pages, run[n])
    ensures forall i :: 0 <= i < |run[n].cursors| ==> OnTrack(pages, run[n].cursors[i])
  {
    if n == 0 {
      assert Listed(pages, |pages|)[0..] == Listed(pages, |pages|);
    } else {
      CursorsDoNotInterfere(pages, run, turns, n - 1);
      var s, i, s' := run[n - 1], turns[n - 1], run[n];
      assert Turn(pages, run[n - 1], turns[n - 1], run[n - 1 + 1]);
      TakesKeepsTrack(pages, s.loaded, s.cursors[i], s'.loaded, s'.cursors[i]);
      forall j | 0 <= j < |s'.cursors|
        ensures InBounds(pages, s'.loaded, s'.cursors[j].index)
      {
        if j != i {
          BoundsGrow(pages, s.loaded, s'.loaded, s.cursors[j].index);
        }
      }
    }
  }

  // ---------- real cursors ----------

  ghost predicate Sharing(hub: HubNamespace, cursors: seq<SearchCursor>)
    reads hub, cursors
  {
    && hub.Valid()
    && (forall i, j :: 0 <= i < j < |cursors| ==> cursors[i] != cursors[j])
    && forall i :: 0 <= i < |cursors| ==> cursors[i].hub == hub && InBounds(hub.pages, hub.loaded, cursors[i].index)
  }

  ghost function StateOf(cursor: SearchCursor, found: seq<Repository>): CursorState
    reads cursor
  {
    CursorState(cursor.index, cursor.query, found)
  }

  /** The state s is that of these cursors on this hub, with what each has found. */
  ghost predicate Shows(hub: HubNamespace, cursors: seq<SearchCursor>, found: seq<seq<Repository>>, s: Shared)
    reads hub, cursors
  {
    && s.loaded == hub.loaded && |s.cursors| == |cursors| == |found|
    && forall i :: 0 <= i < |cursors| ==> s.cursors[i] == StateOf(cursors[i], found[i])
  }

  lemma TookNothing(pages: seq<Page>, loaded: nat, loaded': nat, c: CursorState)
    requires InBounds(pages, loaded, c.index) && loaded <= loaded' <= |pages|
    requires loaded' == if Ahead(pages, loaded, c.index, c.query) != [] then loaded else |pages|
    requires InBounds(pages, |pages|, c.index) && Ahead(pages, |pages|, c.index, c.query) == []
    ensures Takes(pages, loaded, c, loaded', c)
  {
    AheadGrows(pages, loaded, c.index, c.query);
  }

  lemma TookNext(pages: seq<Page>, loaded: nat, loaded': nat, c: CursorState, index: int, next: Lookup)
    requires InBounds(pages, loaded, c.index) && InBounds(pages, loaded', c.index)
    requires loaded' == if Ahead(pages, loaded, c.index, c.query) != [] then loaded else |pages|
    requires Ahead(pages, loaded', c.index, c.query) != []
    requires IsNextMatch(pages, loaded', c.index, c.query, index, next) && next.Found?
    ensures Takes(pages, loaded, c, loaded', CursorState(index, c.query, c.found + [next.repository]))
  {
    assert TakesAt(pages, loaded', c, index - c.index - 1,
                   CursorState(index, c.query, c.found + [next.repository]));
  }

  // What a client does with one cursor in its turn.
  method TakeOne(cursor: SearchCursor, found: seq<Repository>) returns (found': seq<Repository>)
    requires cursor.Valid()
    modifies cursor, cursor.hub
    ensures cursor.Valid()
    ensures Takes(cursor.hub.pages, old(cursor.hub.loaded), old(StateOf(cursor, found)),
                  cursor.hub.loaded, StateOf(cursor, found'))
  {
    ghost var pages, loaded, c := cursor.hub.pages, cursor.hub.loaded, StateOf(cursor, found);
    found' := found;
    var more := cursor.HasNext();
    if more {
      var next := cursor.Next();
      found' := found + [next.repository];
      TookNext(pages, loaded, cursor.hub.loaded, c, cursor.index, next);
    } else {
      TookNothing(pages, loaded, cursor.hub.loaded, c);
    }
  }

  lemma AllInBounds(pages: seq<Page>, n: nat, m: nat, cursors: seq<CursorState>)
    requires n <= m <= |pages| && forall i :: 0 <= i < |cursors| ==> InBounds(pages, n, cursors[i].index)
    ensures forall i :: 0 <= i < |cursors| ==> InBounds(pages, m, cursors[i].index)
  {
    forall i | 0 <= i < |cursors|
      ensures InBounds(pages, m, cursors[i].index)
    {
      BoundsGrow(pages, n, m, cursors[i].index);
    }
  }

  /** One turn of the client of cursor i. */
  method TakeTurn(hub: HubNamespace, cursors: seq<SearchCursor>, found: seq<seq<Repository>>, i: nat,
                  ghost s: Shared) returns (found': seq<seq<Repository>>, ghost s': Shared)
    requires Sharing(hub, cursors) && i < |cursors| && Shows(hub, cursors, found, s)
    modifies hub, cursors[i]
    ensures Sharing(hub, cursors) && Shows(hub, cursors, found', s')
    ensures Turn(hub.pages, s, i, s')
  {
    var more := TakeOne(cursors[i], found[i]);
    found' := found[i := more];
    s' := Shared(hub.loaded, s.cursors[i := StateOf(cursors[i], more)]);
    AllInBounds(hub.pages, s.loaded, hub.loaded, s.cursors);
  }

  lemma RunExtends(pages: seq<Page>, run: seq<Shared>, turns: seq<nat>, i: nat, s: Shared)
    requires IsRun(pages, run, turns) && Turn(pages, run[|run| - 1], i, s)
    ensures IsRun(pages, run + [s], turns + [i])
  {
    var run', turns' := run + [s], turns + [i];
    forall n | 0 <= n < |turns'|
      ensures Turn(pages, run'[n], turns'[n], run'[n + 1])
    {
      if n < |turns| {
        assert Turn(pages, run[n], turns[n], run[n + 1]);
      }
    }
  }

  ghost predicate AtStart(pages: seq<Page>, s: Shared) {
    && SharedValid(pages, s)
    && forall i :: 0 <= i < |s.cursors| ==> s.cursors[i].index == -1 && s.cursors[i].found == []
  }

  ghost function Start(hub: HubNamespace, cursors: seq<SearchCursor>): (s: Shared)
    requires Sharing(hub, cursors) && forall i :: 0 <= i < |cursors| ==> cursors[i].index == -1
    reads hub, cursors
    ensures AtStart(hub.pages, s) && Shows(hub, cursors, seq(|cursors|, _ => []), s)
  {
    Shared(hub.loaded, seq(|cursors|, i requires 0 <= i < |cursors| reads cursors => StateOf(cursors[i], [])))
  }

  // The run so far, which ends in the state the cursors are in now.
  ghost predicate Traces(hub: HubNamespace, cursors: seq<SearchCursor>, found: seq<seq<Repository>>,
                         run: seq<Shared>, turns: seq<nat>)
    reads hub, cursors
  {
    && Sharing(hub, cursors)
    && IsRun(hub.pages, run, turns) && AtStart(hub.pages, run[0])
    && Shows(hub, cursors, found, run[|run| - 1])
  }

  lemma StartTraces(hub: HubNamespace, cursors: seq<SearchCursor>)
    requires Sharing(hub, cursors) && forall i :: 0 <= i < |cursors| ==> cursors[i].index == -1
    ensures Traces(hub, cursors, seq(|cursors|, _ => []), [Start(hub, cursors)], [])
  {
  }

  method TraceTurn(hub: HubNamespace, cursors: seq<SearchCursor>, found: seq<seq<Repository>>, i: nat,
                   ghost run: seq<Shared>, ghost turns: seq<nat>)
    returns (found': seq<seq<Repository>>, ghost run': seq<Shared>)
    requires Traces(hub, cursors, found, run, turns) && i < |cursors|
    modifies hub, cursors[i]
    ensures Traces(hub, cursors, found', run', turns + [i])
  {
    ghost var s;
    found', s := TakeTurn(hub, cursors, found, i, run[|run| - 1]);
    RunExtends(hub.pages, run, turns, i, s);
    run' := run + [s];
  }

  lemma TracesStayOnTrack(hub: HubNamespace, cursors: seq<SearchCursor>, found: seq<seq<Repository>>,
                          run: seq<Shared>, turns: seq<nat>)
    requires Traces(hub, cursors, found, run, turns)
    ensures |found| == |cursors|
    ensures forall i :: 0 <= i < |cursors| ==> OnTrack(hub.pages, StateOf(cursors[i], found[i]))
  {
    CursorsDoNotInterfere(hub.pages, run, turns, |turns|);
    forall i | 0 <= i < |cursors|
      ensures OnTrack(hub.pages, StateOf(cursors[i], found[i]))
    {
      assert OnTrack(hub.pages, run[|turns|].cursors[i]);
    }
  }

  /** Clients of fresh cursors take turns in any order, whatever has been loaded before: each finds its
      eager result from the start, in order, once each, and has exactly the rest of it ahead. */
  method TakeTurns(hub: HubNamespace, cursors: seq<SearchCursor>, turns: seq<nat>)
    returns (found: seq<seq<Repository>>)
    requires Sharing(hub, cursors)
    requires forall i :: 0 <= i < |cursors| ==> cursors[i].index == -1
    requires forall t :: 0 <= t < |turns| ==> turns[t] < |cursors|
    modifies hub, cursors
    ensures Sharing(hub, cursors) && |found| == |cursors|
    ensures forall i :: 0 <= i < |cursors| ==> OnTrack(hub.pages, StateOf(cursors[i], found[i]))
  {
    found := seq(|cursors|, _ => []);
    ghost var run := [Start(hub, cursors)];
    StartTraces(hub, cursors);
    for t := 0 to |turns|
      invariant Traces(hub, cursors, found, run, turns[..t])
    {
      found, run := TraceTurn(hub, cursors, found, turns[t], run, turns[..t]);
      assert turns[..t + 1] == turns[..t] + [turns[t]];
    }
    TracesStayOnTrack(hub, cursors, found, run, turns[..|turns|]);
  }

  // ---------- what the pages and the matches are ----------

  function Sum(pages: seq<Page>, n: nat): nat
    requires n <= |pages|
  {
    if n == 0 then 0 else Sum(pages, n - 1) + |pages[n - 1].results|
  }

  lemma {:induction false} SumGrows(pages: seq<Page>, p: nat, n: nat)
    requires p < n <= |pages|
    ensures Sum(pages, p) + |pages[p].results| <= Sum(pages, n)
    decreases n
  {
    if p < n - 1 {
      SumGrows(pages, p, n - 1);
    }
  }

  /** Result j of page p is listed behind all results of the pages before it, and nothing else is listed. */
  lemma {:induction false} ListedAt(pages: seq<Page>, n: nat, p: nat, j: nat)
    requires p < n <= |pages| && j < |pages[p].results|
    ensures |Listed(pages, n)| == Sum(pages, n) && Sum(pages, p) + j < Sum(pages, n)
    ensures Listed(pages, n)[Sum(pages, p) + j] == pages[p].results[j]
    decreases n
  {
    SumGrows(pages, p, n);
    if p < n - 1 {
      ListedAt(pages, n - 1, p, j);
    } else {
      ListedLength(pages, p);
    }
  }

  lemma {:induction false} ListedLength(pages: seq<Page>, n: nat)
    requires n <= |pages|
    ensures |Listed(pages, n)| == Sum(pages, n)
  {
    if n > 0 {
      ListedLength(pages, n - 1);
    }
  }

  /** A repository matches when its name is the query with anything behind it. */
  lemma MatchesPrefix(repository: Repository, query: string)
    ensures Matches(repository, query) <==> exists rest :: repository.name == query + rest
  {
    if Matches(repository, query) {
      assert repository.name == query + repository.name[|query|..];
    }
  }

  /** The matches are the matching repositories, each one once, in the order of the list. */
  lemma {:induction false} MatchingAreListed(repositories: seq<Repository>, query: string) returns (at: seq<nat>)
    ensures Ascends(at) && |at| == |Matching(repositories, query)|
    ensures forall i :: 0 <= i < |at| ==>
              at[i] < |repositories| && repositories[at[i]] == Matching(repositories, query)[i]
    ensures forall k :: 0 <= k < |repositories| ==> (k in at <==> Matches(repositories[k], query))
  {
    if repositories == [] {
      at := [];
    } else {
      var last := |repositories| - 1;
      var shorter := repositories[..last];
      at := MatchingAreListed(shorter, query);
      assert repositories == shorter + [repositories[last]];
      MatchingConcat(shorter, [repositories[last]], query);
      assert forall k :: 0 <= k < last ==> shorter[k] == repositories[k];
      assert forall i :: 0 <= i < |at| ==> at[i] < last;
      if Matches(repositories[last], query) {
        at := at + [last];
      }
    }
  }
}
