// Publishing diagnostics while documents change: the handlers and background workers of
// pkg/server/methods/synchronize.go as a step protocol, over every interleaving.
//
// Handlers run one at a time and are the only writers of the cache, so a handler is one step.
// A background worker reads the cached text (to parse it), later reads the cached version (to compare
// it with the version it was started for), and only then notifies the client.

module Publication {
  import opened Common
  import opened Positions
  import opened IncrementalSync

  datatype Phase =
    | Started                 // nothing read yet
    | Computed(text: string)  // diagnostics computed from this text
    | Passed(text: string)    // the version check passed
    | Done

  // One run of notificationMethods, for the document it was given.
  datatype Worker = Worker(document: TextDocument, phase: Phase)

  // A version check that passed: what the diagnostics are of, and the text cached at that moment.
  datatype Pass = Pass(document: TextDocument, text: string, cached: string)

  datatype State = State(
    files: map<Uri, TextDocument>,
    pending: Option<TextDocument>,           // the one debounced change, for all files
    workers: seq<Worker>,
    published: seq<(TextDocument, string)>,  // worker document, text the diagnostics are of
    stored: seq<TextDocument>,               // history: every document put in the cache
    passes: seq<Pass>)                       // history: every check that passed

  datatype Step =
    | Handler(request: Request)
    | Fire                // the debounce timer runs the latest function it was given
    | Refresh(uri: Uri)   // setToken and setHostUrl revisit a cached file
    | Read(worker: nat)
    | Check(worker: nat)
    | Notify(worker: nat)

  const INIT := State(map[], None, [], [], [], [])

  predicate Can(s: State, step: Step) {
    match step
    case Handler(request) => Enabled(s.files, request)
    case Fire => s.pending.Some?
    case Refresh(uri) => uri in s.files
    case Read(t) => t < |s.workers| && s.workers[t].phase.Started? && s.workers[t].document.uri in s.files
    case Check(t) => t < |s.workers| && s.workers[t].phase.Computed? && s.workers[t].document.uri in s.files
    case Notify(t) => t < |s.workers| && s.workers[t].phase.Passed?
  }

  function Spawn(s: State, document: TextDocument): State {
    s.(workers := s.workers + [Worker(document, Started)])
  }

  function SetPhase(s: State, t: nat, phase: Phase): State
    requires t < |s.workers|
  {
    s.(workers := s.workers[t := s.workers[t].(phase := phase)])
  }

  function Next(s: State, step: Step): State
    requires Can(s, step)
  {
    match step
    case Handler(request) =>
      var document := Stored(s.files, request);
      var s' := s.(files := Handle(s.files, request), stored := s.stored + [document]);
      if request.Open? then Spawn(s', document) else s'.(pending := Some(document))
    case Fire => Spawn(s.(pending := None), s.pending.value)
    case Refresh(uri) => Spawn(s, s.files[uri])
    case Read(t) => SetPhase(s, t, Computed(s.files[s.workers[t].document.uri].text))
    case Check(t) =>
      var worker := s.workers[t];
      var original := s.files[worker.document.uri];
      if original.version == worker.document.version then
        SetPhase(s, t, Passed(worker.phase.text))
          .(passes := s.passes + [Pass(worker.document, worker.phase.text, original.text)])
      else
        SetPhase(s, t, Done)
    case Notify(t) =>
      var worker := s.workers[t];
      SetPhase(s, t, Done).(published := s.published + [(worker.document, worker.phase.text)])
  }

  /** The state a run of steps leads to; None when some step could not be taken. */
  function Exec(s: State, run: seq<Step>): Option<State>
    decreases |run|
  {
    if run == [] then Some(s)
    else
      match Exec(s, run[..|run| - 1])
      case None => None
      case Some(s') => if Can(s', run[|run| - 1]) then Some(Next(s', run[|run| - 1])) else None
  }

  /** The requests a run handles, in order. */
  function Requests(run: seq<Step>): seq<Request>
    decreases |run|
  {
    if run == [] then []
    else Requests(run[..|run| - 1])
         + if run[|run| - 1].Handler? then [run[|run| - 1].request] else []
  }

  /** The run that handles the requests and schedules nothing else. */
  function Handlers(requests: seq<Request>): seq<Step> {
    seq(|requests|, k requires 0 <= k < |requests| => Handler(requests[k]))
  }

  // ---------- what every step keeps ----------

  predicate ReadAt(stored: seq<TextDocument>, document: TextDocument, text: string, i: nat, k: nat) {
    && i <= k < |stored|
    && stored[i] == document
    && stored[k].uri == document.uri && stored[k].text == text
  }

  predicate PassedAt(stored: seq<TextDocument>, pass: Pass, i: nat, k: nat, j: nat) {
    && ReadAt(stored, pass.document, pass.text, i, k)
    && k <= j < |stored|
    && stored[j].uri == pass.document.uri && stored[j].version == pass.document.version
    && stored[j].text == pass.cached
  }

  ghost predicate PassTraced(stored: seq<TextDocument>, pass: Pass) {
    exists i: nat, k: nat, j: nat :: PassedAt(stored, pass, i, k, j)
  }

  /** stored[l] is the last document stored for its file. */
  ghost predicate IsLatest(stored: seq<TextDocument>, l: nat) {
    l < |stored| && forall m :: l < m < |stored| ==> stored[m].uri != stored[l].uri
  }

  ghost predicate InLatest(stored: seq<TextDocument>, document: TextDocument) {
    exists l: nat :: IsLatest(stored, l) && stored[l] == document
  }

  ghost predicate CacheIsLatest(files: map<Uri, TextDocument>, stored: seq<TextDocument>) {
    && (forall k :: 0 <= k < |stored| ==> stored[k].uri in files)
    && (forall u :: u in files ==> files[u].uri == u)
    // the trigger keeps the quantifiers from feeding each other
    && (forall u {:trigger InLatest(stored, files[u])} :: u in files ==> InLatest(stored, files[u]))
  }

  ghost predicate WorkerTraced(s: State, worker: Worker) {
    && worker.document in s.stored
    && (worker.phase.Computed? ==>
          exists i: nat, k: nat :: ReadAt(s.stored, worker.document, worker.phase.text, i, k))
    && (worker.phase.Passed? ==>
          exists p :: p in s.passes && p.document == worker.document && p.text == worker.phase.text)
  }

  ghost predicate Traced(s: State) {
    && (forall t :: 0 <= t < |s.workers| ==> WorkerTraced(s, s.workers[t]))
    && (s.pending.Some? ==> s.pending.value in s.stored)
    && (forall p :: p in s.passes ==> PassTraced(s.stored, p))
    && (forall q :: q in s.published ==>
          exists p :: p in s.passes && p.document == q.0 && p.text == q.1)
  }

  ghost predicate Inv(s: State) {
    CacheIsLatest(s.files, s.stored) && Traced(s)
  }

  lemma LatestOf(files: map<Uri, TextDocument>, stored: seq<TextDocument>, uri: Uri) returns (l: nat)
    requires CacheIsLatest(files, stored) && uri in files
    ensures IsLatest(stored, l) && stored[l] == files[uri] && files[uri].uri == uri
  {
    assert InLatest(stored, files[uri]);
    l :| IsLatest(stored, l) && stored[l] == files[uri];
  }

  lemma StoringKeepsLatest(files: map<Uri, TextDocument>, stored: seq<TextDocument>, document: TextDocument)
    requires CacheIsLatest(files, stored)
    ensures CacheIsLatest(files[document.uri := document], stored + [document])
  {
    var stored' := stored + [document];
    assert IsLatest(stored', |stored|) && stored'[|stored|] == document;
    forall u | u in files && u != document.uri
      ensures InLatest(stored', files[u])
    {
      var l := LatestOf(files, stored, u);
      assert IsLatest(stored', l) && stored'[l] == files[u];
    }
  }

  lemma HistoryGrows(s: State, s': State)
    requires Traced(s) && s.stored <= s'.stored && s.passes <= s'.passes
    ensures forall t :: 0 <= t < |s.workers| ==> WorkerTraced(s', s.workers[t])
    ensures forall p :: p in s.passes ==> PassTraced(s'.stored, p)
  {
    forall t | 0 <= t < |s.workers|
      ensures WorkerTraced(s', s.workers[t])
    {
      var worker := s.workers[t];
      if worker.phase.Computed? {
        var i: nat, k: nat :| ReadAt(s.stored, worker.document, worker.phase.text, i, k);
        assert ReadAt(s'.stored, worker.document, worker.phase.text, i, k);
      }
    }
    forall p | p in s.passes
      ensures PassTraced(s'.stored, p)
    {
      var i: nat, k: nat, j: nat :| PassedAt(s.stored, p, i, k, j);
      assert PassedAt(s'.stored, p, i, k, j);
    }
  }

  lemma ReadIsTraced(s: State, t: nat)
    requires Inv(s) && Can(s, Read(t))
    ensures WorkerTraced(Next(s, Read(t)), Next(s, Read(t)).workers[t])
  {
    var document := s.workers[t].document;
    var i :| 0 <= i < |s.stored| && s.stored[i] == document;
    var l := LatestOf(s.files, s.stored, document.uri);
    assert ReadAt(s.stored, document, s.files[document.uri].text, i, l);
  }

  lemma CheckIsTraced(s: State, t: nat)
    requires Inv(s) && Can(s, Check(t))
    requires s.files[s.workers[t].document.uri].version == s.workers[t].document.version
    ensures var p := Pass(s.workers[t].document, s.workers[t].phase.text,
                          s.files[s.workers[t].document.uri].text);
            PassTraced(s.stored, p)
  {
    var worker := s.workers[t];
    var p := Pass(worker.document, worker.phase.text, s.files[worker.document.uri].text);
    var i: nat, k: nat :| ReadAt(s.stored, worker.document, worker.phase.text, i, k);
    var l := LatestOf(s.files, s.stored, worker.document.uri);
    assert PassedAt(s.stored, p, i, k, l);
  }

  // A step that only appends a worker or moves one worker on keeps the trace of all the others.
  lemma WorkersKeepTrace(s: State, s': State)
    requires Traced(s) && s.stored <= s'.stored && s.passes <= s'.passes
    requires s'.published == s.published && |s.workers| <= |s'.workers|
    requires forall t :: 0 <= t < |s'.workers| ==>
               (t < |s.workers| && s'.workers[t] == s.workers[t]) || WorkerTraced(s', s'.workers[t])
    requires s'.pending.Some? ==> s'.pending.value in s'.stored
    requires forall p :: p in s'.passes ==> p in s.passes || PassTraced(s'.stored, p)
    ensures Traced(s')
  {
    HistoryGrows(s, s');
  }

  lemma HandlerKeepsInv(s: State, request: Request)
    requires Inv(s) && Can(s, Handler(request))
    ensures Inv(Next(s, Handler(request)))
  {
    var s' := Next(s, Handler(request));
    StoringKeepsLatest(s.files, s.stored, Stored(s.files, request));
    assert s'.stored[|s.stored|] == Stored(s.files, request);
    WorkersKeepTrace(s, s');
  }

  lemma ReadKeepsInv(s: State, t: nat)
    requires Inv(s) && Can(s, Read(t))
    ensures Inv(Next(s, Read(t)))
  {
    ReadIsTraced(s, t);
    WorkersKeepTrace(s, Next(s, Read(t)));
  }

  lemma StepKeepsInv(s: State, step: Step)
    requires Inv(s) && Can(s, step)
    ensures Inv(Next(s, step))
  {
    match step
    case Handler(request) => HandlerKeepsInv(s, request);
    case Fire => WorkersKeepTrace(s, Next(s, step));
    case Refresh(uri) => RefreshKeepsInv(s, uri);
    case Read(t) => ReadKeepsInv(s, t);
    case Check(t) => CheckKeepsInv(s, t);
    case Notify(t) => NotifyKeepsInv(s, t);
  }

  lemma RefreshKeepsInv(s: State, uri: Uri)
    requires Inv(s) && Can(s, Refresh(uri))
    ensures Inv(Next(s, Refresh(uri)))
  {
    assert InLatest(s.stored, s.files[uri]);
    WorkersKeepTrace(s, Next(s, Refresh(uri)));
  }

  lemma CheckKeepsInv(s: State, t: nat)
    requires Inv(s) && Can(s, Check(t))
    ensures Inv(Next(s, Check(t)))
  {
    var s' := Next(s, Check(t));
    var worker := s.workers[t];
    if s.files[worker.document.uri].version == worker.document.version {
      CheckIsTraced(s, t);
      var p := s'.passes[|s.passes|];
      assert p in s'.passes && p.document == worker.document && p.text == worker.phase.text;
    }
    WorkersKeepTrace(s, s');
  }

  lemma NotifyKeepsInv(s: State, t: nat)
    requires Inv(s) && Can(s, Notify(t))
    ensures Inv(Next(s, Notify(t)))
  {
    var s' := Next(s, Notify(t));
    WorkersKeepTrace(s, s'.(published := s.published));
    assert WorkerTraced(s, s.workers[t]);
    forall u | 0 <= u < |s'.workers|
      ensures WorkerTraced(s', s'.workers[u])
    {
      assert WorkerTraced(s'.(published := s.published), s'.workers[u]);
    }
  }

  lemma {:induction false} RunKeepsInv(run: seq<Step>)
    requires Exec(INIT, run).Some?
    ensures Inv(Exec(INIT, run).value)
    decreases |run|
  {
    if run != [] {
      RunKeepsInv(run[..|run| - 1]);
      StepKeepsInv(Exec(INIT, run[..|run| - 1]).value, run[|run| - 1]);
    }
  }

  // ---------- which interleavings publish stale diagnostics ----------

  /** Two documents of one file were stored under the same version, and some document of that file
      stored in between (or the first of the two) has another text than the second. */
  predicate ConflictAt(stored: seq<TextDocument>, i: nat, k: nat, j: nat) {
    && i <= k <= j < |stored|
    && stored[i].uri == stored[k].uri == stored[j].uri
    && stored[i].version == stored[j].version
    && stored[k].text != stored[j].text
  }

  ghost predicate Conflict(stored: seq<TextDocument>) {
    exists i: nat, k: nat, j: nat :: ConflictAt(stored, i, k, j)
  }

  /** Whatever passed its version check was computed from the text cached at that check, which is
      the text of the document the worker was started for; and nothing else was ever published. */
  ghost predicate Fresh(s: State) {
    && (forall p :: p in s.passes ==> p.text == p.cached == p.document.text)
    && (forall q :: q in s.published ==> q.1 == q.0.text)
  }

  lemma FreshWithoutConflict(s: State)
    requires Inv(s) && !Conflict(s.stored)
    ensures Fresh(s)
  {
    forall p | p in s.passes
      ensures p.text == p.cached == p.document.text
    {
      assert PassTraced(s.stored, p);
      var i: nat, k: nat, j: nat :| PassedAt(s.stored, p, i, k, j);
      assert !ConflictAt(s.stored, i, k, j);
      assert !ConflictAt(s.stored, i, i, j);
    }
  }

  lemma {:induction false} RequestsConcat(a: seq<Step>, b: seq<Step>)
    ensures Requests(a + b) == Requests(a) + Requests(b)
    decreases |b|
  {
    if b == [] {
      assert a + b == a;
    } else {
      assert (a + b)[..|a + b| - 1] == a + b[..|b| - 1];
      RequestsConcat(a, b[..|b| - 1]);
    }
  }

  lemma {:induction false} ExecSplits(s: State, a: seq<Step>, b: seq<Step>)
    requires Exec(s, a).Some?
    ensures Exec(s, a + b) == Exec(Exec(s, a).value, b)
    decreases |b|
  {
    if b == [] {
      assert a + b == a;
    } else {
      assert (a + b)[..|a + b| - 1] == a + b[..|b| - 1];
      ExecSplits(s, a, b[..|b| - 1]);
    }
  }

  lemma ExecConcat(s: State, a: seq<Step>, b: seq<Step>)
    requires Exec(s, a).Some?
    ensures Exec(s, a + b) == Exec(Exec(s, a).value, b)
    ensures Requests(a + b) == Requests(a) + Requests(b)
  {
    ExecSplits(s, a, b);
    RequestsConcat(a, b);
  }

  lemma HandlersLast(requests: seq<Request>, request: Request)
    ensures var run := Handlers(requests + [request]);
            run[..|run| - 1] == Handlers(requests) && run[|run| - 1] == Handler(request)
  {
  }

  lemma HandlerAlike(s: State, u: State, request: Request)
    requires s.files == u.files && s.stored == u.stored && Can(s, Handler(request))
    ensures Can(u, Handler(request))
    ensures Next(s, Handler(request)).files == Next(u, Handler(request)).files
    ensures Next(s, Handler(request)).stored == Next(u, Handler(request)).stored
  {
  }

  lemma BackgroundStores(s: State, step: Step)
    requires Can(s, step) && !step.Handler?
    ensures Next(s, step).files == s.files && Next(s, step).stored == s.stored
  {
  }

  // What is stored does not depend on how the background steps are scheduled.
  lemma {:induction false} StoredBySchedule(run: seq<Step>)
    requires Exec(INIT, run).Some?
    ensures var plain := Exec(INIT, Handlers(Requests(run)));
            && plain.Some?
            && plain.value.files == Exec(INIT, run).value.files
            && plain.value.stored == Exec(INIT, run).value.stored
    decreases |run|
  {
    if run != [] {
      var shorter, step := run[..|run| - 1], run[|run| - 1];
      StoredBySchedule(shorter);
      var s := Exec(INIT, shorter).value;
      if step.Handler? {
        HandlersLast(Requests(shorter), step.request);
        HandlerAlike(s, Exec(INIT, Handlers(Requests(shorter))).value, step.request);
      } else {
        BackgroundStores(s, step);
        assert Requests(run) == Requests(shorter);
      }
    }
  }

  /** The documents a list of requests stores. */
  function Documents(requests: seq<Request>): seq<TextDocument>
    requires Exec(INIT, Handlers(requests)).Some?
  {
    Exec(INIT, Handlers(requests)).value.stored
  }

  /** The state after the first n requests with nothing else scheduled. */
  function Plain(requests: seq<Request>, n: nat): Option<State>
    requires n <= |requests|
  {
    Exec(INIT, Handlers(requests[..n]))
  }

  lemma PlainStep(requests: seq<Request>, n: nat)
    requires n < |requests| && Plain(requests, n + 1).Some?
    ensures Plain(requests, n).Some? && Can(Plain(requests, n).value, Handler(requests[n]))
    ensures Plain(requests, n + 1).value == Next(Plain(requests, n).value, Handler(requests[n]))
  {
    var run := Handlers(requests[..n + 1]);
    assert run[..n] == Handlers(requests[..n]);
  }

  lemma {:induction false} PlainPrefix(requests: seq<Request>, n: nat, m: nat)
    requires n <= m <= |requests| && Plain(requests, m).Some?
    ensures Plain(requests, n).Some?
    ensures |Plain(requests, n).value.stored| == n && |Plain(requests, m).value.stored| == m
    ensures Plain(requests, n).value.stored == Plain(requests, m).value.stored[..n]
    decreases m
  {
    if m > 0 {
      PlainStep(requests, m - 1);
      PlainPrefix(requests, if n == m then m - 1 else n, m - 1);
    }
  }

  // Request number n stores document number n.
  lemma PlainStores(requests: seq<Request>, n: nat)
    requires n < |requests| && Plain(requests, |requests|).Some?
    ensures requests[..|requests|] == requests && n < |Documents(requests)|
    ensures Plain(requests, n).Some? && Can(Plain(requests, n).value, Handler(requests[n]))
    ensures Documents(requests)[n] == Stored(Plain(requests, n).value.files, requests[n])
  {
    assert requests[..|requests|] == requests;
    PlainPrefix(requests, n + 1, |requests|);
    PlainStep(requests, n);
    PlainPrefix(requests, n, n + 1);
    var stored := Plain(requests, n + 1).value.stored;
    assert stored[n] == Documents(requests)[n];
  }

  // The cache after request n holds the document that request stored.
  lemma PlainCache(requests: seq<Request>, n: nat)
    requires n < |requests| && Plain(requests, |requests|).Some?
    ensures Plain(requests, n + 1).Some?
    ensures requests[..|requests|] == requests && n < |Documents(requests)|
    ensures var document := Documents(requests)[n];
            document.uri in Plain(requests, n + 1).value.files
            && Plain(requests, n + 1).value.files[document.uri] == document
  {
    PlainPrefix(requests, n + 1, |requests|);
    PlainStep(requests, n);
    PlainStores(requests, n);
  }

  lemma OneMoreHandler(requests: seq<Request>, s: State, n: nat, m: nat, mid: State)
    requires n < m <= |requests| && Exec(s, Handlers(requests[n..m - 1])) == Some(mid)
    requires Can(mid, Handler(requests[m - 1]))
    ensures Exec(s, Handlers(requests[n..m])) == Some(Next(mid, Handler(requests[m - 1])))
  {
    HandlersLast(requests[n..m - 1], requests[m - 1]);
    assert requests[n..m] == requests[n..m - 1] + [requests[m - 1]];
  }

  // From any state that agrees with the plain run on the cache, the next requests can be handled,
  // and they leave every worker and every pass as it was.
  lemma {:induction false} CatchUp(requests: seq<Request>, s: State, n: nat, m: nat) returns (s': State)
    requires n <= m <= |requests| && Plain(requests, m).Some? && Plain(requests, n).Some?
    requires s.files == Plain(requests, n).value.files && s.stored == Plain(requests, n).value.stored
    ensures Exec(s, Handlers(requests[n..m])) == Some(s')
    ensures s'.files == Plain(requests, m).value.files && s'.stored == Plain(requests, m).value.stored
    ensures s.workers <= s'.workers && s.passes == s'.passes
    decreases m
  {
    if n == m {
      s' := s;
    } else {
      PlainStep(requests, m - 1);
      var mid := CatchUp(requests, s, n, m - 1);
      HandlerAlike(Plain(requests, m - 1).value, mid, requests[m - 1]);
      s' := Next(mid, Handler(requests[m - 1]));
      OneMoreHandler(requests, s, n, m, mid);
    }
  }

  lemma OneStep(s: State, step: Step)
    requires Can(s, step)
    ensures Exec(s, [step]) == Some(Next(s, step))
    ensures Requests([step]) == if step.Handler? then [step.request] else []
  {
    assert [step][..0] == [];
    assert Exec(s, [step][..0]) == Some(s);
  }

  // A run that has handled the first n requests, and in which worker t is the one we follow.
  ghost predicate Following(requests: seq<Request>, n: nat, run: seq<Step>, t: nat, worker: Worker)
    requires n <= |requests|
  {
    && Plain(requests, n).Some?
    && Exec(INIT, run).Some?
    && Requests(run) == requests[..n]
    && var s := Exec(INIT, run).value;
       && s.files == Plain(requests, n).value.files
       && s.stored == Plain(requests, n).value.stored
       && t < |s.workers| && s.workers[t] == worker
  }

  // Request number i starts a worker, an edit once its timer fires.
  lemma FollowStart(requests: seq<Request>, i: nat) returns (run: seq<Step>, t: nat)
    requires i < |requests| && Plain(requests, |requests|).Some?
    ensures requests[..|requests|] == requests && i < |Documents(requests)|
    ensures Following(requests, i + 1, run, t, Worker(Documents(requests)[i], Started))
  {
    PlainStores(requests, i);
    PlainPrefix(requests, i + 1, |requests|);
    PlainStep(requests, i);
    run := Handlers(requests[..i + 1]);
    t := |Plain(requests, i).value.workers|;
    var s := Plain(requests, i + 1).value;
    HandledRequests(requests[..i + 1]);
    StartedBy(Plain(requests, i).value, requests[i]);
    if requests[i].Edit? {
      OneStep(s, Fire);
      ExecConcat(INIT, run, [Fire]);
      run := run + [Fire];
    }
  }

  lemma StartedBy(s: State, request: Request)
    requires Can(s, Handler(request))
    ensures var s' := Next(s, Handler(request));
            var document := Stored(s.files, request);
            && s'.files[document.uri] == document
            && (request.Open? ==> s'.workers == s.workers + [Worker(document, Started)])
            && (request.Edit? ==> s'.workers == s.workers && s'.pending == Some(document))
  {
  }

  lemma {:induction false} HandledRequests(requests: seq<Request>)
    ensures Requests(Handlers(requests)) == requests
  {
    if requests != [] {
      var shorter, last := requests[..|requests| - 1], requests[|requests| - 1];
      HandledRequests(shorter);
      assert requests == shorter + [last];
      HandlersLast(shorter, last);
    }
  }

  lemma FollowHandlers(requests: seq<Request>, n: nat, m: nat, run: seq<Step>, t: nat, worker: Worker)
    returns (run': seq<Step>)
    requires n <= m <= |requests| && Plain(requests, |requests|).Some?
    requires Following(requests, n, run, t, worker)
    ensures Following(requests, m, run', t, worker)
    ensures Exec(INIT, run').value.passes == Exec(INIT, run).value.passes
  {
    PlainPrefix(requests, m, |requests|);
    var s' := CatchUp(requests, Exec(INIT, run).value, n, m);
    run' := run + Handlers(requests[n..m]);
    ExecConcat(INIT, run, Handlers(requests[n..m]));
    HandledRequests(requests[n..m]);
    assert requests[..m] == requests[..n] + requests[n..m];
  }

  lemma FollowStep(requests: seq<Request>, n: nat, run: seq<Step>, t: nat, worker: Worker, step: Step)
    returns (run': seq<Step>)
    requires n <= |requests| && Following(requests, n, run, t, worker)
    requires step == Read(t) || step == Check(t)
    requires Can(Exec(INIT, run).value, step)
    ensures Exec(INIT, run') == Some(Next(Exec(INIT, run).value, step))
    ensures Following(requests, n, run', t, Exec(INIT, run').value.workers[t])
  {
    OneStep(Exec(INIT, run).value, step);
    ExecConcat(INIT, run, [step]);
    run' := run + [step];
  }

  lemma FollowStarted(requests: seq<Request>, i: nat, k: nat) returns (run: seq<Step>, t: nat)
    requires i <= k < |requests| && Plain(requests, |requests|).Some?
    requires Exec(INIT, Handlers(requests)).Some? && |Documents(requests)| == |requests|
    ensures Following(requests, k + 1, run, t, Worker(Documents(requests)[i], Started))
  {
    run, t := FollowStart(requests, i);
    run := FollowHandlers(requests, i + 1, k + 1, run, t, Worker(Documents(requests)[i], Started));
  }

  lemma FollowToRead(requests: seq<Request>, i: nat, k: nat) returns (run: seq<Step>, t: nat)
    requires i <= k < |requests| && Plain(requests, |requests|).Some?
    requires Exec(INIT, Handlers(requests)).Some? && |Documents(requests)| == |requests|
    requires Documents(requests)[i].uri == Documents(requests)[k].uri
    ensures Following(requests, k + 1, run, t, Worker(Documents(requests)[i], Computed(Documents(requests)[k].text)))
  {
    run, t := FollowStarted(requests, i, k);
    run := ReadNow(requests, k, run, t, Worker(Documents(requests)[i], Started));
  }

  lemma ReadNow(requests: seq<Request>, k: nat, run: seq<Step>, t: nat, worker: Worker) returns (run': seq<Step>)
    requires k < |requests| && Plain(requests, |requests|).Some?
    requires Exec(INIT, Handlers(requests)).Some? && |Documents(requests)| == |requests|
    requires Following(requests, k + 1, run, t, worker) && worker.phase.Started?
    requires worker.document.uri == Documents(requests)[k].uri
    ensures Following(requests, k + 1, run', t, worker.(phase := Computed(Documents(requests)[k].text)))
  {
    PlainCache(requests, k);
    run' := FollowStep(requests, k + 1, run, t, worker, Read(t));
  }

  lemma CheckNow(requests: seq<Request>, j: nat, run: seq<Step>, t: nat, document: TextDocument, basis: string)
    returns (run': seq<Step>)
    requires j < |requests| && Plain(requests, |requests|).Some?
    requires Exec(INIT, Handlers(requests)).Some? && |Documents(requests)| == |requests|
    requires Following(requests, j + 1, run, t, Worker(document, Computed(basis)))
    requires document.uri == Documents(requests)[j].uri && document.version == Documents(requests)[j].version
    ensures Exec(INIT, run').Some? && t < |Exec(INIT, run').value.workers|
    ensures Following(requests, j + 1, run', t, Exec(INIT, run').value.workers[t])
    ensures Pass(document, basis, Documents(requests)[j].text) in Exec(INIT, run').value.passes
  {
    PlainCache(requests, j);
    run' := FollowStep(requests, j + 1, run, t, Worker(document, Computed(basis)), Check(t));
    var passes := Exec(INIT, run').value.passes;
    assert passes[|passes| - 1] == Pass(document, basis, Documents(requests)[j].text);
  }

  lemma CheckThenFinish(requests: seq<Request>, j: nat, run: seq<Step>, t: nat, document: TextDocument,
                        basis: string) returns (run': seq<Step>)
    requires j < |requests| && Plain(requests, |requests|).Some?
    requires Exec(INIT, Handlers(requests)).Some? && |Documents(requests)| == |requests|
    requires Following(requests, j + 1, run, t, Worker(document, Computed(basis)))
    requires document.uri == Documents(requests)[j].uri && document.version == Documents(requests)[j].version
    ensures Exec(INIT, run').Some? && Requests(run') == requests
    ensures Pass(document, basis, Documents(requests)[j].text) in Exec(INIT, run').value.passes
  {
    var checked := CheckNow(requests, j, run, t, document, basis);
    run' := FollowHandlers(requests, j + 1, |requests|, checked, t, Exec(INIT, checked).value.workers[t]);
    assert requests[..|requests|] == requests;
  }

  lemma AllStored(requests: seq<Request>)
    requires Exec(INIT, Handlers(requests)).Some?
    ensures Plain(requests, |requests|).Some? && |Documents(requests)| == |requests|
  {
    assert requests[..|requests|] == requests;
    PlainPrefix(requests, |requests|, |requests|);
  }

  lemma FollowToCheck(requests: seq<Request>, i: nat, k: nat, j: nat) returns (run: seq<Step>, t: nat)
    requires i <= k <= j < |requests| && Plain(requests, |requests|).Some?
    requires Exec(INIT, Handlers(requests)).Some? && |Documents(requests)| == |requests|
    requires Documents(requests)[i].uri == Documents(requests)[k].uri
    ensures Following(requests, j + 1, run, t, Worker(Documents(requests)[i], Computed(Documents(requests)[k].text)))
  {
    run, t := FollowToRead(requests, i, k);
    run := FollowHandlers(requests, k + 1, j + 1, run, t,
                          Worker(Documents(requests)[i], Computed(Documents(requests)[k].text)));
  }

  lemma StalePass(s: State, document: TextDocument, text: string, cached: string)
    requires Pass(document, text, cached) in s.passes && text != cached
    ensures !Fresh(s)
  {
  }

  /** A conflict is enough: some schedule of the same requests passes a stale check. */
  lemma ConflictBreaksSomeRun(requests: seq<Request>, i: nat, k: nat, j: nat)
    returns (run: seq<Step>)
    requires Exec(INIT, Handlers(requests)).Some?
    requires ConflictAt(Documents(requests), i, k, j)
    ensures Requests(run) == requests && Exec(INIT, run).Some?
    ensures !Fresh(Exec(INIT, run).value)
  {
    var stored := Documents(requests);
    AllStored(requests);
    var t: nat;
    run, t := FollowToCheck(requests, i, k, j);
    run := CheckThenFinish(requests, j, run, t, stored[i], stored[k].text);
    StalePass(Exec(INIT, run).value, stored[i], stored[k].text, stored[j].text);
  }

  /** No stale publication: for any requests, every interleaving with the background workers is fresh
      if and only if the documents they store have no version conflict. */
  lemma NoStalePublication(requests: seq<Request>)
    requires Exec(INIT, Handlers(requests)).Some?
    ensures (forall run :: Requests(run) == requests && Exec(INIT, run).Some?
                           ==> Fresh(Exec(INIT, run).value))
            <==> !Conflict(Documents(requests))
  {
    if Conflict(Documents(requests)) {
      var i: nat, k: nat, j: nat :| ConflictAt(Documents(requests), i, k, j);
      var run := ConflictBreaksSomeRun(requests, i, k, j);
    } else {
      forall run | Requests(run) == requests && Exec(INIT, run).Some?
        ensures Fresh(Exec(INIT, run).value)
      {
        RunKeepsInv(run);
        StoredBySchedule(run);
        FreshWithoutConflict(Exec(INIT, run).value);
      }
    }
  }

  // What a session of two requests stores.
  lemma TwoStored(a: Request, b: Request)
    requires Enabled(map[], a) && Enabled(Handle(map[], a), b)
    ensures Exec(INIT, Handlers([a, b])).Some?
    ensures Documents([a, b]) == [Stored(map[], a), Stored(Handle(map[], a), b)]
  {
    HandlerStores(INIT, a);
    var s := Next(INIT, Handler(a));
    HandlerStores(s, b);
    OneStep(INIT, Handler(a));
    OneStep(s, Handler(b));
    ExecConcat(INIT, [Handler(a)], [Handler(b)]);
    assert Handlers([a, b]) == [Handler(a)] + [Handler(b)];
  }

  lemma HandlerStores(s: State, request: Request)
    requires Can(s, Handler(request))
    ensures Next(s, Handler(request)).files == Handle(s.files, request)
    ensures Next(s, Handler(request)).stored == s.stored + [Stored(s.files, request)]
  {
  }

  /** A session that is not fresh in every interleaving: a file is closed, which leaves it in the cache
      unless it is an orb, and opened again under its version with another text. */
  lemma ReopenedIsStale(document: TextDocument, reopened: TextDocument) returns (run: seq<Step>)
    requires document.uri == reopened.uri && document.version == reopened.version
    requires document.text != reopened.text
    ensures Requests(run) == [Open(document), Open(reopened)] && Exec(INIT, run).Some?
    ensures !Fresh(Exec(INIT, run).value)
  {
    TwoStored(Open(document), Open(reopened));
    run := ConflictBreaksSomeRun([Open(document), Open(reopened)], 0, 0, 1);
  }

  /** Versions that increase with every document stored for a file: after each change, as the protocol
      asks of clients, and also when a file is closed and opened again, which it does not ask. */
  predicate VersionsIncrease(stored: seq<TextDocument>) {
    forall i, j :: 0 <= i < j < |stored| && stored[i].uri == stored[j].uri
                   ==> stored[i].version < stored[j].version
  }

  lemma IncreasingHasNoConflict(stored: seq<TextDocument>)
    requires VersionsIncrease(stored)
    ensures !Conflict(stored)
  {
    forall i: nat, k: nat, j: nat
      ensures !ConflictAt(stored, i, k, j)
    {
    }
  }

  lemma IncreasingDocumentsAreFresh(run: seq<Step>)
    requires Exec(INIT, run).Some? && VersionsIncrease(Exec(INIT, run).value.stored)
    ensures Fresh(Exec(INIT, run).value)
  {
    RunKeepsInv(run);
    IncreasingHasNoConflict(Exec(INIT, run).value.stored);
    FreshWithoutConflict(Exec(INIT, run).value);
  }

  // ---------- the last word ----------

  /** An earlier document of the file has another text than the one stored last. */
  ghost predicate OutdatedAt(stored: seq<TextDocument>, i: nat, j: nat) {
    i < j && IsLatest(stored, j) && stored[i].uri == stored[j].uri && stored[i].text != stored[j].text
  }

  ghost predicate Outdated(stored: seq<TextDocument>) {
    exists i: nat, j: nat :: OutdatedAt(stored, i, j)
  }

  /** Publication number k is the last one for its file. */
  ghost predicate IsLastWord(published: seq<(TextDocument, string)>, k: nat) {
    k < |published| && forall n :: k < n < |published| ==> published[n].0.uri != published[k].0.uri
  }

  /** The last diagnostics sent for a file are of the text then cached for it. */
  ghost predicate LastWordsCurrent(s: State) {
    forall k: nat :: IsLastWord(s.published, k) ==>
                       s.published[k].0.uri in s.files && s.published[k].1 == s.files[s.published[k].0.uri].text
  }

  /** Nothing is left to do in the background. */
  predicate Settled(s: State) {
    s.pending.None? && forall t :: 0 <= t < |s.workers| ==> s.workers[t].phase.Done?
  }

  lemma CurrentUnlessOutdated(s: State)
    requires Inv(s) && !Outdated(s.stored)
    ensures LastWordsCurrent(s)
  {
    forall q | q in s.published
      ensures q.0.uri in s.files && q.1 == s.files[q.0.uri].text
    {
      var p :| p in s.passes && p.document == q.0 && p.text == q.1;
      assert PassTraced(s.stored, p);
      var i: nat, k: nat, j: nat :| PassedAt(s.stored, p, i, k, j);
      var l := LatestOf(s.files, s.stored, q.0.uri);
      assert !OutdatedAt(s.stored, k, l);
    }
  }

  lemma Extend(run: seq<Step>, step: Step)
    requires Exec(INIT, run).Some? && Can(Exec(INIT, run).value, step)
    ensures Exec(INIT, run + [step]) == Some(Next(Exec(INIT, run).value, step))
    ensures Requests(run + [step]) == Requests(run) + if step.Handler? then [step.request] else []
  {
    assert (run + [step])[..|run|] == run;
  }

  // Two states that differ only in what workers have done and published.
  ghost predicate SameBut(s: State, s': State) {
    && s'.files == s.files && s'.stored == s.stored && s'.pending == s.pending
    && |s'.workers| == |s.workers|
    && forall u :: 0 <= u < |s.workers| ==> s'.workers[u].document == s.workers[u].document
  }

  ghost predicate OthersKept(s: State, s': State, t: nat) {
    SameBut(s, s') && forall u :: 0 <= u < |s.workers| && u != t ==> s'.workers[u] == s.workers[u]
  }

  function StepsLeft(phase: Phase): nat {
    match phase
    case Started => 3
    case Computed(_) => 2
    case Passed(_) => 1
    case Done => 0
  }

  function NextOf(t: nat, phase: Phase): Step
    requires !phase.Done?
  {
    match phase
    case Started => Read(t)
    case Computed(_) => Check(t)
    case Passed(_) => Notify(t)
  }

  lemma WorkerMovesOn(s: State, t: nat)
    requires t < |s.workers| && !s.workers[t].phase.Done? && s.workers[t].document.uri in s.files
    ensures Can(s, NextOf(t, s.workers[t].phase))
    ensures var s' := Next(s, NextOf(t, s.workers[t].phase));
            OthersKept(s, s', t) && StepsLeft(s'.workers[t].phase) < StepsLeft(s.workers[t].phase)
  {
  }

  // Any worker can be run to its end.
  lemma {:induction false} FinishWorker(run: seq<Step>, t: nat) returns (run': seq<Step>)
    requires Exec(INIT, run).Some? && t < |Exec(INIT, run).value.workers|
    ensures Exec(INIT, run').Some? && Requests(run') == Requests(run)
    ensures OthersKept(Exec(INIT, run).value, Exec(INIT, run').value, t)
    ensures Exec(INIT, run').value.workers[t].phase.Done?
    decreases StepsLeft(Exec(INIT, run).value.workers[t].phase)
  {
    var phase := Exec(INIT, run).value.workers[t].phase;
    if phase.Done? {
      run' := run;
    } else {
      WorkerHasFile(run, t);
      WorkerMovesOn(Exec(INIT, run).value, t);
      Extend(run, NextOf(t, phase));
      run' := FinishWorker(run + [NextOf(t, phase)], t);
    }
  }

  lemma WorkerHasFile(run: seq<Step>, t: nat)
    requires Exec(INIT, run).Some? && t < |Exec(INIT, run).value.workers|
    ensures Exec(INIT, run).value.workers[t].document.uri in Exec(INIT, run).value.files
  {
    RunKeepsInv(run);
    assert WorkerTraced(Exec(INIT, run).value, Exec(INIT, run).value.workers[t]);
  }

  // All workers but t, up to number n, can be run to their end.
  lemma {:induction false} FinishOthers(run: seq<Step>, t: nat, n: nat) returns (run': seq<Step>)
    requires Exec(INIT, run).Some? && t < |Exec(INIT, run).value.workers| && n <= |Exec(INIT, run).value.workers|
    ensures Exec(INIT, run').Some? && Requests(run') == Requests(run)
    ensures SameBut(Exec(INIT, run).value, Exec(INIT, run').value)
    ensures Exec(INIT, run').value.workers[t] == Exec(INIT, run).value.workers[t]
    ensures forall u :: 0 <= u < n && u != t ==> Exec(INIT, run').value.workers[u].phase.Done?
  {
    run' := run;
    if n > 0 {
      run' := FinishOthers(run, t, n - 1);
      if n - 1 != t {
        run' := FinishWorker(run', n - 1);
      }
    }
  }

  // A worker whose check has passed may be the last to notify.
  lemma NotifyLast(run: seq<Step>, t: nat) returns (run': seq<Step>)
    requires Exec(INIT, run).Some? && t < |Exec(INIT, run).value.workers|
    requires Exec(INIT, run).value.workers[t].phase.Passed?
    ensures Exec(INIT, run').Some? && Requests(run') == Requests(run)
    ensures var s, s' := Exec(INIT, run).value, Exec(INIT, run').value;
            && Settled(s') && s'.files == s.files && s'.published != []
            && s'.published[|s'.published| - 1] == (s.workers[t].document, s.workers[t].phase.text)
  {
    var fired := run;
    if Exec(INIT, run).value.pending.Some? {
      Extend(run, Fire);
      fired := run + [Fire];
    }
    var others := FinishOthers(fired, t, |Exec(INIT, fired).value.workers|);
    Extend(others, Notify(t));
    run' := others + [Notify(t)];
  }

  // The worker of document i passes its check at once and then waits until all requests are handled.
  lemma PassEarly(requests: seq<Request>, i: nat) returns (run: seq<Step>, t: nat)
    requires i < |requests| && Plain(requests, |requests|).Some?
    requires Exec(INIT, Handlers(requests)).Some? && |Documents(requests)| == |requests|
    ensures Following(requests, |requests|, run, t, Worker(Documents(requests)[i], Passed(Documents(requests)[i].text)))
  {
    var document := Documents(requests)[i];
    run, t := FollowToRead(requests, i, i);
    PlainCache(requests, i);
    run := FollowStep(requests, i + 1, run, t, Worker(document, Computed(document.text)), Check(t));
    run := FollowHandlers(requests, i + 1, |requests|, run, t, Worker(document, Passed(document.text)));
  }

  lemma OutdatedLastWord(requests: seq<Request>, i: nat, j: nat) returns (run: seq<Step>)
    requires Exec(INIT, Handlers(requests)).Some? && OutdatedAt(Documents(requests), i, j)
    ensures Requests(run) == requests && Exec(INIT, run).Some?
    ensures Settled(Exec(INIT, run).value) && !LastWordsCurrent(Exec(INIT, run).value)
  {
    AllStored(requests);
    assert requests[..|requests|] == requests;
    var t: nat;
    run, t := PassEarly(requests, i);
    CachedLast(run, requests, j);
    run := NotifyLast(run, t);
    var published := Exec(INIT, run).value.published;
    assert IsLastWord(published, |published| - 1);
  }

  lemma CachedLast(run: seq<Step>, requests: seq<Request>, j: nat)
    requires Exec(INIT, run).Some? && Requests(run) == requests && Exec(INIT, Handlers(requests)).Some?
    requires IsLatest(Documents(requests), j)
    ensures Documents(requests)[j].uri in Exec(INIT, run).value.files
    ensures Exec(INIT, run).value.files[Documents(requests)[j].uri] == Documents(requests)[j]
  {
    StoredBySchedule(run);
    RunKeepsInv(run);
    var s := Exec(INIT, run).value;
    assert s.stored[j].uri in s.files;
    var l := LatestOf(s.files, s.stored, s.stored[j].uri);
    assert l == j;
  }

  /** The version check does not protect the notification itself. For any requests, the last diagnostics
      sent for every file are of its current text in every interleaving, or in every one that settles,
      if and only if no file was stored with a text other than its last. */
  lemma LastWordIsCurrentIff(requests: seq<Request>)
    requires Exec(INIT, Handlers(requests)).Some?
    ensures (forall run :: Requests(run) == requests && Exec(INIT, run).Some?
                           ==> LastWordsCurrent(Exec(INIT, run).value))
            <==> !Outdated(Documents(requests))
    ensures (forall run :: Requests(run) == requests && Exec(INIT, run).Some? && Settled(Exec(INIT, run).value)
                           ==> LastWordsCurrent(Exec(INIT, run).value))
            <==> !Outdated(Documents(requests))
  {
    if Outdated(Documents(requests)) {
      var i: nat, j: nat :| OutdatedAt(Documents(requests), i, j);
      var run := OutdatedLastWord(requests, i, j);
    } else {
      forall run | Requests(run) == requests && Exec(INIT, run).Some?
        ensures LastWordsCurrent(Exec(INIT, run).value)
      {
        RunKeepsInv(run);
        StoredBySchedule(run);
        CurrentUnlessOutdated(Exec(INIT, run).value);
      }
    }
  }

  /** For every document, every later edit that changes its text makes such a session. */
  lemma LastWordMayBeOld(document: TextDocument, version: int, changes: seq<Change>) returns (run: seq<Step>)
    requires ApplyChanges(document.text, changes) != document.text
    ensures Requests(run) == [Open(document), Edit(document.uri, version, changes)]
    ensures Exec(INIT, run).Some? && Settled(Exec(INIT, run).value) && !LastWordsCurrent(Exec(INIT, run).value)
  {
    TwoStored(Open(document), Edit(document.uri, version, changes));
    run := OutdatedLastWord([Open(document), Edit(document.uri, version, changes)], 0, 1);
  }

  // ---------- what has been sent ----------

  /** What a worker has done so far, if its document is the one cached: everything about its text, and in
      the end the diagnostics of it are sent. */
  ghost predicate OnItsWay(s: State, worker: Worker) {
    && (worker.phase.Computed? || worker.phase.Passed? ==> worker.phase.text == worker.document.text)
    && (worker.phase.Done? ==> (worker.document, worker.document.text) in s.published)
  }

  ghost predicate IsCached(s: State, document: TextDocument) {
    document.uri in s.files && s.files[document.uri] == document
  }

  ghost predicate CachedOnTheirWay(s: State) {
    forall t :: 0 <= t < |s.workers| && IsCached(s, s.workers[t].document) ==> OnItsWay(s, s.workers[t])
  }

  // A document that is no longer cached does not come back under increasing versions.
  lemma HandlerKeepsWay(s: State, request: Request)
    requires Inv(s) && Can(s, Handler(request)) && CachedOnTheirWay(s)
    requires VersionsIncrease(Next(s, Handler(request)).stored)
    ensures CachedOnTheirWay(Next(s, Handler(request)))
  {
    var s', stored := Next(s, Handler(request)), Stored(s.files, request);
    forall t | 0 <= t < |s'.workers| && IsCached(s', s'.workers[t].document)
      ensures OnItsWay(s', s'.workers[t])
    {
      if t < |s.workers| {
        var document := s.workers[t].document;
        assert WorkerTraced(s, s.workers[t]);
        var i :| 0 <= i < |s.stored| && s.stored[i] == document;
        assert s'.stored[i] == document && s'.stored[|s.stored|] == stored;
        assert document.uri != stored.uri;
      }
    }
  }

  lemma BackgroundKeepsWay(s: State, step: Step)
    requires Inv(s) && Can(s, step) && !step.Handler? && CachedOnTheirWay(s)
    ensures CachedOnTheirWay(Next(s, step))
  {
    var s' := Next(s, step);
    forall t | 0 <= t < |s'.workers| && IsCached(s', s'.workers[t].document)
      ensures OnItsWay(s', s'.workers[t])
    {
      assert t < |s.workers| ==> IsCached(s, s.workers[t].document);
    }
  }

  lemma {:induction false} RunKeepsWay(run: seq<Step>)
    requires Exec(INIT, run).Some? && VersionsIncrease(Exec(INIT, run).value.stored)
    ensures CachedOnTheirWay(Exec(INIT, run).value)
    decreases |run|
  {
    if run != [] {
      var shorter, step := run[..|run| - 1], run[|run| - 1];
      var s := Exec(INIT, shorter).value;
      RunKeepsInv(shorter);
      assert s.stored <= Exec(INIT, run).value.stored;
      IncreasePrefix(s.stored, Exec(INIT, run).value.stored);
      RunKeepsWay(shorter);
      if step.Handler? {
        HandlerKeepsWay(s, step.request);
      } else {
        BackgroundKeepsWay(s, step);
      }
    }
  }

  lemma IncreasePrefix(a: seq<TextDocument>, b: seq<TextDocument>)
    requires a <= b && VersionsIncrease(b)
    ensures VersionsIncrease(a)
  {
  }

  /** With increasing versions, once nothing is left to do the diagnostics of every current document that
      a worker was started for have been sent, in every interleaving. */
  lemma CurrentIsSent(run: seq<Step>, t: nat)
    requires Exec(INIT, run).Some? && VersionsIncrease(Exec(INIT, run).value.stored)
    requires Settled(Exec(INIT, run).value) && t < |Exec(INIT, run).value.workers|
    requires IsCached(Exec(INIT, run).value, Exec(INIT, run).value.workers[t].document)
    ensures var document := Exec(INIT, run).value.workers[t].document;
            (document, document.text) in Exec(INIT, run).value.published
  {
    RunKeepsWay(run);
    assert OnItsWay(Exec(INIT, run).value, Exec(INIT, run).value.workers[t]);
  }

  // ---------- documents and the requests they come from ----------

  // The cache of the plain run holds, for each file, the document stored last.
  lemma PlainLatest(requests: seq<Request>, n: nat, uri: Uri) returns (j: nat)
    requires n <= |requests| && Plain(requests, n).Some? && uri in Plain(requests, n).value.files
    ensures j < |Plain(requests, n).value.stored| && Plain(requests, n).value.stored[j].uri == uri
    ensures Plain(requests, n).value.stored[j] == Plain(requests, n).value.files[uri]
    ensures forall m :: j < m < |Plain(requests, n).value.stored| ==> Plain(requests, n).value.stored[m].uri != uri
  {
    RunKeepsInv(Handlers(requests[..n]));
    var s := Plain(requests, n).value;
    j := LatestOf(s.files, s.stored, uri);
  }

  /** Document j is the one edit k applies to: the last of its file before. */
  ghost predicate EditOf(requests: seq<Request>, k: nat, j: nat)
    requires Exec(INIT, Handlers(requests)).Some? && |Documents(requests)| == |requests|
  {
    && j < k < |requests| && requests[k].Edit? && Documents(requests)[j].uri == requests[k].uri
    && (forall m :: j < m < k ==> Documents(requests)[m].uri != requests[k].uri)
    && Documents(requests)[k].text == ApplyChanges(Documents(requests)[j].text, requests[k].changes)
  }

  lemma EditFindsDocument(requests: seq<Request>, k: nat) returns (j: nat)
    requires Exec(INIT, Handlers(requests)).Some? && k < |requests| == |Documents(requests)| && requests[k].Edit?
    ensures EditOf(requests, k, j)
  {
    assert requests[..|requests|] == requests;
    PlainStores(requests, k);
    PlainPrefix(requests, k, |requests|);
    var s := Plain(requests, k).value;
    assert requests[k].uri in s.files;
    j := PlainLatest(requests, k, requests[k].uri);
    assert forall m :: 0 <= m < k ==> Documents(requests)[m] == s.stored[m];
  }

  /** Request k stores document k, under its own URI and version: an opened document as it is, an edited
      one with the changes applied to the last document of its file. */
  lemma DocumentsFollowRequests(requests: seq<Request>, k: nat)
    requires Exec(INIT, Handlers(requests)).Some? && k < |requests|
    ensures |Documents(requests)| == |requests|
    ensures Documents(requests)[k].uri == UriOf(requests[k])
    ensures Documents(requests)[k].version == VersionOf(requests[k])
    ensures requests[k].Open? ==> Documents(requests)[k] == requests[k].document
    ensures requests[k].Edit? ==> exists j: nat :: EditOf(requests, k, j)
  {
    AllStored(requests);
    PlainStores(requests, k);
    if requests[k].Edit? {
      var j := EditFindsDocument(requests, k);
    }
  }

  /** Versions that increase with every request for a file. */
  predicate RequestVersionsIncrease(requests: seq<Request>) {
    forall i, j :: 0 <= i < j < |requests| && UriOf(requests[i]) == UriOf(requests[j])
                   ==> VersionOf(requests[i]) < VersionOf(requests[j])
  }

  lemma IncreasingRequests(requests: seq<Request>)
    requires Exec(INIT, Handlers(requests)).Some?
    ensures VersionsIncrease(Documents(requests)) <==> RequestVersionsIncrease(requests)
  {
    AllStored(requests);
    forall k | 0 <= k < |requests|
      ensures Documents(requests)[k].uri == UriOf(requests[k])
              && Documents(requests)[k].version == VersionOf(requests[k])
    {
      DocumentsFollowRequests(requests, k);
    }
  }

  lemma StoredAreDocuments(run: seq<Step>)
    requires Exec(INIT, run).Some?
    ensures Exec(INIT, Handlers(Requests(run))).Some?
    ensures Exec(INIT, run).value.stored == Documents(Requests(run))
    ensures |Documents(Requests(run))| == |Requests(run)|
  {
    StoredBySchedule(run);
    AllStored(Requests(run));
  }

  /** When the versions the client sends increase per file, every interleaving is fresh. */
  lemma IncreasingVersionsAreFresh(run: seq<Step>)
    requires Exec(INIT, run).Some? && RequestVersionsIncrease(Requests(run))
    ensures Fresh(Exec(INIT, run).value)
  {
    StoredAreDocuments(run);
    IncreasingRequests(Requests(run));
    IncreasingDocumentsAreFresh(run);
  }

  // ---------- which documents are diagnosed ----------

  ghost predicate HasWorker(s: State, document: TextDocument) {
    exists t :: 0 <= t < |s.workers| && s.workers[t].document == document
  }

  /** Request k is the last edit; files may be opened after it. */
  predicate IsLastEdit(requests: seq<Request>, k: nat) {
    k < |requests| && requests[k].Edit? && forall m :: k < m < |requests| ==> requests[m].Open?
  }

  ghost predicate PendingIsLastEdit(s: State, requests: seq<Request>) {
    exists k: nat :: IsLastEdit(requests, k) && k < |s.stored| && s.pending == Some(s.stored[k])
  }

  /** Every opened document has a worker, the last edited one has a worker or waits for one, and nothing
      else waits. */
  ghost predicate AllStarted(s: State, requests: seq<Request>) {
    && |s.stored| == |requests|
    && (forall k :: 0 <= k < |requests| && requests[k].Open? ==> HasWorker(s, s.stored[k]))
    && (forall k: nat :: IsLastEdit(requests, k) ==> s.pending == Some(s.stored[k]) || HasWorker(s, s.stored[k]))
    && (s.pending.Some? ==> PendingIsLastEdit(s, requests))
  }

  lemma WorkersStay(s: State, step: Step)
    requires Can(s, step)
    ensures |s.workers| <= |Next(s, step).workers|
    ensures forall t :: 0 <= t < |s.workers| ==> Next(s, step).workers[t].document == s.workers[t].document
    ensures forall d :: HasWorker(s, d) ==> HasWorker(Next(s, step), d)
  {
    forall d | HasWorker(s, d)
      ensures HasWorker(Next(s, step), d)
    {
      var t :| 0 <= t < |s.workers| && s.workers[t].document == d;
      assert Next(s, step).workers[t].document == d;
    }
  }

  lemma LastEditAppend(requests: seq<Request>, request: Request, k: nat)
    ensures IsLastEdit(requests + [request], k)
            <==> if request.Edit? then k == |requests| else IsLastEdit(requests, k)
  {
    var longer := requests + [request];
    assert longer[|requests|] == request;
    assert forall m :: 0 <= m < |requests| ==> longer[m] == requests[m];
  }

  lemma HandlerStarts(s: State, requests: seq<Request>, request: Request)
    requires AllStarted(s, requests) && Can(s, Handler(request))
    ensures AllStarted(Next(s, Handler(request)), requests + [request])
  {
    var s', longer := Next(s, Handler(request)), requests + [request];
    WorkersStay(s, Handler(request));
    forall k | 0 <= k < |longer| && longer[k].Open?
      ensures HasWorker(s', s'.stored[k])
    {
      if k < |requests| {
        assert longer[k] == requests[k];
      } else {
        assert s'.workers[|s.workers|].document == s'.stored[k];
      }
    }
    forall k: nat
      ensures IsLastEdit(longer, k) ==> s'.pending == Some(s'.stored[k]) || HasWorker(s', s'.stored[k])
    {
      LastEditAppend(requests, request, k);
    }
    if s'.pending.Some? {
      PendingAfter(s, requests, request);
    }
  }

  lemma PendingAfter(s: State, requests: seq<Request>, request: Request)
    requires AllStarted(s, requests) && Can(s, Handler(request)) && Next(s, Handler(request)).pending.Some?
    ensures PendingIsLastEdit(Next(s, Handler(request)), requests + [request])
  {
    var k: nat := |requests|;
    if request.Open? {
      k :| IsLastEdit(requests, k) && k < |s.stored| && s.pending == Some(s.stored[k]);
    }
    LastEditAppend(requests, request, k);
  }

  lemma BackgroundStarts(s: State, requests: seq<Request>, step: Step)
    requires AllStarted(s, requests) && Can(s, step) && !step.Handler?
    ensures AllStarted(Next(s, step), requests)
  {
    var s' := Next(s, step);
    WorkersStay(s, step);
    if step.Fire? {
      assert s'.workers[|s.workers|].document == s.pending.value;
      assert HasWorker(s', s.pending.value);
    }
  }

  lemma {:induction false} RunStarts(run: seq<Step>)
    requires Exec(INIT, run).Some?
    ensures AllStarted(Exec(INIT, run).value, Requests(run))
    decreases |run|
  {
    if run != [] {
      var shorter, step := run[..|run| - 1], run[|run| - 1];
      RunStarts(shorter);
      if step.Handler? {
        HandlerStarts(Exec(INIT, shorter).value, Requests(shorter), step.request);
      } else {
        BackgroundStarts(Exec(INIT, shorter).value, Requests(shorter), step);
        assert Requests(run) == Requests(shorter);
      }
    }
  }

  /** Document k is current at the end, and was opened or stored by the last edit. */
  ghost predicate Awaited(requests: seq<Request>, k: nat)
    requires Exec(INIT, Handlers(requests)).Some?
  {
    && k < |requests| && IsLatest(Documents(requests), k)
    && (requests[k].Open? || IsLastEdit(requests, k))
  }

  /** With increasing versions, once nothing is left to do, the diagnostics of every current document that
      was opened or stored by the last edit have been sent, in every interleaving. */
  lemma AwaitedIsSent(run: seq<Step>, k: nat)
    requires Exec(INIT, run).Some? && RequestVersionsIncrease(Requests(run)) && Settled(Exec(INIT, run).value)
    requires Exec(INIT, Handlers(Requests(run))).Some? && Awaited(Requests(run), k)
    ensures var document := Documents(Requests(run))[k];
            (document, document.text) in Exec(INIT, run).value.published
  {
    StoredAreDocuments(run);
    IncreasingRequests(Requests(run));
    RunStarts(run);
    var s, document := Exec(INIT, run).value, Documents(Requests(run))[k];
    assert HasWorker(s, document);
    var t :| 0 <= t < |s.workers| && s.workers[t].document == document;
    CachedLast(run, Requests(run), k);
    CurrentIsSent(run, t);
  }

  lemma {:induction false} WorkersStayOn(s: State, run: seq<Step>, document: TextDocument)
    requires Exec(s, run).Some? && HasWorker(s, document)
    ensures HasWorker(Exec(s, run).value, document)
    decreases |run|
  {
    if run != [] {
      var shorter := run[..|run| - 1];
      WorkersStayOn(s, shorter, document);
      WorkersStay(Exec(s, shorter).value, run[|run| - 1]);
    }
  }

  lemma RefreshStarts(s: State, uri: Uri)
    requires uri in s.files
    ensures HasWorker(Next(s, Refresh(uri)), s.files[uri])
  {
    assert Next(s, Refresh(uri)).workers[|s.workers|].document == s.files[uri];
  }

  /** A refresh starts a worker too: if the document it finds is still current when nothing is left to do,
      its diagnostics have been sent. */
  lemma RefreshedIsSent(before: seq<Step>, uri: Uri, rest: seq<Step>)
    requires Exec(INIT, before).Some? && uri in Exec(INIT, before).value.files
    requires Exec(Next(Exec(INIT, before).value, Refresh(uri)), rest).Some?
    ensures var s := Exec(INIT, before).value;
            var s', document := Exec(Next(s, Refresh(uri)), rest).value, s.files[uri];
            && Exec(INIT, before + [Refresh(uri)] + rest) == Some(s')
            && (VersionsIncrease(s'.stored) && Settled(s') && IsCached(s', document)
                ==> (document, document.text) in s'.published)
  {
    var s := Exec(INIT, before).value;
    var s' := Exec(Next(s, Refresh(uri)), rest).value;
    Extend(before, Refresh(uri));
    ExecSplits(INIT, before + [Refresh(uri)], rest);
    RefreshStarts(s, uri);
    WorkersStayOn(Next(s, Refresh(uri)), rest, s.files[uri]);
    var t :| 0 <= t < |s'.workers| && s'.workers[t].document == s.files[uri];
    if VersionsIncrease(s'.stored) && Settled(s') && IsCached(s', s.files[uri]) {
      CurrentIsSent(before + [Refresh(uri)] + rest, t);
    }
  }

  // ---------- and which may never be ----------

  // Nothing is published but documents of workers.
  ghost predicate PublishedByWorkers(s: State) {
    forall q :: q in s.published ==> HasWorker(s, q.0)
  }

  lemma {:induction false} RunPublishesWorkers(run: seq<Step>)
    requires Exec(INIT, run).Some?
    ensures PublishedByWorkers(Exec(INIT, run).value)
    decreases |run|
  {
    if run != [] {
      var shorter, step := run[..|run| - 1], run[|run| - 1];
      var s, s' := Exec(INIT, shorter).value, Exec(INIT, run).value;
      RunPublishesWorkers(shorter);
      WorkersStay(s, step);
      if step.Notify? {
        assert s'.workers[step.worker].document == s.workers[step.worker].document;
      }
    }
  }

  // Without background steps only opened documents get workers.
  ghost predicate WorkersOpened(s: State, requests: seq<Request>) {
    && |s.stored| == |requests|
    && forall t :: 0 <= t < |s.workers| ==> OpenedBy(s, requests, s.workers[t].document)
  }

  ghost predicate OpenedBy(s: State, requests: seq<Request>, document: TextDocument) {
    exists k :: 0 <= k < |requests| && k < |s.stored| && requests[k].Open? && s.stored[k] == document
  }

  lemma {:induction false} PlainWorkersOpened(requests: seq<Request>, n: nat)
    requires n <= |requests| && Plain(requests, n).Some?
    ensures WorkersOpened(Plain(requests, n).value, requests[..n])
  {
    if n > 0 {
      PlainStep(requests, n - 1);
      PlainWorkersOpened(requests, n - 1);
      var s, s' := Plain(requests, n - 1).value, Plain(requests, n).value;
      var shorter, longer := requests[..n - 1], requests[..n];
      HandlerStores(s, requests[n - 1]);
      forall t | 0 <= t < |s'.workers|
        ensures OpenedBy(s', longer, s'.workers[t].document)
      {
        if t < |s.workers| {
          assert OpenedBy(s, shorter, s.workers[t].document);
          var k :| 0 <= k < |shorter| && shorter[k].Open? && s.stored[k] == s.workers[t].document;
          assert longer[k] == shorter[k] && s'.stored[k] == s.stored[k];
        } else {
          assert longer[n - 1].Open? && s'.stored[n - 1] == s'.workers[t].document;
        }
      }
    }
  }

  lemma {:induction false} FinishAll(run: seq<Step>, n: nat) returns (run': seq<Step>)
    requires Exec(INIT, run).Some? && n <= |Exec(INIT, run).value.workers|
    ensures Exec(INIT, run').Some? && Requests(run') == Requests(run)
    ensures SameBut(Exec(INIT, run).value, Exec(INIT, run').value)
    ensures forall u :: 0 <= u < n ==> Exec(INIT, run').value.workers[u].phase.Done?
  {
    run' := run;
    if n > 0 {
      run' := FinishAll(run, n - 1);
      run' := FinishWorker(run', n - 1);
    }
  }

  // All requests first, then the timer, then the workers.
  lemma SettleLazily(requests: seq<Request>) returns (run: seq<Step>)
    requires Exec(INIT, Handlers(requests)).Some?
    ensures Exec(INIT, run).Some? && Requests(run) == requests && Settled(Exec(INIT, run).value)
    ensures Exec(INIT, run).value.stored == Documents(requests)
    ensures forall t :: 0 <= t < |Exec(INIT, run).value.workers| ==>
              var document := Exec(INIT, run).value.workers[t].document;
              OpenedBy(Exec(INIT, run).value, requests, document)
              || exists k: nat :: IsLastEdit(requests, k) && k < |Documents(requests)|
                                  && document == Documents(requests)[k]
  {
    var first := Handlers(requests);
    HandledRequests(requests);
    assert requests[..|requests|] == requests;
    PlainWorkersOpened(requests, |requests|);
    RunStarts(first);
    var s, fired := Exec(INIT, first).value, first;
    if s.pending.Some? {
      assert PendingIsLastEdit(s, requests);
      Extend(first, Fire);
      fired := first + [Fire];
    }
    run := FinishAll(fired, |Exec(INIT, fired).value.workers|);
    var s' := Exec(INIT, run).value;
    forall t | 0 <= t < |s'.workers|
      ensures OpenedBy(s', requests, s'.workers[t].document)
              || exists k: nat :: IsLastEdit(requests, k) && k < |Documents(requests)|
                                  && s'.workers[t].document == Documents(requests)[k]
    {
      if t < |s.workers| {
        assert OpenedBy(s, requests, s.workers[t].document);
      }
    }
  }

  // A worker for document k means that request k opened it or is the last edit.
  lemma WorkerIsAwaited(requests: seq<Request>, s: State, t: nat, k: nat)
    requires Exec(INIT, Handlers(requests)).Some? && VersionsIncrease(Documents(requests))
    requires k < |requests| == |Documents(requests)| && s.stored == Documents(requests)
    requires t < |s.workers| && s.workers[t].document == Documents(requests)[k]
    requires OpenedBy(s, requests, s.workers[t].document)
             || exists j: nat :: IsLastEdit(requests, j) && j < |Documents(requests)|
                                 && s.workers[t].document == Documents(requests)[j]
    ensures requests[k].Open? || IsLastEdit(requests, k)
  {
    var j: nat :| j < |requests| && Documents(requests)[j] == Documents(requests)[k]
                  && (requests[j].Open? || IsLastEdit(requests, j));
    assert j == k;
  }

  lemma OnlyAwaitedSent(requests: seq<Request>, k: nat) returns (run: seq<Step>)
    requires Exec(INIT, Handlers(requests)).Some? && RequestVersionsIncrease(requests)
    requires k < |requests| == |Documents(requests)| && requests[k].Edit? && !IsLastEdit(requests, k)
    ensures Exec(INIT, run).Some? && Requests(run) == requests && Settled(Exec(INIT, run).value)
    ensures forall text :: (Documents(requests)[k], text) !in Exec(INIT, run).value.published
  {
    run := SettleLazily(requests);
    var s, document := Exec(INIT, run).value, Documents(requests)[k];
    RunPublishesWorkers(run);
    IncreasingRequests(requests);
    if HasWorker(s, document) {
      var t :| 0 <= t < |s.workers| && s.workers[t].document == document;
      WorkerIsAwaited(requests, s, t, k);
      assert false;
    }
    assert forall q :: q in s.published ==> q.0 != document;
  }

  /** With increasing versions, the diagnostics of a current document are sent in every interleaving that
      settles if and only if it was opened or stored by the last edit: one timer serves all files, so an
      edit of another file soon after can keep an edited document from ever being diagnosed. */
  lemma AlwaysSentIff(requests: seq<Request>, k: nat)
    requires Exec(INIT, Handlers(requests)).Some? && RequestVersionsIncrease(requests)
    requires k < |requests| == |Documents(requests)| && IsLatest(Documents(requests), k)
    ensures (forall run :: Requests(run) == requests && Exec(INIT, run).Some? && Settled(Exec(INIT, run).value)
                           ==> (Documents(requests)[k], Documents(requests)[k].text)
                               in Exec(INIT, run).value.published)
            <==> requests[k].Open? || IsLastEdit(requests, k)
  {
    if requests[k].Open? || IsLastEdit(requests, k) {
      forall run | Requests(run) == requests && Exec(INIT, run).Some? && Settled(Exec(INIT, run).value)
        ensures (Documents(requests)[k], Documents(requests)[k].text) in Exec(INIT, run).value.published
      {
        AwaitedIsSent(run, k);
      }
    } else {
      var run := OnlyAwaitedSent(requests, k);
    }
  }
}
