// Incremental document synchronisation: pkg/server/methods/synchronize.go with the FileCache of
// pkg/utils/cache.go, judged against a client that edits an array of lines (LSP 3.17, sections
// "Position" and "DidChangeTextDocument Notification").

module IncrementalSync {
  import opened Positions

  type Uri = string

  datatype Change = Change(start: Position, end: Position, text: string)

  datatype TextDocument = TextDocument(uri: Uri, version: int, text: string)

  // What a client may ask for; the handlers run one request at a time.
  datatype Request =
    | Open(document: TextDocument)
    | Edit(uri: Uri, version: int, changes: seq<Change>)

  // ---------- the server's side, on values ----------

  function ApplyChange(content: string, change: Change): string {
    Splice(content, IndexOf(content, change.start), IndexOf(content, change.end), change.text)
  }

  function ApplyChanges(content: string, changes: seq<Change>): string {
    if changes == [] then content
    else ApplyChange(ApplyChanges(content, changes[..|changes| - 1]), changes[|changes| - 1])
  }

  /** The source dereferences the cached file of an edit, so the file must have been opened. */
  predicate Enabled(files: map<Uri, TextDocument>, request: Request) {
    request.Edit? ==> request.uri in files
  }

  /** The document a request leaves in the cache. */
  function Stored(files: map<Uri, TextDocument>, request: Request): TextDocument
    requires Enabled(files, request)
  {
    match request
    case Open(document) => document
    case Edit(uri, version, changes) =>
      TextDocument(uri, version, ApplyChanges(files[uri].text, changes))
  }

  function Handle(files: map<Uri, TextDocument>, request: Request): map<Uri, TextDocument>
    requires Enabled(files, request)
  {
    var document := Stored(files, request);
    files[document.uri := document]
  }

  // ---------- the cache and the handlers ----------

  class CachedFile {
    var textDocument: TextDocument
    var project: string
    var envVariables: seq<string>

    constructor (textDocument: TextDocument)
      ensures this.textDocument == textDocument && project == "" && envVariables == []
    {
      this.textDocument, project, envVariables := textDocument, "", [];
    }
  }

  class FileCache {
    var fileCache: map<Uri, CachedFile>

    // No two URIs share an entry.
    ghost predicate Valid()
      reads this
    {
      forall u, v :: u in fileCache && v in fileCache && u != v ==> fileCache[u] != fileCache[v]
    }

    ghost function Documents(): map<Uri, TextDocument>
      reads this, fileCache.Values
    {
      map u | u in fileCache :: fileCache[u].textDocument
    }

    constructor ()
      ensures Valid() && Documents() == map[]
    {
      fileCache := map[];
    }

    method SetFile(file: CachedFile)
      requires Valid() && file !in fileCache.Values
      modifies this
      ensures Valid()
      ensures fileCache == old(fileCache)[file.textDocument.uri := file]
      ensures Documents() == old(Documents())[file.textDocument.uri := file.textDocument]
    {
      fileCache := fileCache[file.textDocument.uri := file];
    }

    method GetFile(uri: Uri) returns (file: CachedFile?)
      ensures file != null <==> uri in Documents()
      ensures file != null ==> file in fileCache.Values && file == fileCache[uri]
                               && file.textDocument == Documents()[uri]
    {
      file := if uri in fileCache then fileCache[uri] else null;
    }

    // The entry is updated in place; the project and variables it carries stay.
    method UpdateTextDocument(uri: Uri, textDocument: TextDocument)
      requires Valid() && uri in fileCache
      modifies this, fileCache[uri]
      ensures Valid() && fileCache == old(fileCache)
      ensures Documents() == old(Documents())[uri := textDocument]
      ensures fileCache[uri].project == old(fileCache[uri].project)
      ensures fileCache[uri].envVariables == old(fileCache[uri].envVariables)
    {
      var file := fileCache[uri];
      file.textDocument := textDocument;
      fileCache := fileCache[uri := file];
    }
  }

  class Methods {
    const cache: FileCache

    constructor (cache: FileCache)
      ensures this.cache == cache
    {
      this.cache := cache;
    }

    method SetChangeInFileCache(textDocument: TextDocument)
      requires cache.Valid()
      modifies cache, cache.fileCache.Values
      ensures cache.Valid() && fresh(cache.fileCache.Values - old(cache.fileCache.Values))
      ensures cache.Documents() == old(cache.Documents())[textDocument.uri := textDocument]
    {
      var cachedFile := cache.GetFile(textDocument.uri);
      if cachedFile != null {
        cache.UpdateTextDocument(textDocument.uri, textDocument);
      } else {
        var file := new CachedFile(textDocument);
        cache.SetFile(file);
      }
    }

    method ApplyIncrementalChanges(uri: Uri, changes: seq<Change>) returns (text: string)
      requires uri in cache.fileCache
      ensures text == ApplyChanges(cache.fileCache[uri].textDocument.text, changes)
    {
      var file := cache.GetFile(uri);
      var content := file.textDocument.text;
      for n := 0 to |changes|
        invariant content == ApplyChanges(file.textDocument.text, changes[..n])
      {
        var start := PosToIndex(changes[n].start, content);
        var end := PosToIndex(changes[n].end, content);
        var buf := content[..start];
        buf := buf + changes[n].text;
        buf := buf + content[end..];
        assert changes[..n + 1][..n] == changes[..n];
        content := buf;
      }
      assert changes[..|changes|] == changes;
      return content;
    }

    method DidOpen(textDocument: TextDocument)
      requires cache.Valid()
      modifies cache, cache.fileCache.Values
      ensures cache.Valid() && fresh(cache.fileCache.Values - old(cache.fileCache.Values))
      ensures cache.Documents() == Handle(old(cache.Documents()), Open(textDocument))
    {
      SetChangeInFileCache(textDocument);
    }

    method DidChange(uri: Uri, version: int, changes: seq<Change>)
      requires cache.Valid() && uri in cache.fileCache
      modifies cache, cache.fileCache.Values
      ensures cache.Valid() && fresh(cache.fileCache.Values - old(cache.fileCache.Values))
      ensures cache.Documents() == Handle(old(cache.Documents()), Edit(uri, version, changes))
    {
      var newText := ApplyIncrementalChanges(uri, changes);
      SetChangeInFileCache(TextDocument(uri, version, newText));
    }
  }

  // ---------- the client's side: an array of lines ----------

  ghost predicate Lines(lines: seq<string>) {
    lines != [] && forall k :: 0 <= k < |lines| ==> '\n' !in lines[k]
  }

  function Join(lines: seq<string>): string {
    if lines == [] then ""
    else if |lines| == 1 then lines[0]
    else lines[0] + "\n" + Join(lines[1..])
  }

  function Split(s: string): (lines: seq<string>)
    ensures lines != []
  {
    if s == [] then [""]
    else
      var rest := Split(s[1..]);
      if s[0] == '\n' then [""] + rest else [[s[0]] + rest[0]] + rest[1..]
  }

  /** A position is read by the client as (row, column): a column past the end of its line means
      the end of that line, and a row past the last one means the end of the document. */
  function Row(lines: seq<string>, pos: Position): nat
    requires lines != []
  {
    if pos.line < |lines| then pos.line else |lines| - 1
  }

  function Col(lines: seq<string>, pos: Position): nat
    requires lines != []
  {
    var length := |lines[Row(lines, pos)]|;
    if pos.line < |lines| && pos.character < length then pos.character else length
  }

  function ClientApply(lines: seq<string>, change: Change): (after: seq<string>)
    requires lines != []
    ensures after != []
  {
    var first, last := Row(lines, change.start), Row(lines, change.end);
    var text := lines[first][..Col(lines, change.start)] + change.text
                + lines[last][Col(lines, change.end)..];
    lines[..first] + Split(text) + lines[last + 1..]
  }

  /** Both sides read the position alike unless its column runs past a line other than the last. */
  predicate ReadAlike(lines: seq<string>, pos: Position)
    requires lines != []
  {
    pos.line + 1 >= |lines| || pos.character <= |lines[pos.line]|
  }

  /** Both sides read every position of the batch alike, in the lines it refers to. */
  predicate BatchAgrees(lines: seq<string>, changes: seq<Change>)
    requires lines != []
    decreases |changes|
  {
    changes == [] ||
    (&& ReadAlike(lines, changes[0].start)
     && ReadAlike(lines, changes[0].end)
     && BatchAgrees(ClientApply(lines, changes[0]), changes[1..]))
  }

  function ClientApplyAll(lines: seq<string>, changes: seq<Change>): seq<string>
    requires lines != []
    decreases |changes|
  {
    if changes == [] then lines
    else ClientApplyAll(ClientApply(lines, changes[0]), changes[1..])
  }

  // ---------- lines and offsets ----------

  lemma JoinWiden(c: char, lines: seq<string>)
    requires lines != []
    ensures Join([[c] + lines[0]] + lines[1..]) == [c] + Join(lines)
  {
    var wide := [[c] + lines[0]] + lines[1..];
    assert wide[1..] == lines[1..];
    if |lines| > 1 {
      assert [c] + lines[0] + "\n" + Join(lines[1..]) == [c] + (lines[0] + "\n" + Join(lines[1..]));
    }
  }

  lemma {:induction false} SplitJoins(s: string)
    ensures Join(Split(s)) == s && Lines(Split(s))
    ensures |Split(s)| == Newlines(s) + 1
  {
    if s != [] {
      var rest := Split(s[1..]);
      SplitJoins(s[1..]);
      assert s == [s[0]] + s[1..];
      NewlinesConcat([s[0]], s[1..]);
      JoinWiden(s[0], rest);
      if s[0] == '\n' {
        assert ([""] + rest)[1..] == rest;
        assert "" + "\n" + Join(rest) == s;
      }
    }
  }

  lemma {:induction false} SplitPlain(s: string)
    requires '\n' !in s
    ensures Split(s) == [s]
  {
    if s != [] {
      SplitPlain(s[1..]);
      assert s == [s[0]] + s[1..];
    }
  }

  lemma {:induction false} SplitAtBreak(a: string, b: string)
    requires '\n' !in a
    ensures Split(a + "\n" + b) == [a] + Split(b)
  {
    var s := a + "\n" + b;
    if a == [] {
      assert s[1..] == b;
    } else {
      assert s[1..] == a[1..] + "\n" + b;
      SplitAtBreak(a[1..], b);
      assert [s[0]] + a[1..] == a;
    }
  }

  /** Splitting undoes joining, as SplitJoins says that joining undoes splitting. */
  lemma {:induction false} JoinSplits(lines: seq<string>)
    requires Lines(lines)
    ensures Split(Join(lines)) == lines
  {
    if |lines| == 1 {
      SplitPlain(lines[0]);
    } else {
      SplitAtBreak(lines[0], Join(lines[1..]));
      JoinSplits(lines[1..]);
      assert lines == [lines[0]] + lines[1..];
    }
  }

  lemma {:induction false} JoinConcat(a: seq<string>, b: seq<string>)
    requires a != [] && b != []
    ensures Join(a + b) == Join(a) + "\n" + Join(b)
  {
    if |a| == 1 {
      assert (a + b)[1..] == b;
    } else {
      assert (a + b)[1..] == a[1..] + b;
      JoinConcat(a[1..], b);
    }
  }

  /** The text in front of a line, and the text behind it. */
  function Above(lines: seq<string>, row: nat): string
    requires row <= |lines|
  {
    if row == 0 then "" else Join(lines[..row]) + "\n"
  }

  function Below(lines: seq<string>, row: nat): string
    requires row < |lines|
  {
    if row + 1 == |lines| then "" else "\n" + Join(lines[row + 1..])
  }

  lemma JoinFrom(lines: seq<string>, row: nat)
    requires row < |lines|
    ensures Join(lines[row..]) == lines[row] + Below(lines, row)
  {
    assert lines[row..][1..] == lines[row + 1..];
    if row + 1 < |lines| {
      assert lines[row] + "\n" + Join(lines[row + 1..]) == lines[row] + Below(lines, row);
    }
  }

  lemma JoinAround(lines: seq<string>, row: nat)
    requires row < |lines|
    ensures Join(lines) == Above(lines, row) + (lines[row] + Below(lines, row))
  {
    JoinFrom(lines, row);
    assert lines == lines[..row] + lines[row..];
    if row > 0 {
      JoinConcat(lines[..row], lines[row..]);
    }
  }

  lemma {:induction false} JoinNewlines(lines: seq<string>)
    requires Lines(lines)
    ensures Newlines(Join(lines)) == |lines| - 1
  {
    NewlinesZero(lines[0]);
    if |lines| > 1 {
      JoinNewlines(lines[1..]);
      NewlinesConcat(lines[0], "\n" + Join(lines[1..]));
      NewlinesConcat("\n", Join(lines[1..]));
      assert Join(lines) == lines[0] + ("\n" + Join(lines[1..]));
    }
  }

  lemma LineStartOfRow(lines: seq<string>, row: nat)
    requires Lines(lines) && row < |lines|
    ensures LineStart(Join(lines), row) == |Above(lines, row)|
  {
    var above := Above(lines, row);
    JoinAround(lines, row);
    if row > 0 {
      JoinNewlines(lines[..row]);
      NewlinesConcat(Join(lines[..row]), "\n");
      assert Newlines("\n") == 1;
      LineStartAfter(above, lines[row] + Below(lines, row));
    }
  }

  lemma LineStartAfter(above: string, rest: string)
    requires above != [] && above[|above| - 1] == '\n'
    ensures LineStart(above + rest, Newlines(above)) == |above|
  {
    assert (above + rest)[..|above|] == above;
    LineStartIs(above + rest, |above|);
  }

  function ClientOffset(lines: seq<string>, pos: Position): nat
    requires lines != []
  {
    |Above(lines, Row(lines, pos))| + Col(lines, pos)
  }

  /** PosToIndex finds the offset the client means exactly on the positions both read alike. */
  lemma OffsetsAgree(lines: seq<string>, pos: Position)
    requires Lines(lines)
    ensures IndexOf(Join(lines), pos) == ClientOffset(lines, pos) <==> ReadAlike(lines, pos)
  {
    var row := Row(lines, pos);
    JoinAround(lines, row);
    if pos.line < |lines| {
      LineStartOfRow(lines, row);
    } else {
      JoinNewlines(lines);
      LineStartBound(Join(lines), pos.line);
    }
  }

  // ---------- replica agreement ----------

  lemma {:induction false} LinesConcat(a: seq<string>, b: seq<string>, c: seq<string>)
    requires Lines(b)
    requires forall k :: 0 <= k < |a| ==> '\n' !in a[k]
    requires forall k :: 0 <= k < |c| ==> '\n' !in c[k]
    ensures Lines(a + b + c)
  {
  }

  lemma JoinWithBelow(lines: seq<string>, last: nat, middle: seq<string>)
    requires last < |lines| && middle != []
    ensures Join(middle + lines[last + 1..]) == Join(middle) + Below(lines, last)
  {
    var tail := lines[last + 1..];
    if tail == [] {
      assert middle + tail == middle;
    } else {
      JoinConcat(middle, tail);
      assert Join(middle) + "\n" + Join(tail) == Join(middle) + ("\n" + Join(tail));
    }
  }

  lemma JoinWithAbove(lines: seq<string>, first: nat, rest: seq<string>)
    requires first <= |lines| && rest != []
    ensures Join(lines[..first] + rest) == Above(lines, first) + Join(rest)
  {
    if first == 0 {
      assert lines[..first] + rest == rest;
    } else {
      JoinConcat(lines[..first], rest);
    }
  }

  lemma JoinReplaced(lines: seq<string>, first: nat, last: nat, middle: seq<string>)
    requires first < |lines| && last < |lines| && middle != []
    ensures Join(lines[..first] + middle + lines[last + 1..])
            == Above(lines, first) + Join(middle) + Below(lines, last)
  {
    var tail := lines[last + 1..];
    assert lines[..first] + middle + tail == lines[..first] + (middle + tail);
    JoinWithAbove(lines, first, middle + tail);
    JoinWithBelow(lines, last, middle);
  }

  lemma CutConcat(a: string, row: string, b: string, col: nat)
    requires col <= |row|
    ensures var all := a + (row + b);
            all[..|a| + col] == a + row[..col] && all[|a| + col..] == row[col..] + b
  {
    var all := a + (row + b);
    assert all[|a|..] == row + b;
    assert all[|a| + col..] == all[|a|..][col..];
  }

  // The text on either side of a position that both sides read alike.
  lemma CutAt(lines: seq<string>, pos: Position)
    requires Lines(lines) && ReadAlike(lines, pos)
    ensures var row, col, i := Row(lines, pos), Col(lines, pos), IndexOf(Join(lines), pos);
            && Join(lines)[..i] == Above(lines, row) + lines[row][..col]
            && Join(lines)[i..] == lines[row][col..] + Below(lines, row)
  {
    var row := Row(lines, pos);
    OffsetsAgree(lines, pos);
    JoinAround(lines, row);
    CutConcat(Above(lines, row), lines[row], Below(lines, row), Col(lines, pos));
  }

  // What the server's splice makes of a change that both sides read alike.
  lemma ServerChange(lines: seq<string>, change: Change)
    requires Lines(lines) && ReadAlike(lines, change.start) && ReadAlike(lines, change.end)
    ensures var first, last := Row(lines, change.start), Row(lines, change.end);
            var head := lines[first][..Col(lines, change.start)];
            var tail := lines[last][Col(lines, change.end)..];
            ApplyChange(Join(lines), change)
            == Above(lines, first) + head + change.text + (tail + Below(lines, last))
  {
    CutAt(lines, change.start);
    CutAt(lines, change.end);
  }

  lemma ReplacedIsLines(lines: seq<string>, first: nat, last: nat, text: string)
    requires Lines(lines) && first < |lines| && last < |lines|
    ensures Lines(lines[..first] + Split(text) + lines[last + 1..])
    ensures Join(lines[..first] + Split(text) + lines[last + 1..])
            == Above(lines, first) + text + Below(lines, last)
  {
    SplitJoins(text);
    JoinReplaced(lines, first, last, Split(text));
    LinesConcat(lines[..first], Split(text), lines[last + 1..]);
  }

  lemma ClientChange(lines: seq<string>, change: Change)
    requires Lines(lines)
    ensures var first, last := Row(lines, change.start), Row(lines, change.end);
            var head := lines[first][..Col(lines, change.start)];
            var tail := lines[last][Col(lines, change.end)..];
            && Lines(ClientApply(lines, change))
            && Join(ClientApply(lines, change))
               == Above(lines, first) + (head + change.text + tail) + Below(lines, last)
  {
    var first, last := Row(lines, change.start), Row(lines, change.end);
    var head := lines[first][..Col(lines, change.start)];
    var tail := lines[last][Col(lines, change.end)..];
    ReplacedIsLines(lines, first, last, head + change.text + tail);
  }

  lemma ChangeAgrees(lines: seq<string>, change: Change)
    requires Lines(lines) && ReadAlike(lines, change.start) && ReadAlike(lines, change.end)
    ensures Lines(ClientApply(lines, change))
    ensures Join(ClientApply(lines, change)) == ApplyChange(Join(lines), change)
  {
    var first, last := Row(lines, change.start), Row(lines, change.end);
    var head := lines[first][..Col(lines, change.start)];
    var tail := lines[last][Col(lines, change.end)..];
    ClientChange(lines, change);
    ServerChange(lines, change);
    Regroup(Above(lines, first), head, change.text, tail, Below(lines, last));
  }

  lemma Regroup(a: string, b: string, c: string, d: string, e: string)
    ensures a + (b + c + d) + e == a + b + c + (d + e)
  {
  }

  lemma {:induction false} ApplyChangesFirst(content: string, changes: seq<Change>)
    requires changes != []
    ensures ApplyChanges(content, changes)
            == ApplyChanges(ApplyChange(content, changes[0]), changes[1..])
  {
    if |changes| > 1 {
      ApplyChangesFirst(content, changes[..|changes| - 1]);
      assert changes[..|changes| - 1][1..] == changes[1..][..|changes| - 2];
    }
  }

  /** One didChange batch keeps the cached text equal to the client's lines joined. */
  lemma {:induction false} BatchKeepsReplica(lines: seq<string>, changes: seq<Change>)
    requires Lines(lines) && BatchAgrees(lines, changes)
    ensures Lines(ClientApplyAll(lines, changes))
    ensures Join(ClientApplyAll(lines, changes)) == ApplyChanges(Join(lines), changes)
    decreases |changes|
  {
    if changes != [] {
      ChangeAgrees(lines, changes[0]);
      ApplyChangesFirst(Join(lines), changes);
      BatchKeepsReplica(ClientApply(lines, changes[0]), changes[1..]);
    }
  }

  // ---------- whole sessions over many files ----------

  // What the client has open: the lines it shows, and the version it gave them.
  datatype ClientDocument = ClientDocument(version: int, lines: seq<string>)

  type Client = map<Uri, ClientDocument>

  ghost predicate ClientValid(client: Client) {
    forall u :: u in client ==> Lines(client[u].lines)
  }

  /** The client may send this request: it opens with lines, and edits agree with what it holds. */
  predicate Sendable(client: Client, request: Request) {
    match request
    case Open(document) => true
    case Edit(uri, version, changes) =>
      uri in client && client[uri].lines != [] && BatchAgrees(client[uri].lines, changes)
  }

  function ClientStep(client: Client, request: Request): Client
    requires Sendable(client, request)
  {
    match request
    case Open(document) => client[document.uri := ClientDocument(document.version, Split(document.text))]
    case Edit(uri, version, changes) =>
      client[uri := ClientDocument(version, ClientApplyAll(client[uri].lines, changes))]
  }

  ghost predicate Replica(files: map<Uri, TextDocument>, client: Client) {
    && ClientValid(client)
    && files.Keys == client.Keys
    && forall u :: u in client ==> files[u] == TextDocument(u, client[u].version, Join(client[u].lines))
  }

  lemma RequestKeepsReplica(files: map<Uri, TextDocument>, client: Client, request: Request)
    requires Replica(files, client) && Sendable(client, request)
    ensures Enabled(files, request)
    ensures Replica(Handle(files, request), ClientStep(client, request))
  {
    match request
    case Open(document) => SplitJoins(document.text);
    case Edit(uri, version, changes) => BatchKeepsReplica(client[uri].lines, changes);
  }

  lemma ReplicaReadBack(files: map<Uri, TextDocument>, client: Client)
    requires Replica(files, client)
    ensures forall u :: u in client ==> Split(files[u].text) == client[u].lines
  {
    forall u | u in client
      ensures Split(files[u].text) == client[u].lines
    {
      JoinSplits(client[u].lines);
    }
  }

  ghost predicate SessionSendable(client: Client, session: seq<Request>)
    decreases |session|
  {
    session == [] || (Sendable(client, session[0])
                      && SessionSendable(ClientStep(client, session[0]), session[1..]))
  }

  ghost function ClientAfter(client: Client, session: seq<Request>): Client
    requires SessionSendable(client, session)
    decreases |session|
  {
    if session == [] then client else ClientAfter(ClientStep(client, session[0]), session[1..])
  }

  ghost predicate AllEnabled(files: map<Uri, TextDocument>, session: seq<Request>)
    decreases |session|
  {
    session == [] || (Enabled(files, session[0]) && AllEnabled(Handle(files, session[0]), session[1..]))
  }

  function HandleAll(files: map<Uri, TextDocument>, session: seq<Request>): map<Uri, TextDocument>
    requires AllEnabled(files, session)
    decreases |session|
  {
    if session == [] then files else HandleAll(Handle(files, session[0]), session[1..])
  }

  /** Replica agreement: after any session, over any number of files, the server's cache holds for
      every open file exactly the client's lines joined with line breaks, under the client's version; so
      the client's lines can be read back from it. */
  lemma {:induction false} ReplicaAgreement(files: map<Uri, TextDocument>, client: Client, session: seq<Request>)
    requires Replica(files, client) && SessionSendable(client, session)
    ensures AllEnabled(files, session)
    ensures Replica(HandleAll(files, session), ClientAfter(client, session))
    ensures forall u :: u in ClientAfter(client, session) ==>
              Split(HandleAll(files, session)[u].text) == ClientAfter(client, session)[u].lines
    decreases |session|
  {
    ReplicaReadBack(files, client);
    if session != [] {
      RequestKeepsReplica(files, client, session[0]);
      ReplicaAgreement(Handle(files, session[0]), ClientStep(client, session[0]), session[1..]);
    }
  }

  function UriOf(request: Request): Uri {
    match request
    case Open(document) => document.uri
    case Edit(uri, _, _) => uri
  }

  function VersionOf(request: Request): int {
    match request
    case Open(document) => document.version
    case Edit(_, version, _) => version
  }

  lemma {:induction false} OthersUntouched(files: map<Uri, TextDocument>, session: seq<Request>, uri: Uri)
    requires AllEnabled(files, session) && uri in files
    requires forall k :: 0 <= k < |session| ==> UriOf(session[k]) != uri
    ensures uri in HandleAll(files, session) && HandleAll(files, session)[uri] == files[uri]
    decreases |session|
  {
    if session != [] {
      assert UriOf(session[0]) != uri;
      OthersUntouched(Handle(files, session[0]), session[1..], uri);
    }
  }

  /** After any session a file carries the version of the last request for it. */
  lemma {:induction false} LastVersionCached(files: map<Uri, TextDocument>, session: seq<Request>, k: nat)
    requires AllEnabled(files, session) && k < |session|
    requires forall j :: k < j < |session| ==> UriOf(session[j]) != UriOf(session[k])
    ensures UriOf(session[k]) in HandleAll(files, session)
    ensures var document := HandleAll(files, session)[UriOf(session[k])];
            document.uri == UriOf(session[k]) && document.version == VersionOf(session[k])
    decreases |session|
  {
    if k == 0 {
      OthersUntouched(Handle(files, session[0]), session[1..], UriOf(session[0]));
    } else {
      assert forall j :: k - 1 < j < |session[1..]| ==> session[1..][j] == session[j + 1];
      LastVersionCached(Handle(files, session[0]), session[1..], k - 1);
    }
  }

  /** A column past the end of a line is clamped to that line by the client but runs on into the
      next line on the server: the one way a single position is read differently. */
  lemma LongColumnDiverges()
    ensures var lines := ["ab", "cd"];
            var insert := Change(Position(0, 9), Position(0, 9), "X");
            && Join(ClientApply(lines, insert)) == "abX\ncd"
            && ApplyChange(Join(lines), insert) == "ab\ncdX"
  {
    var lines := ["ab", "cd"];
    assert Join(lines) == "ab\ncd";
    assert lines[0][..2] + "X" + lines[0][2..] == "abX";
    SplitPlain("abX");
    assert lines[..0] + ["abX"] + lines[1..] == ["abX", "cd"];
    assert Join(["abX", "cd"]) == "abX\ncd";
    assert "ab\ncd"[..5] + "X" + "ab\ncd"[5..] == "ab\ncdX";
  }
}
