// The cache of organisation contexts and its index by short name: ContextCache of pkg/utils/cache.go.
// Every method runs under the cache's mutex, so it is one atomic step.

module ContextIndex {

  // A context is compared by identity; its name never changes.
  class Context {
    const name: string
    var envVariables: seq<string>

    constructor (name: string, envVariables: seq<string>)
      ensures this.name == name && this.envVariables == envVariables
    {
      this.name, this.envVariables := name, envVariables;
    }
  }

  predicate Qualified(name: string) {
    '/' in name
  }

  /** The last segment of a path. */
  function Short(name: string): string {
    if !Qualified(name) then name else Short(name[1..])
  }

  // strings.LastIndex(s, "/")
  method LastSlash(s: string) returns (i: int)
    ensures -1 <= i < |s| && IsLastSlash(s, i)
    ensures i >= 0 <==> Qualified(s)
  {
    i := |s| - 1;
    while i >= 0 && s[i] != '/'
      invariant -1 <= i < |s|
      invariant forall k :: i < k < |s| ==> s[k] != '/'
    {
      i := i - 1;
    }
  }

  ghost predicate IsLastSlash(s: string, i: int)
    requires -1 <= i < |s|
  {
    (i >= 0 ==> s[i] == '/') && forall k :: i < k < |s| ==> s[k] != '/'
  }

  lemma {:induction false} CutIsShort(s: string, i: int)
    requires -1 <= i < |s| && IsLastSlash(s, i)
    ensures Short(s) == s[i + 1..]
  {
    if i >= 0 {
      assert '/' in s;
      CutIsShort(s[1..], i - 1);
    }
  }

  // The index of the last slash, and what follows it.
  method CutLast(s: string) returns (i: int, short: string)
    ensures (i >= 0 <==> Qualified(s)) && short == Short(s)
  {
    i := LastSlash(s);
    CutIsShort(s, i);
    short := s[i + 1..];
  }

  // ---------- one organisation's index ----------

  datatype OrgIndex = OrgIndex(contexts: map<string, Context>, ambiguous: set<string>)

  const EMPTY := OrgIndex(map[], {})

  function Insert(index: OrgIndex, ctx: Context): OrgIndex {
    var named := index.(contexts := index.contexts[ctx.name := ctx]);
    if Qualified(ctx.name) then IndexShort(named, ctx, Short(ctx.name)) else named
  }

  /** Also index a qualified context by its short name, unless that is ambiguous or becomes so. */
  function IndexShort(index: OrgIndex, ctx: Context, short: string): OrgIndex {
    if short == "" || short in index.ambiguous then index
    else if short in index.contexts then
      if index.contexts[short] != ctx then OrgIndex(index.contexts - {short}, index.ambiguous + {short})
      else index
    else index.(contexts := index.contexts[short := ctx])
  }

  function Remove(index: OrgIndex, name: string): OrgIndex {
    index.(contexts := index.contexts - {name})
  }

  function Lookup(index: OrgIndex, key: string): Context? {
    if key in index.contexts then index.contexts[key] else null
  }

  function Resolve(index: OrgIndex, slug: string, name: string): Context? {
    if Lookup(index, name) != null then Lookup(index, name)
    else if Qualified(name) && Short(name) != "" && Lookup(index, Short(name)) != null then
      Lookup(index, Short(name))
    else if slug != "" && !Qualified(name) then Lookup(index, slug + "/" + name)
    else null
  }

  // ---------- the cache ----------

  class ContextCache {
    var contextCache: map<string, map<string, Context>>
    var ambiguousShortNames: map<string, set<string>>
    var listLoadedOrgs: map<string, bool>

    /** The index of an organisation; one never seen has an empty one. */
    function Index(org: string): OrgIndex
      reads this
    {
      OrgIndex(if org in contextCache then contextCache[org] else map[],
               if org in ambiguousShortNames then ambiguousShortNames[org] else {})
    }

    constructor ()
      ensures forall org :: Index(org) == EMPTY
    {
      contextCache, ambiguousShortNames, listLoadedOrgs := map[], map[], map[];
    }

    method ClearContextCache()
      modifies this
      ensures forall org :: Index(org) == EMPTY
      ensures listLoadedOrgs == map[]
    {
      contextCache, ambiguousShortNames, listLoadedOrgs := map[], map[], map[];
    }

    method ClearOrganizationContextList(org: string)
      modifies this
      ensures Index(org) == EMPTY
      ensures forall o :: o != org ==> Index(o) == old(Index(o))
      ensures listLoadedOrgs == old(listLoadedOrgs) - {org}
    {
      contextCache := contextCache - {org};
      ambiguousShortNames := ambiguousShortNames - {org};
      listLoadedOrgs := listLoadedOrgs - {org};
    }

    method SetOrganizationContext(org: string, ctx: Context) returns (result: Context)
      modifies this
      ensures result == ctx
      ensures Index(org) == Insert(old(Index(org)), ctx)
      ensures forall o :: o != org ==> Index(o) == old(Index(o))
      ensures listLoadedOrgs == old(listLoadedOrgs)
    {
      if org !in contextCache {
        contextCache := contextCache[org := map[]];
      }
      SetKey(org, ctx.name, ctx);
      var i, short := CutLast(ctx.name);
      if i >= 0 {
        if short == "" {
          return ctx;
        }
        var ambiguous := IsAmbiguousShortName(org, short);
        if ambiguous {
          return ctx;
        }
        if short in contextCache[org] {
          if contextCache[org][short] != ctx {
            RemoveOrganizationContext(org, short);
            MarkAmbiguousShortName(org, short);
          }
          return ctx;
        }
        SetKey(org, short, ctx);
      }
      return ctx;
    }

    // orgMap[key] = ctx, for an organisation that has a map already.
    method SetKey(org: string, key: string, ctx: Context)
      requires org in contextCache
      modifies this`contextCache
      ensures contextCache == old(contextCache)[org := old(contextCache)[org][key := ctx]]
      ensures Index(org).contexts == old(Index(org)).contexts[key := ctx]
      ensures forall o :: o != org ==> Index(o) == old(Index(o))
    {
      contextCache := contextCache[org := contextCache[org][key := ctx]];
    }

    method IsAmbiguousShortName(org: string, short: string) returns (b: bool)
      ensures b == (short in Index(org).ambiguous)
    {
      if org !in ambiguousShortNames {
        return false;
      }
      return short in ambiguousShortNames[org];
    }

    method MarkAmbiguousShortName(org: string, short: string)
      modifies this`ambiguousShortNames
      ensures Index(org).ambiguous == old(Index(org)).ambiguous + {short}
      ensures forall o :: o != org ==> Index(o) == old(Index(o))
    {
      if org !in ambiguousShortNames {
        ambiguousShortNames := ambiguousShortNames[org := {}];
      }
      ambiguousShortNames := ambiguousShortNames[org := ambiguousShortNames[org] + {short}];
    }

    method GetOrganizationContext(org: string, name: string) returns (ctx: Context?)
      ensures ctx == Lookup(Index(org), name)
    {
      ctx := if org in contextCache && name in contextCache[org] then contextCache[org][name] else null;
    }

    method ResolveWorkflowContext(org: string, slug: string, name: string) returns (ctx: Context?)
      ensures ctx == Resolve(Index(org), slug, name)
    {
      if org !in contextCache {
        return null;
      }
      var contexts := contextCache[org];
      if name in contexts {
        return contexts[name];
      }
      var i, short := CutLast(name);
      if i >= 0 {
        if short != "" {
          if short in contexts {
            return contexts[short];
          }
        }
      }
      if slug != "" && i < 0 {
        if slug + "/" + name in contexts {
          return contexts[slug + "/" + name];
        }
      }
      return null;
    }

    // Changes the context in place: it is seen under every key that maps to it. The source
    // dereferences the entry, so the name must be a key.
    method AddEnvVariable(org: string, name: string, variable: string)
      requires name in Index(org).contexts
      modifies Index(org).contexts[name]
      ensures forall o :: Index(o) == old(Index(o))
      ensures var ctx := Index(org).contexts[name];
              ctx.envVariables == if variable in old(ctx.envVariables) then old(ctx.envVariables)
                                  else old(ctx.envVariables) + [variable]
    {
      var ctx := contextCache[org][name];
      if variable !in ctx.envVariables {
        ctx.envVariables := ctx.envVariables + [variable];
      }
    }

    // Neither the short key nor the ambiguity of a removed name is touched.
    method RemoveOrganizationContext(org: string, name: string)
      modifies this
      ensures Index(org) == Remove(old(Index(org)), name)
      ensures forall o :: o != org ==> Index(o) == old(Index(o))
      ensures listLoadedOrgs == old(listLoadedOrgs)
    {
      if org in contextCache {
        contextCache := contextCache[org := contextCache[org] - {name}];
      }
    }
  }

  // ---------- names ----------

  lemma {:induction false} ShortIsPlain(name: string)
    ensures !Qualified(Short(name)) && Short(Short(name)) == Short(name)
  {
    if Qualified(name) {
      ShortIsPlain(name[1..]);
    }
  }

  lemma {:induction false} ShortOfPrefixed(slug: string, name: string)
    requires !Qualified(name)
    ensures Short(slug + "/" + name) == name
  {
    var s := slug + "/" + name;
    assert s[|slug|] == '/';
    if slug == [] {
      assert s[1..] == name;
    } else {
      assert s[1..] == slug[1..] + "/" + name;
      ShortOfPrefixed(slug[1..], name);
    }
  }

  // ---------- what every operation keeps ----------

  /** A key maps to a context of that exact name, or it is the short name of a qualified one; an
      ambiguous short name maps to nothing but a context of that exact name. */
  ghost predicate Sound(index: OrgIndex) {
    && (forall k :: k in index.contexts ==>
          index.contexts[k].name == k || (!Qualified(k) && Short(index.contexts[k].name) == k))
    && (forall s :: s in index.ambiguous && s in index.contexts ==> index.contexts[s].name == s)
  }

  datatype Operation = Set(ctx: Context) | Delete(name: string) | Clear

  function Apply(index: OrgIndex, op: Operation): OrgIndex {
    match op
    case Set(ctx) => Insert(index, ctx)
    case Delete(name) => Remove(index, name)
    case Clear => EMPTY
  }

  function ApplyAll(index: OrgIndex, ops: seq<Operation>): OrgIndex {
    if ops == [] then index else Apply(ApplyAll(index, ops[..|ops| - 1]), ops[|ops| - 1])
  }

  lemma InsertKeepsSound(index: OrgIndex, ctx: Context)
    requires Sound(index)
    ensures Sound(Insert(index, ctx))
  {
    ShortIsPlain(ctx.name);
    var named := index.(contexts := index.contexts[ctx.name := ctx]);
    assert Sound(named);
  }

  lemma {:induction false} OperationsKeepSound(ops: seq<Operation>)
    ensures Sound(ApplyAll(EMPTY, ops))
  {
    if ops != [] {
      OperationsKeepSound(ops[..|ops| - 1]);
      var op := ops[|ops| - 1];
      if op.Set? {
        InsertKeepsSound(ApplyAll(EMPTY, ops[..|ops| - 1]), op.ctx);
      }
    }
  }

  /** Whatever has been set, removed and cleared, a reference only ever resolves to a context whose
      last path segment is that of the reference. */
  lemma ResolutionSound(ops: seq<Operation>, slug: string, name: string)
    ensures var ctx := Resolve(ApplyAll(EMPTY, ops), slug, name);
            ctx != null ==> Short(ctx.name) == Short(name)
  {
    OperationsKeepSound(ops);
    ShortIsPlain(name);
    if !Qualified(name) {
      ShortOfPrefixed(slug, name);
    }
    var index := ApplyAll(EMPTY, ops);
    forall k | k in index.contexts
      ensures Short(index.contexts[k].name) == Short(k)
    {
      ShortIsPlain(k);
    }
  }

  // ---------- runs of inserts ----------

  function InsertAll(index: OrgIndex, run: seq<Context>): OrgIndex {
    if run == [] then index else Insert(InsertAll(index, run[..|run| - 1]), run[|run| - 1])
  }

  /** The contexts of the run whose last segment is s. */
  function Holders(run: seq<Context>, s: string): set<Context> {
    set c | c in run && Short(c.name) == s
  }

  ghost predicate AllQualified(run: seq<Context>) {
    forall c :: c in run ==> Qualified(c.name)
  }

  lemma HoldersAppend(run: seq<Context>, c: Context, s: string)
    ensures Holders(run + [c], s) == Holders(run, s) + if Short(c.name) == s then {c} else {}
  {
  }

  /** What the inserted contexts that carry a short name should make of it. */
  ghost predicate ShortExact(index: OrgIndex, s: string, holders: set<Context>) {
    && (s in index.contexts <==> |holders| == 1)
    && (s in index.contexts ==> holders == {index.contexts[s]})
    && (s in index.ambiguous <==> |holders| >= 2)
  }

  lemma IndexShortExact(index: OrgIndex, ctx: Context, s: string, holders: set<Context>)
    requires ShortExact(index, s, holders) && s != ""
    ensures ShortExact(IndexShort(index, ctx, s), s, holders + {ctx})
  {
    if ctx in holders {
      assert holders + {ctx} == holders;
    } else {
      assert |holders + {ctx}| == |holders| + 1;
      if |holders| == 0 {
        assert holders + {ctx} == {ctx};
      }
    }
    if |holders| == 1 && ctx in holders {
      assert holders == {index.contexts[s]};
    }
  }

  lemma InsertExact(index: OrgIndex, ctx: Context, s: string, holders: set<Context>)
    requires ShortExact(index, s, holders) && s != "" && !Qualified(s) && Qualified(ctx.name)
    ensures ShortExact(Insert(index, ctx), s, holders + if Short(ctx.name) == s then {ctx} else {})
  {
    var named := index.(contexts := index.contexts[ctx.name := ctx]);
    assert ctx.name != s;
    assert ShortExact(named, s, holders);
    if Short(ctx.name) == s {
      IndexShortExact(named, ctx, s, holders);
    } else {
      assert holders + {} == holders;
    }
  }

  /** Exactness: over any run of qualified contexts, in any order and with repetitions, a short name
      is indexed exactly when one context carries it, then it maps to that context, and it is
      ambiguous exactly when two or more do. */
  lemma {:induction false} ShortNamesExact(run: seq<Context>, s: string)
    requires AllQualified(run) && s != "" && !Qualified(s)
    ensures ShortExact(InsertAll(EMPTY, run), s, Holders(run, s))
  {
    if run == [] {
      assert Holders(run, s) == {};
    } else {
      var shorter, c := run[..|run| - 1], run[|run| - 1];
      assert run == shorter + [c];
      ShortNamesExact(shorter, s);
      HoldersAppend(shorter, c, s);
      InsertExact(InsertAll(EMPTY, shorter), c, s, Holders(shorter, s));
    }
  }

  lemma InsertQualified(index: OrgIndex, ctx: Context, name: string)
    requires Qualified(ctx.name) && Qualified(name)
    ensures Lookup(Insert(index, ctx), name) == if ctx.name == name then ctx else Lookup(index, name)
  {
    ShortIsPlain(ctx.name);
  }

  /** Every qualified name maps to the context of that exact name that was inserted last. */
  lemma {:induction false} QualifiedNamesExact(run: seq<Context>, name: string, k: nat)
    requires AllQualified(run) && Qualified(name)
    requires k < |run| && run[k].name == name && forall j :: k < j < |run| ==> run[j].name != name
    ensures Lookup(InsertAll(EMPTY, run), name) == run[k]
  {
    var shorter, c := run[..|run| - 1], run[|run| - 1];
    assert c in run;
    InsertQualified(InsertAll(EMPTY, shorter), c, name);
    if k < |run| - 1 {
      assert shorter[k] == run[k];
      QualifiedNamesExact(shorter, name, k);
    }
  }

  /** The order of the inserts does not matter for short names. */
  lemma OrderDoesNotMatter(run: seq<Context>, other: seq<Context>, s: string)
    requires AllQualified(run) && AllQualified(other) && s != "" && !Qualified(s)
    requires forall c :: c in run <==> c in other
    ensures Lookup(InsertAll(EMPTY, run), s) == Lookup(InsertAll(EMPTY, other), s)
    ensures s in InsertAll(EMPTY, run).ambiguous <==> s in InsertAll(EMPTY, other).ambiguous
  {
    assert Holders(run, s) == Holders(other, s);
    ShortNamesExact(run, s);
    ShortNamesExact(other, s);
  }

  // ---------- where the index is weaker than its keys suggest ----------

  lemma InsertBesidePlain(index: OrgIndex, plain: Context, ctx: Context)
    requires !Qualified(plain.name) && Qualified(ctx.name)
    ensures var hit := plain.name != "" && Short(ctx.name) == plain.name;
            var index' := Insert(index, ctx);
            && (Lookup(index, plain.name) == plain ==>
                  (Lookup(index', plain.name) == plain <==> !hit || plain.name in index.ambiguous))
            && (Lookup(index, plain.name) != plain ==> Lookup(index', plain.name) != plain)
            && (plain.name in index.ambiguous ==> plain.name in index'.ambiguous)
            && (Lookup(index, plain.name) == plain && plain.name !in index.ambiguous ==>
                  (plain.name in index'.ambiguous <==> hit))
            && (!hit ==> (plain.name in index'.ambiguous <==> plain.name in index.ambiguous))
  {
    ShortIsPlain(ctx.name);
  }

  /** A context with a plain name is still found under it after later qualified contexts exactly when
      none of them carries that short name, or the short name was ambiguous before. */
  lemma {:induction false} PlainContextKept(index: OrgIndex, plain: Context, run: seq<Context>)
    requires !Qualified(plain.name) && AllQualified(run)
    ensures var index' := InsertAll(Insert(index, plain), run);
            && (Lookup(index', plain.name) == plain
                <==> plain.name == "" || plain.name in index.ambiguous || Holders(run, plain.name) == {})
            && (plain.name in index'.ambiguous
                <==> plain.name in index.ambiguous || (plain.name != "" && Holders(run, plain.name) != {}))
  {
    if run == [] {
      assert Holders(run, plain.name) == {};
    } else {
      var shorter, c := run[..|run| - 1], run[|run| - 1];
      assert run == shorter + [c];
      PlainContextKept(index, plain, shorter);
      HoldersAppend(shorter, c, plain.name);
      InsertBesidePlain(InsertAll(Insert(index, plain), shorter), plain, c);
    }
  }

  lemma WithoutExactKey(index: OrgIndex, slug: string, name: string)
    requires Qualified(name) && name !in index.contexts
    ensures Resolve(index, slug, name) == if Short(name) == "" then null else Lookup(index, Short(name))
  {
    ShortIsPlain(name);
  }

  /** Only qualified names are set and removed. */
  ghost predicate QualifiedOnly(ops: seq<Operation>) {
    forall k :: 0 <= k < |ops| ==>
      (ops[k].Set? && Qualified(ops[k].ctx.name)) || (ops[k].Delete? && Qualified(ops[k].name))
  }

  /** The contexts with this last segment that were ever set, removed again or not. */
  ghost function EverSet(ops: seq<Operation>, s: string): set<Context> {
    set k | 0 <= k < |ops| && ops[k].Set? && Short(ops[k].ctx.name) == s :: ops[k].ctx
  }

  lemma EverSetAppend(ops: seq<Operation>, op: Operation, s: string)
    ensures EverSet(ops + [op], s)
            == EverSet(ops, s) + if op.Set? && Short(op.ctx.name) == s then {op.ctx} else {}
  {
    var longer := ops + [op];
    assert longer[|ops|] == op;
    assert forall k :: 0 <= k < |ops| ==> longer[k] == ops[k];
    forall c
      ensures c in EverSet(ops, s) ==> c in EverSet(longer, s)
    {
      if c in EverSet(ops, s) {
        var k :| 0 <= k < |ops| && ops[k].Set? && Short(ops[k].ctx.name) == s && ops[k].ctx == c;
        assert longer[k].ctx == c;
      }
    }
  }

  /** Removed contexts go on counting: a short name is indexed exactly when one context that carries it
      was ever set, and ambiguous exactly when two or more were. */
  lemma {:induction false} ShortNamesOutliveRemoval(ops: seq<Operation>, s: string)
    requires QualifiedOnly(ops) && s != "" && !Qualified(s)
    ensures ShortExact(ApplyAll(EMPTY, ops), s, EverSet(ops, s))
  {
    if ops == [] {
      assert EverSet(ops, s) == {};
    } else {
      var shorter, op := ops[..|ops| - 1], ops[|ops| - 1];
      assert ops == shorter + [op];
      ShortNamesOutliveRemoval(shorter, s);
      EverSetAppend(shorter, op, s);
      if op.Set? {
        InsertExact(ApplyAll(EMPTY, shorter), op.ctx, s, EverSet(shorter, s));
      } else {
        assert EverSet(ops, s) == EverSet(shorter, s);
      }
    }
  }

  /** After any such operations, a qualified name that is not set, because it was removed or never set,
      resolves exactly when one context with its last segment was ever set, and then to that one. */
  lemma RemovedStillResolves(ops: seq<Operation>, slug: string, name: string)
    requires QualifiedOnly(ops) && Qualified(name) && name !in ApplyAll(EMPTY, ops).contexts
    ensures var ctx, holders := Resolve(ApplyAll(EMPTY, ops), slug, name), EverSet(ops, Short(name));
            && (ctx != null <==> Short(name) != "" && |holders| == 1)
            && (ctx != null ==> holders == {ctx})
  {
    ShortIsPlain(name);
    WithoutExactKey(ApplyAll(EMPTY, ops), slug, name);
    if Short(name) != "" {
      ShortNamesOutliveRemoval(ops, Short(name));
    }
  }

  /** So removing the only context with its last segment changes nothing about how its name resolves. */
  lemma OnlyContextOutlivesRemoval(ops: seq<Operation>, slug: string, ctx: Context)
    requires QualifiedOnly(ops) && Qualified(ctx.name) && Short(ctx.name) != ""
    requires EverSet(ops, Short(ctx.name)) == {ctx}
    ensures Resolve(ApplyAll(EMPTY, ops + [Delete(ctx.name)]), slug, ctx.name) == ctx
  {
    var longer := ops + [Delete(ctx.name)];
    assert longer[..|longer| - 1] == ops;
    EverSetAppend(ops, Delete(ctx.name), Short(ctx.name));
    assert EverSet(longer, Short(ctx.name)) == {ctx};
    RemovedStillResolves(longer, slug, ctx.name);
  }

  /** The shortest such run: a context is set and removed, and still found. */
  lemma SetRemovedFound(ctx: Context, slug: string)
    requires Qualified(ctx.name) && Short(ctx.name) != ""
    ensures Resolve(Remove(Insert(EMPTY, ctx), ctx.name), slug, ctx.name) == ctx
  {
    var ops := [Set(ctx)];
    assert ops == [] + [Set(ctx)];
    assert ApplyAll(EMPTY, ops) == Insert(EMPTY, ctx) by { assert ops[..0] == []; }
    EverSetAppend([], Set(ctx), Short(ctx.name));
    assert EverSet([], Short(ctx.name)) == {};
    OnlyContextOutlivesRemoval(ops, slug, ctx);
    var longer := ops + [Delete(ctx.name)];
    assert longer[..1] == ops;
  }

  // ---------- what a reference resolves to ----------

  /** Setting a context touches no keys but its name and its last segment. */
  lemma InsertKeepsOthers(index: OrgIndex, ctx: Context, key: string)
    requires key != ctx.name && key != Short(ctx.name)
    ensures Lookup(Insert(index, ctx), key) == Lookup(index, key)
    ensures key in Insert(index, ctx).ambiguous <==> key in index.ambiguous
  {
  }

  lemma RemoveKeepsOthers(index: OrgIndex, name: string, key: string)
    ensures Lookup(Remove(index, name), key) == if key == name then null else Lookup(index, key)
    ensures Remove(index, name).ambiguous == index.ambiguous
  {
  }

  /** The operation decides what the name maps to. */
  predicate Decides(op: Operation, name: string) {
    match op
    case Set(ctx) => ctx.name == name
    case Delete(n) => n == name
    case Clear => true
  }

  /** The last operation that decides about the name sets this context, or is none or removes the name. */
  ghost predicate LastSet(ops: seq<Operation>, name: string, ctx: Context?) {
    if ctx == null then forall k :: 0 <= k < |ops| && ops[k].Set? && ops[k].ctx.name == name ==> Undone(ops, name, k)
    else exists k :: 0 <= k < |ops| && ops[k] == Set(ctx) && ctx.name == name && DecidedAt(ops, name, k)
  }

  ghost predicate DecidedAt(ops: seq<Operation>, name: string, k: int) {
    forall j :: 0 <= j < |ops| && k < j ==> !Decides(ops[j], name)
  }

  ghost predicate Undone(ops: seq<Operation>, name: string, k: int) {
    exists j :: 0 <= j < |ops| && k < j && !ops[j].Set? && Decides(ops[j], name) && DecidedAt(ops, name, j)
  }

  lemma ApplyQualified(index: OrgIndex, op: Operation, name: string)
    requires Qualified(name)
    ensures Lookup(Apply(index, op), name)
            == if !Decides(op, name) then Lookup(index, name) else if op.Set? then op.ctx else null
  {
    if op.Set? {
      ShortIsPlain(op.ctx.name);
    }
  }

  lemma DecidedAppend(ops: seq<Operation>, op: Operation, name: string, k: int)
    requires k < |ops|
    ensures DecidedAt(ops + [op], name, k) <==> DecidedAt(ops, name, k) && !Decides(op, name)
  {
    var longer := ops + [op];
    assert longer[|ops|] == op;
    assert forall j :: 0 <= j < |ops| ==> longer[j] == ops[j];
  }

  lemma LastSetAppend(ops: seq<Operation>, op: Operation, name: string, ctx: Context?)
    requires LastSet(ops, name, ctx)
    ensures LastSet(ops + [op], name, if !Decides(op, name) then ctx else if op.Set? then op.ctx else null)
  {
    var longer := ops + [op];
    assert longer[|ops|] == op;
    assert forall j :: 0 <= j < |ops| ==> longer[j] == ops[j];
    if Decides(op, name) {
      assert DecidedAt(longer, name, |ops|);
    } else if ctx != null {
      var k :| 0 <= k < |ops| && ops[k] == Set(ctx) && DecidedAt(ops, name, k);
      DecidedAppend(ops, op, name, k);
      assert longer[k] == Set(ctx);
    } else {
      forall k | 0 <= k < |longer| && longer[k].Set? && longer[k].ctx.name == name
        ensures Undone(longer, name, k)
      {
        assert Undone(ops, name, k);
        var j :| 0 <= j < |ops| && k < j && !ops[j].Set? && Decides(ops[j], name) && DecidedAt(ops, name, j);
        DecidedAppend(ops, op, name, j);
        assert longer[j] == ops[j];
      }
    }
  }

  /** After any operations a qualified name maps to the context last set under it, unless that was removed
      or cleared since. */
  lemma {:induction false} QualifiedKeyIsLastSet(ops: seq<Operation>, name: string)
    requires Qualified(name)
    ensures LastSet(ops, name, Lookup(ApplyAll(EMPTY, ops), name))
  {
    if ops != [] {
      var shorter, op := ops[..|ops| - 1], ops[|ops| - 1];
      QualifiedKeyIsLastSet(shorter, name);
      ApplyQualified(ApplyAll(EMPTY, shorter), op, name);
      LastSetAppend(shorter, op, name, Lookup(ApplyAll(EMPTY, shorter), name));
      assert ops == shorter + [op];
    }
  }

  lemma LastSetUnique(ops: seq<Operation>, name: string, a: Context?, b: Context?)
    requires LastSet(ops, name, a) && LastSet(ops, name, b)
    ensures a == b
  {
    if a != null {
      var k :| 0 <= k < |ops| && ops[k] == Set(a) && a.name == name && DecidedAt(ops, name, k);
      assert b == null ==> Undone(ops, name, k);
    }
  }

  /** The one context with this last segment that was ever set, or none. */
  ghost predicate OnlyHolder(ops: seq<Operation>, s: string, ctx: Context?) {
    if s != "" && |EverSet(ops, s)| == 1 then ctx != null && EverSet(ops, s) == {ctx} else ctx == null
  }

  /** What a reference stands for: a qualified one for the context set under exactly that name, otherwise
      for the only one that ever had its last segment; a plain one for the only one that ever had it as
      its last segment, otherwise for the one set under the organisation's slug and that name. */
  ghost predicate StandsFor(ops: seq<Operation>, slug: string, name: string, ctx: Context?) {
    if Qualified(name) then
      (ctx != null && LastSet(ops, name, ctx)) || (LastSet(ops, name, null) && OnlyHolder(ops, Short(name), ctx))
    else
      || (ctx != null && OnlyHolder(ops, name, ctx))
      || (OnlyHolder(ops, name, null)
          && if slug != "" then LastSet(ops, slug + "/" + name, ctx) else ctx == null)
  }

  lemma {:induction false} NoEmptyKey(ops: seq<Operation>)
    requires QualifiedOnly(ops)
    ensures "" !in ApplyAll(EMPTY, ops).contexts
  {
    if ops != [] {
      var shorter := ops[..|ops| - 1];
      assert forall k :: 0 <= k < |shorter| ==> shorter[k] == ops[k];
      NoEmptyKey(shorter);
      assert Qualified("") == false;
    }
  }

  lemma ShortKeyIsOnlyHolder(ops: seq<Operation>, s: string)
    requires QualifiedOnly(ops) && !Qualified(s)
    ensures OnlyHolder(ops, s, Lookup(ApplyAll(EMPTY, ops), s))
  {
    if s == "" {
      NoEmptyKey(ops);
    } else {
      ShortNamesOutliveRemoval(ops, s);
    }
  }

  /** Whatever qualified contexts have been set and removed, in any order, a reference resolves to exactly
      what it stands for, and to none when it stands for none. */
  lemma ResolveExact(ops: seq<Operation>, slug: string, name: string)
    requires QualifiedOnly(ops)
    ensures StandsFor(ops, slug, name, Resolve(ApplyAll(EMPTY, ops), slug, name))
  {
    var index := ApplyAll(EMPTY, ops);
    if Qualified(name) {
      ShortIsPlain(name);
      QualifiedKeyIsLastSet(ops, name);
      ShortKeyIsOnlyHolder(ops, Short(name));
    } else {
      ShortKeyIsOnlyHolder(ops, name);
      if slug != "" {
        PrefixedIsQualified(slug, name);
        QualifiedKeyIsLastSet(ops, slug + "/" + name);
      }
    }
  }

  lemma PrefixedIsQualified(slug: string, name: string)
    ensures Qualified(slug + "/" + name)
  {
    assert (slug + "/" + name)[|slug|] == '/';
  }

  /** A reference stands for one context at most. */
  lemma StandsForOne(ops: seq<Operation>, slug: string, name: string, a: Context?, b: Context?)
    requires StandsFor(ops, slug, name, a) && StandsFor(ops, slug, name, b)
    ensures a == b
  {
    if Qualified(name) {
      if LastSet(ops, name, a) && a != null {
        LastSetUnique(ops, name, a, if LastSet(ops, name, b) then b else null);
      } else if LastSet(ops, name, b) && b != null {
        LastSetUnique(ops, name, b, null);
      }
    } else if slug != "" && LastSet(ops, slug + "/" + name, a) && LastSet(ops, slug + "/" + name, b) {
      LastSetUnique(ops, slug + "/" + name, a, b);
    }
  }

  /** Whatever the index holds, an entry under exactly the name referred to comes first. */
  lemma ExactKeyFirst(index: OrgIndex, slug: string, name: string)
    ensures name in index.contexts ==> Resolve(index, slug, name) == index.contexts[name]
    ensures name !in index.contexts && !Qualified(name) && slug != "" ==>
              Resolve(index, slug, name) == Lookup(index, slug + "/" + name)
  {
  }
}
