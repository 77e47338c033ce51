// Iterating over a YAML mapping whose merge keys (`<<: *alias`) pull in the entries of anchored
// mappings: iterateOnBlockMapping and extractMergeAnchorNames of pkg/parser/utils.go.
//
// The callback is modelled by the sequence of children it is called with. The anchors named by merge
// keys sit in a Go map, so they are visited in an arbitrary order at every level.

module MergeKeys {
  import opened Common

  type Key = string
  type Name = string

  datatype Value = Absent | Alias(name: Name) | FlowSequence(items: seq<Value>) | Other(text: string)

  datatype Entry = Comment | Pair(key: Key, value: Value)

  type Mapping = seq<Entry>

  // An anchor that does not stand on a mapping has no entries to merge: the empty mapping.
  type Anchors = map<Name, Mapping>

  datatype Child = Child(key: Key, value: Value)

  const MERGE: Key := "<<"

  // ---------- one mapping ----------

  /** The anchors a merge value names, in order. */
  function AnchorNames(value: Value): seq<Name> {
    match value
    case Alias(name) => [name]
    case FlowSequence(items) => ItemNames(items)
    case _ => []
  }

  function ItemNames(items: seq<Value>): seq<Name> {
    if items == [] then [] else ItemNames(items[..|items| - 1]) + AnchorNames(items[|items| - 1])
  }

  predicate Mentions(value: Value, name: Name) {
    match value
    case Alias(n) => n == name
    case FlowSequence(items) => exists k :: 0 <= k < |items| && Mentions(items[k], name)
    case _ => false
  }

  /** The names extracted are those of all aliases in the value, however deeply listed. */
  lemma {:induction false} NamesAreAliases(value: Value, name: Name)
    ensures name in AnchorNames(value) <==> Mentions(value, name)
  {
    if value.FlowSequence? {
      forall k | 0 <= k < |value.items|
        ensures name in AnchorNames(value.items[k]) <==> Mentions(value.items[k], name)
      {
        NamesAreAliases(value.items[k], name);
      }
      NamesOfItems(value.items, name);
    }
  }

  lemma {:induction false} NamesOfItems(items: seq<Value>, name: Name)
    ensures name in ItemNames(items) <==> exists k :: 0 <= k < |items| && name in AnchorNames(items[k])
  {
    if items != [] {
      var shorter, last := items[..|items| - 1], items[|items| - 1];
      NamesOfItems(shorter, name);
      if name in ItemNames(shorter) {
        var k :| 0 <= k < |shorter| && name in AnchorNames(shorter[k]);
        assert items[k] == shorter[k];
      } else {
        assert forall k :: 0 <= k < |shorter| ==> items[k] == shorter[k];
        assert name in AnchorNames(last) ==> name in AnchorNames(items[|items| - 1]);
      }
    }
  }

  method ExtractMergeAnchorNames(value: Value) returns (names: seq<Name>)
    ensures names == AnchorNames(value)
  {
    match value
    case Absent => return [];
    case Alias(name) => return [name];
    case Other(text) => return [];
    case FlowSequence(items) =>
      names := [];
      for i := 0 to |items|
        invariant names == ItemNames(items[..i])
      {
        var more := ExtractMergeAnchorNames(items[i]);
        names := names + more;
        assert items[..i + 1][..i] == items[..i];
      }
      assert items[..|items|] == items;
  }

  /** Lists are read from left to right. */
  lemma {:induction false} NamesInOrder(a: seq<Value>, b: seq<Value>, value: Value)
    ensures AnchorNames(FlowSequence(a + b)) == AnchorNames(FlowSequence(a)) + AnchorNames(FlowSequence(b))
    ensures AnchorNames(FlowSequence([value])) == AnchorNames(value)
    ensures value.Alias? ==> AnchorNames(value) == [value.name]
    decreases |b|
  {
    assert [value][..0] == [];
    if b == [] {
      assert a + b == a;
    } else {
      assert (a + b)[..|a + b| - 1] == a + b[..|b| - 1];
      NamesInOrder(a, b[..|b| - 1], value);
    }
  }

  /** Entry k of the mapping is one of its own. */
  predicate OwnEntry(m: Mapping, k: int) {
    0 <= k < |m| && m[k].Pair? && m[k].key != MERGE
  }

  /** The mapping merges the anchor: an alias of it occurs, at any depth of listing, in the value of one of
      its merge keys. */
  ghost predicate MergesAnchor(m: Mapping, name: Name) {
    exists k :: MergesAt(m, name, k)
  }

  predicate MergesAt(m: Mapping, name: Name, k: int) {
    0 <= k < |m| && m[k].Pair? && m[k].key == MERGE && Mentions(m[k].value, name)
  }

  /** The entries a mapping defines itself, in order. */
  function Own(m: Mapping): seq<Child> {
    if m == [] then []
    else
      var last := m[|m| - 1];
      Own(m[..|m| - 1]) + if last.Pair? && last.key != MERGE then [Child(last.key, last.value)] else []
  }

  /** The anchors it merges. */
  function Merges(m: Mapping): set<Name> {
    if m == [] then {}
    else
      var last := m[|m| - 1];
      Merges(m[..|m| - 1])
      + if last.Pair? && last.key == MERGE then (set n | n in AnchorNames(last.value)) else {}
  }

  predicate OwnAt(m: Mapping, k: int, child: Child) {
    OwnEntry(m, k) && m[k] == Pair(child.key, child.value)
  }

  /** Every own entry comes up exactly once, in the order of the mapping, with its key and value, and
      nothing else does. */
  lemma {:induction false} OwnAreEntries(m: Mapping) returns (at: seq<nat>)
    ensures Ascends(at) && |at| == |Own(m)|
    ensures forall i :: 0 <= i < |at| ==> OwnAt(m, at[i], Own(m)[i])
    ensures forall k :: OwnEntry(m, k) ==> k in at
  {
    if m == [] {
      at := [];
    } else {
      var shorter := m[..|m| - 1];
      at := OwnAreEntries(shorter);
      assert forall k :: 0 <= k < |shorter| ==> m[k] == shorter[k];
      assert forall i :: 0 <= i < |at| ==> OwnAt(shorter, at[i], Own(shorter)[i]);
      forall k | OwnEntry(m, k) && k < |shorter|
        ensures k in at
      {
        assert OwnEntry(shorter, k);
      }
      if OwnEntry(m, |m| - 1) {
        at := at + [|m| - 1];
      }
    }
  }

  /** Exactly the anchors mentioned by merge keys are merged. */
  lemma {:induction false} MergesAreMentioned(m: Mapping, name: Name)
    ensures name in Merges(m) <==> MergesAnchor(m, name)
  {
    if m != [] {
      var shorter, last := m[..|m| - 1], m[|m| - 1];
      MergesAreMentioned(shorter, name);
      assert forall k :: 0 <= k < |shorter| ==> m[k] == shorter[k];
      if last.Pair? && last.key == MERGE {
        NamesAreAliases(last.value, name);
        assert MergesAt(m, name, |m| - 1) <==> Mentions(last.value, name);
      }
      if k :| MergesAt(shorter, name, k) {
        assert MergesAt(m, name, k);
      }
      if k :| MergesAt(m, name, k) {
        assert k < |shorter| ==> MergesAt(shorter, name, k);
      }
    }
  }

  lemma MergesExact(m: Mapping)
    ensures forall n :: n in Merges(m) <==> MergesAnchor(m, n)
  {
    forall n
      ensures n in Merges(m) <==> MergesAnchor(m, n)
    {
      MergesAreMentioned(m, n);
    }
  }

  function Keys(calls: seq<Child>): set<Key> {
    set k | 0 <= k < |calls| :: calls[k].key
  }

  predicate Defines(m: Mapping, key: Key) {
    key in Keys(Own(m))
  }

  // ---------- executions ----------

  /** One execution: the order in which the merged anchors came up, and the executions of the
      recursive calls made before the first unknown anchor ended the iteration. */
  datatype Execution = Execution(order: seq<Name>, subs: seq<Execution>)

  function KnownPrefix(anchors: Anchors, order: seq<Name>): (n: nat)
    ensures n <= |order| && forall k :: 0 <= k < n ==> order[k] in anchors
    ensures n < |order| ==> order[n] !in anchors
  {
    if order == [] || order[0] !in anchors then 0 else 1 + KnownPrefix(anchors, order[1..])
  }

  /** The execution is one the source may go through on mapping m. */
  ghost predicate Valid(anchors: Anchors, m: Mapping, x: Execution)
    decreases x, 1
  {
    && Distinct(x.order)
    && (forall n :: n in x.order <==> n in Merges(m))
    && |x.subs| == KnownPrefix(anchors, x.order)
    && Ran(anchors, x)
  }

  /** Its recursive calls are executions on the mappings of the anchors they stand for. */
  ghost predicate Ran(anchors: Anchors, x: Execution)
    decreases x, 0
  {
    && |x.subs| <= |x.order|
    && forall k :: 0 <= k < |x.subs| ==>
         x.order[k] in anchors && Valid(anchors, anchors[x.order[k]], x.subs[k])
  }

  /** The depth of the recursion. */
  function Height(x: Execution): (h: nat)
    ensures h >= 1
  {
    1 + MaxHeight(x.subs)
  }

  function MaxHeight(xs: seq<Execution>): nat {
    if xs == [] then 0
    else
      var a, b := Height(xs[|xs| - 1]), MaxHeight(xs[..|xs| - 1]);
      if a > b then a else b
  }

  /** What the inner callback does: skip a key that was mapped already, else pass the child on. */
  function Offer(calls: seq<Child>, child: Child): seq<Child> {
    if child.key in Keys(calls) then calls else calls + [child]
  }

  function OfferAll(calls: seq<Child>, children: seq<Child>): seq<Child> {
    if children == [] then calls
    else Offer(OfferAll(calls, children[..|children| - 1]), children[|children| - 1])
  }

  /** The children the callback has been called with after the first n anchors. */
  ghost function CallsAfter(anchors: Anchors, m: Mapping, x: Execution, n: nat): seq<Child>
    requires Ran(anchors, x) && n <= |x.subs|
    decreases x, n
  {
    if n == 0 then Own(m)
    else
      var sub := x.subs[n - 1];
      assert Valid(anchors, anchors[x.order[n - 1]], sub);
      var children := CallsAfter(anchors, anchors[x.order[n - 1]], sub, |sub.subs|);
      OfferAll(CallsAfter(anchors, m, x, n - 1), children)
  }

  ghost function Calls(anchors: Anchors, m: Mapping, x: Execution): seq<Child>
    requires Ran(anchors, x)
  {
    CallsAfter(anchors, m, x, |x.subs|)
  }

  // ---------- chains of merges ----------

  /** m merges p[0], whose mapping merges p[1], and so on; all of them known. */
  ghost predicate Chain(anchors: Anchors, m: Mapping, p: seq<Name>)
    decreases |p|
  {
    p == [] || (MergesAnchor(m, p[0]) && p[0] in anchors && Chain(anchors, anchors[p[0]], p[1..]))
  }

  ghost function End(anchors: Anchors, m: Mapping, p: seq<Name>): Mapping
    requires Chain(anchors, m, p)
    decreases |p|
  {
    if p == [] then m else End(anchors, anchors[p[0]], p[1..])
  }

  /** No chain of merges that starts at m comes back to an anchor. */
  ghost predicate LoopFree(anchors: Anchors, m: Mapping) {
    forall p :: Chain(anchors, m, p) ==> Distinct(p)
  }

  /** No chain of merges that starts at m meets an unknown anchor. */
  ghost predicate AllKnown(anchors: Anchors, m: Mapping) {
    forall p :: Chain(anchors, m, p) ==> Merges(End(anchors, m, p)) <= anchors.Keys
  }

  lemma {:induction false} ChainAppend(anchors: Anchors, m: Mapping, p: seq<Name>, q: seq<Name>)
    requires Chain(anchors, m, p) && Chain(anchors, End(anchors, m, p), q)
    ensures Chain(anchors, m, p + q)
    ensures End(anchors, m, p + q) == End(anchors, End(anchors, m, p), q)
    decreases |p|
  {
    if p == [] {
      assert p + q == q;
    } else {
      assert (p + q)[1..] == p[1..] + q;
      ChainAppend(anchors, anchors[p[0]], p[1..], q);
    }
  }

  lemma {:induction false} ChainNames(anchors: Anchors, m: Mapping, p: seq<Name>)
    requires Chain(anchors, m, p)
    ensures forall k :: 0 <= k < |p| ==> p[k] in anchors
    decreases |p|
  {
    if p != [] {
      ChainNames(anchors, anchors[p[0]], p[1..]);
    }
  }

  // A loop-free chain is never longer than the number of anchors: the ranking of the recursion.
  lemma ChainFits(anchors: Anchors, root: Mapping, path: seq<Name>)
    requires LoopFree(anchors, root) && Chain(anchors, root, path)
    ensures |path| <= |anchors|
  {
    ChainNames(anchors, root, path);
    DistinctFits(path, anchors.Keys);
  }

  lemma ChainExtends(anchors: Anchors, root: Mapping, path: seq<Name>, name: Name)
    requires Chain(anchors, root, path)
    requires name in Merges(End(anchors, root, path)) && name in anchors
    ensures Chain(anchors, root, path + [name])
    ensures End(anchors, root, path + [name]) == anchors[name]
  {
    MergesExact(End(anchors, root, path));
    assert Chain(anchors, End(anchors, root, path), [name]) by {
      assert [name][1..] == [];
    }
    ChainAppend(anchors, root, path, [name]);
    assert [name][1..] == [];
  }

  // ---------- the iteration ----------

  // The loop over the children of the mapping itself.
  method OwnEntries(m: Mapping) returns (calls: seq<Child>, mappedKeys: set<Key>, mergeKeys: set<Name>)
    ensures calls == Own(m) && mappedKeys == Keys(calls) && mergeKeys == Merges(m)
  {
    calls, mappedKeys, mergeKeys := [], {}, {};
    for i := 0 to |m|
      invariant calls == Own(m[..i]) && mappedKeys == Keys(calls) && mergeKeys == Merges(m[..i])
    {
      assert m[..i + 1][..i] == m[..i];
      if m[i].Comment? {
        continue;
      }
      if m[i].key == MERGE {
        var names := ExtractMergeAnchorNames(m[i].value);
        mergeKeys := mergeKeys + set n | n in names;
        continue;
      }
      KeysAppend(calls, Child(m[i].key, m[i].value));
      calls := calls + [Child(m[i].key, m[i].value)];
      mappedKeys := mappedKeys + {m[i].key};
    }
    assert m[..|m|] == m;
  }

  lemma KeysAppend(calls: seq<Child>, child: Child)
    ensures Keys(calls + [child]) == Keys(calls) + {child.key}
  {
    var longer := calls + [child];
    forall key
      ensures key in Keys(longer) <==> key in Keys(calls) + {child.key}
    {
      if key in Keys(calls) {
        var k :| 0 <= k < |calls| && calls[k].key == key;
        assert longer[k].key == key;
      }
      assert longer[|calls|] == child;
    }
  }

  // The callback passed to a recursive call, applied to all children it is called with.
  method MergeIn(children: seq<Child>, before: seq<Child>, mapped: set<Key>)
    returns (calls: seq<Child>, mappedKeys: set<Key>)
    requires mapped == Keys(before)
    ensures calls == OfferAll(before, children) && mappedKeys == Keys(calls)
  {
    calls, mappedKeys := before, mapped;
    for i := 0 to |children|
      invariant calls == OfferAll(before, children[..i]) && mappedKeys == Keys(calls)
    {
      assert children[..i + 1][..i] == children[..i];
      if children[i].key !in mappedKeys {
        KeysAppend(calls, children[i]);
        calls := calls + [children[i]];
        mappedKeys := mappedKeys + {children[i].key};
      }
    }
    assert children[..|children|] == children;
  }

  /** Terminates, at a depth of at most one more than the number of anchors, whenever no anchor
      merges itself in a chain from the root; `path` is the chain of calls made so far. */
  method IterateOnBlockMapping(anchors: Anchors, m: Mapping, ghost root: Mapping, ghost path: seq<Name>)
    returns (calls: seq<Child>, ghost x: Execution)
    requires LoopFree(anchors, root) && Chain(anchors, root, path) && End(anchors, root, path) == m
    ensures Valid(anchors, m, x) && calls == Calls(anchors, m, x)
    ensures Own(m) <= calls && NewKeysFrom(calls, |Own(m)|)
    ensures |path| + Height(x) <= |anchors| + 1
    decreases |anchors| - |path|
  {
    var mappedKeys, mergeKeys;
    calls, mappedKeys, mergeKeys := OwnEntries(m);
    x := Execution([], []);
    ChainFits(anchors, root, path);
    while mergeKeys != {}
      invariant Partial(anchors, m, x, mergeKeys)
      invariant calls == Calls(anchors, m, x) && mappedKeys == Keys(calls)
      invariant |path| + Height(x) <= |anchors| + 1
    {
      var anchorName :| anchorName in mergeKeys;
      mergeKeys := mergeKeys - {anchorName};
      if anchorName !in anchors {
        x := StopAt(anchors, m, x, anchorName, mergeKeys);
        OwnFirstThenNewKeys(anchors, m, x, |x.subs|);
        return;
      }
      ChainExtends(anchors, root, path, anchorName);
      ChainFits(anchors, root, path + [anchorName]);
      var children;
      ghost var sub;
      children, sub := IterateOnBlockMapping(anchors, anchors[anchorName], root, path + [anchorName]);
      calls, mappedKeys := MergeIn(children, calls, mappedKeys);
      RunOne(anchors, m, x, anchorName, sub, mergeKeys);
      x := Grow(x, anchorName, sub);
    }
    KnownAll(anchors, x.order);
    OwnFirstThenNewKeys(anchors, m, x, |x.subs|);
  }

  /** The anchors taken so far were all known; mergeKeys are the ones still to come. */
  ghost predicate Partial(anchors: Anchors, m: Mapping, x: Execution, mergeKeys: set<Name>) {
    && Ran(anchors, x) && |x.subs| == |x.order|
    && Distinct(x.order)
    && mergeKeys <= Merges(m)
    && forall n :: n in x.order <==> n in Merges(m) - mergeKeys
  }

  ghost function Grow(x: Execution, name: Name, sub: Execution): Execution {
    Execution(x.order + [name], x.subs + [sub])
  }

  lemma DistinctConcat(a: seq<Name>, b: seq<Name>)
    requires Distinct(a) && Distinct(b) && forall n :: n in b ==> n !in a
    ensures Distinct(a + b)
    ensures forall n :: n in a + b <==> n in a || n in b
  {
    forall i, j | 0 <= i < j < |a + b|
      ensures (a + b)[i] != (a + b)[j]
    {
      assert j >= |a| ==> (a + b)[j] in b;
      assert i < |a| ==> (a + b)[i] in a;
    }
  }

  lemma RunOne(anchors: Anchors, m: Mapping, x: Execution, name: Name, sub: Execution, rest: set<Name>)
    requires Partial(anchors, m, x, rest + {name}) && name !in rest
    requires name in anchors && Valid(anchors, anchors[name], sub)
    ensures Partial(anchors, m, Grow(x, name, sub), rest)
    ensures Calls(anchors, m, Grow(x, name, sub))
            == OfferAll(Calls(anchors, m, x), Calls(anchors, anchors[name], sub))
    ensures Height(Grow(x, name, sub)) == if Height(sub) + 1 > Height(x) then Height(sub) + 1 else Height(x)
  {
    var x' := Grow(x, name, sub);
    assert x'.subs[..|x.subs|] == x.subs;
    DistinctConcat(x.order, [name]);
    CallsAlike(anchors, m, x, x', |x.subs|);
  }

  // The first anchors decide the first calls.
  lemma {:induction false} CallsAlike(anchors: Anchors, m: Mapping, x: Execution, x': Execution, n: nat)
    requires Ran(anchors, x) && Ran(anchors, x')
    requires x.order <= x'.order && x.subs <= x'.subs && n <= |x.subs|
    ensures CallsAfter(anchors, m, x, n) == CallsAfter(anchors, m, x', n)
    decreases n
  {
    if n > 0 {
      CallsAlike(anchors, m, x, x', n - 1);
    }
  }

  lemma {:induction false} KnownAll(anchors: Anchors, order: seq<Name>)
    ensures (forall k :: 0 <= k < |order| ==> order[k] in anchors) <==> KnownPrefix(anchors, order) == |order|
  {
    if order != [] {
      KnownAll(anchors, order[1..]);
    }
  }

  lemma {:induction false} KnownUpTo(anchors: Anchors, order: seq<Name>, n: nat)
    requires n < |order| && order[n] !in anchors && forall k :: 0 <= k < n ==> order[k] in anchors
    ensures KnownPrefix(anchors, order) == n
  {
    if n > 0 {
      KnownUpTo(anchors, order[1..], n - 1);
    }
  }

  lemma {:induction false} Arrange(names: set<Name>) returns (order: seq<Name>)
    ensures Distinct(order) && forall n :: n in order <==> n in names
    decreases names
  {
    if names == {} {
      order := [];
    } else {
      var name :| name in names;
      var rest := Arrange(names - {name});
      order := [name] + rest;
    }
  }

  // The unknown anchor ends the iteration; in which order the others would have come is open.
  lemma StopAt(anchors: Anchors, m: Mapping, x: Execution, name: Name, rest: set<Name>) returns (x': Execution)
    requires Partial(anchors, m, x, rest + {name}) && name !in rest && name !in anchors
    ensures Valid(anchors, m, x') && x'.subs == x.subs
    ensures Calls(anchors, m, x') == Calls(anchors, m, x)
  {
    var tail := Arrange(rest);
    x' := Execution(x.order + [name] + tail, x.subs);
    KnownUpTo(anchors, x'.order, |x.order|);
    DistinctConcat(x.order, [name]);
    DistinctConcat(x.order + [name], tail);
    CallsAlike(anchors, m, x, x', |x.subs|);
  }

  // ---------- what the callback sees ----------

  /** From position `base` on, every key is new. */
  predicate NewKeysFrom(calls: seq<Child>, base: nat) {
    && base <= |calls|
    && forall i, j :: base <= i < |calls| && 0 <= j < i ==> calls[j].key != calls[i].key
  }

  lemma {:induction false} OfferAllKeys(calls: seq<Child>, children: seq<Child>, base: nat)
    requires NewKeysFrom(calls, base)
    ensures calls <= OfferAll(calls, children) && NewKeysFrom(OfferAll(calls, children), base)
    ensures Keys(OfferAll(calls, children)) == Keys(calls) + Keys(children)
  {
    if children != [] {
      var shorter, last := children[..|children| - 1], children[|children| - 1];
      OfferAllKeys(calls, shorter, base);
      KeysAppend(OfferAll(calls, shorter), last);
      KeysAppend(shorter, last);
      assert children == shorter + [last];
    }
  }

  /** The callback sees every entry of the mapping itself first, in order, and then only keys it has
      not seen before: none of the mapping's own keys, and each inherited key once. */
  lemma {:induction false} OwnFirstThenNewKeys(anchors: Anchors, m: Mapping, x: Execution, n: nat)
    requires Ran(anchors, x) && n <= |x.subs|
    ensures Own(m) <= CallsAfter(anchors, m, x, n)
    ensures NewKeysFrom(CallsAfter(anchors, m, x, n), |Own(m)|)
    decreases n
  {
    if n > 0 {
      OwnFirstThenNewKeys(anchors, m, x, n - 1);
      var sub := x.subs[n - 1];
      assert Valid(anchors, anchors[x.order[n - 1]], sub);
      OfferAllKeys(CallsAfter(anchors, m, x, n - 1), Calls(anchors, anchors[x.order[n - 1]], sub), |Own(m)|);
    }
  }

  predicate SeenAt(calls: seq<Child>, child: Child, i: nat) {
    i < |calls| && calls[i] == child && forall j :: 0 <= j < i ==> calls[j].key != child.key
  }

  /** The child is the first with its key: the definition a reader of the mapping gets. */
  ghost predicate Sees(calls: seq<Child>, child: Child) {
    exists i: nat :: SeenAt(calls, child, i)
  }

  lemma SeesAppend(calls: seq<Child>, next: Child, child: Child)
    ensures Sees(calls + [next], child) <==> Sees(calls, child) || (child.key !in Keys(calls) && child == next)
  {
    var longer := calls + [next];
    if Sees(calls, child) {
      var i: nat :| SeenAt(calls, child, i);
      assert SeenAt(longer, child, i);
    }
    if child.key !in Keys(calls) && child == next {
      assert SeenAt(longer, child, |calls|);
    }
    if Sees(longer, child) {
      var i: nat :| SeenAt(longer, child, i);
      if i < |calls| {
        assert forall j :: 0 <= j < i ==> calls[j] == longer[j];
        assert SeenAt(calls, child, i);
      } else {
        assert forall j :: 0 <= j < |calls| ==> longer[j] == calls[j];
      }
    }
  }

  lemma {:induction false} SeesOffered(calls: seq<Child>, children: seq<Child>, child: Child)
    ensures Sees(OfferAll(calls, children), child)
            <==> Sees(calls, child) || (child.key !in Keys(calls) && Sees(children, child))
  {
    if children == [] {
      assert !Sees(children, child);
    } else {
      var shorter, last := children[..|children| - 1], children[|children| - 1];
      SeesOffered(calls, shorter, child);
      SeesAppend(OfferAll(calls, shorter), last, child);
      SeesAppend(shorter, last, child);
      OfferAllKeys(calls, shorter, |calls|);
      assert children == shorter + [last];
      if Sees(calls, child) {
        SeenKey(calls, child);
      }
    }
  }

  lemma SeenKey(calls: seq<Child>, child: Child)
    requires Sees(calls, child)
    ensures child.key in Keys(calls)
  {
  }

  lemma {:induction false} KeyIsSeen(calls: seq<Child>, key: Key) returns (child: Child)
    requires key in Keys(calls)
    ensures Sees(calls, child) && child.key == key
  {
    var shorter, last := calls[..|calls| - 1], calls[|calls| - 1];
    assert calls == shorter + [last];
    KeysAppend(shorter, last);
    if key in Keys(shorter) {
      child := KeyIsSeen(shorter, key);
    } else {
      child := last;
    }
    SeesAppend(shorter, last, child);
  }

  // ---------- which definition wins ----------

  /** The chain p of merges leads to this definition, and no mapping before its end defines the key. */
  ghost predicate Wins(anchors: Anchors, m: Mapping, p: seq<Name>, child: Child)
    decreases |p|
  {
    if p == [] then Sees(Own(m), child)
    else
      && MergesAnchor(m, p[0]) && p[0] in anchors
      && !Defines(m, child.key)
      && Wins(anchors, anchors[p[0]], p[1..], child)
  }

  lemma {:induction false} WinnerIsDefined(anchors: Anchors, m: Mapping, p: seq<Name>, child: Child)
    requires Wins(anchors, m, p, child)
    ensures Chain(anchors, m, p) && Defines(End(anchors, m, p), child.key)
    decreases |p|
  {
    if p == [] {
      SeenKey(Own(m), child);
    } else {
      WinnerIsDefined(anchors, anchors[p[0]], p[1..], child);
    }
  }

  lemma {:induction false} SeenWins(anchors: Anchors, m: Mapping, x: Execution, n: nat, child: Child)
    returns (p: seq<Name>)
    requires Ran(anchors, x) && n <= |x.subs| && forall k :: k in x.order ==> k in Merges(m)
    requires Sees(CallsAfter(anchors, m, x, n), child)
    ensures Wins(anchors, m, p, child)
    decreases x, n
  {
    MergesExact(m);
    if n == 0 {
      p := [];
    } else {
      var name, sub := x.order[n - 1], x.subs[n - 1];
      assert Valid(anchors, anchors[name], sub);
      var before := CallsAfter(anchors, m, x, n - 1);
      SeesOffered(before, Calls(anchors, anchors[name], sub), child);
      if Sees(before, child) {
        p := SeenWins(anchors, m, x, n - 1, child);
      } else {
        var q := SeenWins(anchors, anchors[name], sub, |sub.subs|, child);
        OwnFirstThenNewKeys(anchors, m, x, n - 1);
        KeysOfPrefix(Own(m), before);
        p := [name] + q;
      }
    }
  }

  lemma KeysOfPrefix(a: seq<Child>, b: seq<Child>)
    requires a <= b
    ensures Keys(a) <= Keys(b)
  {
    forall key | key in Keys(a)
      ensures key in Keys(b)
    {
      var k :| 0 <= k < |a| && a[k].key == key;
      assert b[k].key == key;
    }
  }

  // ---------- which executions exist ----------

  // Every partial execution of a loop-free mapping can be completed, at a bounded depth.
  lemma {:induction false} Complete(anchors: Anchors, m: Mapping, x: Execution, rest: set<Name>,
                                    root: Mapping, path: seq<Name>) returns (x': Execution)
    requires Partial(anchors, m, x, rest)
    requires LoopFree(anchors, root) && Chain(anchors, root, path) && End(anchors, root, path) == m
    requires |path| + Height(x) <= |anchors| + 1
    ensures Valid(anchors, m, x') && |path| + Height(x') <= |anchors| + 1
    ensures Calls(anchors, m, x) <= Calls(anchors, m, x')
    decreases |anchors| - |path|, |rest|
  {
    ChainFits(anchors, root, path);
    if rest == {} {
      x' := x;
      KnownAll(anchors, x.order);
    } else {
      var name :| name in rest;
      var others := rest - {name};
      if name !in anchors {
        x' := StopAt(anchors, m, x, name, others);
      } else {
        ChainExtends(anchors, root, path, name);
        ChainFits(anchors, root, path + [name]);
        var sub := Complete(anchors, anchors[name], Execution([], []), Merges(anchors[name]), root, path + [name]);
        RunOne(anchors, m, x, name, sub, others);
        OfferAllKeys(Calls(anchors, m, x), Calls(anchors, anchors[name], sub), |Calls(anchors, m, x)|);
        x' := Complete(anchors, m, Grow(x, name, sub), others, root, path);
      }
    }
  }

  lemma LoopFreeBelow(anchors: Anchors, m: Mapping, name: Name)
    requires LoopFree(anchors, m) && name in Merges(m) && name in anchors
    ensures LoopFree(anchors, anchors[name])
  {
    MergesExact(m);
    forall p | Chain(anchors, anchors[name], p)
      ensures Distinct(p)
    {
      assert ([name] + p)[1..] == p;
      assert Chain(anchors, m, [name] + p);
      DistinctTail(name, p);
    }
  }

  lemma DistinctTail(name: Name, p: seq<Name>)
    requires Distinct([name] + p)
    ensures Distinct(p)
  {
    assert forall k :: 0 <= k < |p| ==> ([name] + p)[k + 1] == p[k];
  }

  lemma {:induction false} WinnerIsSeen(anchors: Anchors, m: Mapping, p: seq<Name>, child: Child) returns (x: Execution)
    requires Wins(anchors, m, p, child) && LoopFree(anchors, m)
    ensures Valid(anchors, m, x) && Sees(Calls(anchors, m, x), child)
    decreases |p|
  {
    MergesExact(m);
    var start := Execution([], []);
    if p == [] {
      x := Complete(anchors, m, start, Merges(m), m, []);
    } else {
      LoopFreeBelow(anchors, m, p[0]);
      var sub := WinnerIsSeen(anchors, anchors[p[0]], p[1..], child);
      var rest := Merges(m) - {p[0]};
      assert rest + {p[0]} == Merges(m);
      RunOne(anchors, m, start, p[0], sub, rest);
      start := Grow(start, p[0], sub);
      SeesOffered(Own(m), Calls(anchors, anchors[p[0]], sub), child);
      x := CompleteAny(anchors, m, start, rest);
    }
    SeesPrefix(Calls(anchors, m, start), Calls(anchors, m, x), child);
  }

  // Like Complete, for a partial execution of any depth.
  lemma {:induction false} CompleteAny(anchors: Anchors, m: Mapping, x: Execution, rest: set<Name>)
    returns (x': Execution)
    requires Partial(anchors, m, x, rest) && LoopFree(anchors, m)
    ensures Valid(anchors, m, x') && Calls(anchors, m, x) <= Calls(anchors, m, x')
    decreases |rest|
  {
    if rest == {} {
      x' := x;
      KnownAll(anchors, x.order);
    } else {
      var name :| name in rest;
      var others := rest - {name};
      if name !in anchors {
        x' := StopAt(anchors, m, x, name, others);
      } else {
        LoopFreeBelow(anchors, m, name);
        var sub := Complete(anchors, anchors[name], Execution([], []), Merges(anchors[name]), anchors[name], []);
        RunOne(anchors, m, x, name, sub, others);
        OfferAllKeys(Calls(anchors, m, x), Calls(anchors, anchors[name], sub), |Calls(anchors, m, x)|);
        x' := CompleteAny(anchors, m, Grow(x, name, sub), others);
      }
    }
  }

  lemma SeesPrefix(a: seq<Child>, b: seq<Child>, child: Child)
    requires a <= b && Sees(a, child)
    ensures Sees(b, child)
  {
    var i: nat :| SeenAt(a, child, i);
    assert SeenAt(b, child, i);
  }

  /** Some execution sees the child. */
  ghost predicate MayBeSeen(anchors: Anchors, m: Mapping, child: Child) {
    exists x :: Valid(anchors, m, x) && Sees(Calls(anchors, m, x), child)
  }

  /** Some chain of merges leads to the child past mappings that do not define its key. */
  ghost predicate Winner(anchors: Anchors, m: Mapping, child: Child) {
    exists p :: Wins(anchors, m, p, child)
  }

  /** Override rule, over all iteration orders: a definition can be the one seen for its key exactly
      when some chain of merges leads to it past mappings that do not define the key. */
  lemma SeenIffWins(anchors: Anchors, m: Mapping, child: Child)
    requires LoopFree(anchors, m)
    ensures MayBeSeen(anchors, m, child) <==> Winner(anchors, m, child)
  {
    if MayBeSeen(anchors, m, child) {
      var x :| Valid(anchors, m, x) && Sees(Calls(anchors, m, x), child);
      var p := SeenWins(anchors, m, x, |x.subs|, child);
    }
    if Winner(anchors, m, child) {
      var p :| Wins(anchors, m, p, child);
      var x := WinnerIsSeen(anchors, m, p, child);
    }
  }

  // ---------- the key set ----------

  lemma AllKnownBelow(anchors: Anchors, m: Mapping, name: Name)
    requires AllKnown(anchors, m) && name in Merges(m) && name in anchors
    ensures AllKnown(anchors, anchors[name])
  {
    MergesExact(m);
    forall p | Chain(anchors, anchors[name], p)
      ensures Merges(End(anchors, anchors[name], p)) <= anchors.Keys
    {
      assert ([name] + p)[1..] == p;
      assert Chain(anchors, m, [name] + p);
    }
  }

  lemma KnownHere(anchors: Anchors, m: Mapping)
    requires AllKnown(anchors, m)
    ensures Merges(m) <= anchors.Keys
  {
    assert Chain(anchors, m, []) && End(anchors, m, []) == m;
  }

  // When the anchors merged are known, an execution makes a recursive call for each of them.
  lemma SubOf(anchors: Anchors, m: Mapping, x: Execution, name: Name) returns (k: nat)
    requires Valid(anchors, m, x) && Merges(m) <= anchors.Keys && name in Merges(m)
    ensures name in anchors && k < |x.subs| && x.order[k] == name
  {
    KnownAll(anchors, x.order);
    k :| 0 <= k < |x.order| && x.order[k] == name;
  }

  lemma {:induction false} CallsGrow(anchors: Anchors, m: Mapping, x: Execution, n: nat, n': nat)
    requires Ran(anchors, x) && n <= n' <= |x.subs|
    ensures CallsAfter(anchors, m, x, n) <= CallsAfter(anchors, m, x, n')
    decreases n'
  {
    if n < n' {
      CallsGrow(anchors, m, x, n, n' - 1);
      var before, sub := CallsAfter(anchors, m, x, n' - 1), x.subs[n' - 1];
      assert Valid(anchors, anchors[x.order[n' - 1]], sub);
      OfferAllKeys(before, Calls(anchors, anchors[x.order[n' - 1]], sub), |before|);
    }
  }

  /** All anchors the mapping merges are known. */
  ghost predicate KnowsAll(anchors: Anchors, m: Mapping) {
    forall n :: MergesAnchor(m, n) ==> n in anchors
  }

  /** The chain p leads to a definition of the key, past mappings that merge known anchors only. */
  ghost predicate Reliable(anchors: Anchors, m: Mapping, p: seq<Name>, key: Key)
    decreases |p|
  {
    if p == [] then Defines(m, key)
    else MergesAnchor(m, p[0]) && KnowsAll(anchors, m) && Reliable(anchors, anchors[p[0]], p[1..], key)
  }

  ghost predicate ReliablyDefined(anchors: Anchors, m: Mapping, key: Key) {
    exists p :: Reliable(anchors, m, p, key)
  }

  lemma {:induction false} ReliableKeyIsSeen(anchors: Anchors, m: Mapping, x: Execution, p: seq<Name>, key: Key)
    requires Valid(anchors, m, x) && Reliable(anchors, m, p, key)
    ensures key in Keys(Calls(anchors, m, x))
    decreases |p|
  {
    MergesExact(m);
    if p == [] {
      CallsGrow(anchors, m, x, 0, |x.subs|);
      KeysOfPrefix(Own(m), Calls(anchors, m, x));
    } else {
      var k := SubOf(anchors, m, x, p[0]);
      assert Valid(anchors, anchors[p[0]], x.subs[k]);
      ReliableKeyIsSeen(anchors, anchors[p[0]], x.subs[k], p[1..], key);
      var before := CallsAfter(anchors, m, x, k);
      OfferAllKeys(before, Calls(anchors, anchors[p[0]], x.subs[k]), |before|);
      CallsGrow(anchors, m, x, k + 1, |x.subs|);
      KeysOfPrefix(CallsAfter(anchors, m, x, k + 1), Calls(anchors, m, x));
    }
  }

  lemma ReliableBelow(anchors: Anchors, m: Mapping, name: Name, key: Key)
    requires Merges(m) <= anchors.Keys && name in Merges(m) && ReliablyDefined(anchors, anchors[name], key)
    ensures ReliablyDefined(anchors, m, key)
  {
    MergesExact(m);
    var p :| Reliable(anchors, anchors[name], p, key);
    assert ([name] + p)[1..] == p;
    assert Reliable(anchors, m, [name] + p, key);
  }

  // A partial execution that has not met a key can be completed without meeting it, unless it is
  // reliably defined.
  lemma {:induction false} Avoid(anchors: Anchors, m: Mapping, x: Execution, rest: set<Name>,
                                 root: Mapping, path: seq<Name>, key: Key) returns (x': Execution)
    requires Partial(anchors, m, x, rest) && Merges(m) <= anchors.Keys
    requires LoopFree(anchors, root) && Chain(anchors, root, path) && End(anchors, root, path) == m
    requires !ReliablyDefined(anchors, m, key) && key !in Keys(Calls(anchors, m, x))
    ensures Valid(anchors, m, x') && key !in Keys(Calls(anchors, m, x'))
    decreases |anchors| - |path|, 0, |rest|
  {
    ChainFits(anchors, root, path);
    if rest == {} {
      x' := x;
      KnownAll(anchors, x.order);
    } else {
      var name :| name in rest;
      ChainExtends(anchors, root, path, name);
      ChainFits(anchors, root, path + [name]);
      if ReliablyDefined(anchors, anchors[name], key) {
        ReliableBelow(anchors, m, name, key);
      }
      var sub := AvoidFromStart(anchors, anchors[name], root, path + [name], key);
      RunOne(anchors, m, x, name, sub, rest - {name});
      OfferAllKeys(Calls(anchors, m, x), Calls(anchors, anchors[name], sub), |Calls(anchors, m, x)|);
      x' := Avoid(anchors, m, Grow(x, name, sub), rest - {name}, root, path, key);
    }
  }

  lemma {:induction false} AvoidFromStart(anchors: Anchors, m: Mapping, root: Mapping, path: seq<Name>, key: Key)
    returns (x: Execution)
    requires LoopFree(anchors, root) && Chain(anchors, root, path) && End(anchors, root, path) == m
    requires !ReliablyDefined(anchors, m, key)
    ensures Valid(anchors, m, x) && key !in Keys(Calls(anchors, m, x))
    decreases |anchors| - |path|, 1
  {
    ChainFits(anchors, root, path);
    assert !Reliable(anchors, m, [], key);
    if Merges(m) <= anchors.Keys {
      x := Avoid(anchors, m, Execution([], []), Merges(m), root, path, key);
    } else {
      var name :| name in Merges(m) && name !in anchors;
      x := UnknownAnchorMayHideAll(anchors, m, name);
    }
  }

  ghost predicate AlwaysSeen(anchors: Anchors, m: Mapping, key: Key) {
    forall x :: Valid(anchors, m, x) ==> key in Keys(Calls(anchors, m, x))
  }

  /** A key is seen in every iteration order exactly when some chain of merges reaches a definition of
      it without passing a mapping that also merges an unknown anchor. */
  lemma AlwaysSeenIffReliable(anchors: Anchors, m: Mapping, key: Key)
    requires LoopFree(anchors, m)
    ensures AlwaysSeen(anchors, m, key) <==> ReliablyDefined(anchors, m, key)
  {
    if ReliablyDefined(anchors, m, key) {
      var p :| Reliable(anchors, m, p, key);
      forall x | Valid(anchors, m, x)
        ensures key in Keys(Calls(anchors, m, x))
      {
        ReliableKeyIsSeen(anchors, m, x, p, key);
      }
    } else {
      var x := AvoidFromStart(anchors, m, m, [], key);
    }
  }

  /** The key is defined by m or by something it merges, directly or not. */
  ghost predicate InUnion(anchors: Anchors, m: Mapping, key: Key) {
    exists p :: Chain(anchors, m, p) && Defines(End(anchors, m, p), key)
  }

  /** With all anchors known, the keys seen are, in every iteration order, the transitive union of
      the keys of the mapping and of everything it merges. */
  lemma KeySetIsUnion(anchors: Anchors, m: Mapping, x: Execution, key: Key)
    requires Valid(anchors, m, x) && AllKnown(anchors, m)
    ensures key in Keys(Calls(anchors, m, x)) <==> InUnion(anchors, m, key)
  {
    if key in Keys(Calls(anchors, m, x)) {
      SeenIsInUnion(anchors, m, x, key);
    }
    if InUnion(anchors, m, key) {
      var p :| Chain(anchors, m, p) && Defines(End(anchors, m, p), key);
      KnownIsReliable(anchors, m, p, key);
      ReliableKeyIsSeen(anchors, m, x, p, key);
    }
  }

  lemma {:induction false} KnownIsReliable(anchors: Anchors, m: Mapping, p: seq<Name>, key: Key)
    requires AllKnown(anchors, m) && Chain(anchors, m, p) && Defines(End(anchors, m, p), key)
    ensures Reliable(anchors, m, p, key)
    decreases |p|
  {
    MergesExact(m);
    if p != [] {
      KnownHere(anchors, m);
      AllKnownBelow(anchors, m, p[0]);
      KnownIsReliable(anchors, anchors[p[0]], p[1..], key);
    }
  }

  /** No execution sees a key outside the union. */
  lemma SeenIsInUnion(anchors: Anchors, m: Mapping, x: Execution, key: Key)
    requires Valid(anchors, m, x) && key in Keys(Calls(anchors, m, x))
    ensures InUnion(anchors, m, key)
  {
    var child := KeyIsSeen(Calls(anchors, m, x), key);
    var p := SeenWins(anchors, m, x, |x.subs|, child);
    WinnerIsDefined(anchors, m, p, child);
  }

  ghost predicate SeesUnion(anchors: Anchors, m: Mapping, x: Execution)
    requires Valid(anchors, m, x)
  {
    forall key :: key in Keys(Calls(anchors, m, x)) <==> InUnion(anchors, m, key)
  }

  /** Every iteration order sees exactly the transitive union if and only if every key of the union is
      reliably defined. */
  lemma UnionIffReliable(anchors: Anchors, m: Mapping)
    requires LoopFree(anchors, m)
    ensures (forall x :: Valid(anchors, m, x) ==> SeesUnion(anchors, m, x))
            <==> forall key :: InUnion(anchors, m, key) ==> ReliablyDefined(anchors, m, key)
  {
    if forall x :: Valid(anchors, m, x) ==> SeesUnion(anchors, m, x) {
      forall key | InUnion(anchors, m, key)
        ensures ReliablyDefined(anchors, m, key)
      {
        AlwaysSeenIffReliable(anchors, m, key);
        assert forall x :: Valid(anchors, m, x) ==> SeesUnion(anchors, m, x) && key in Keys(Calls(anchors, m, x));
      }
    }
    if forall key :: InUnion(anchors, m, key) ==> ReliablyDefined(anchors, m, key) {
      forall x | Valid(anchors, m, x)
        ensures SeesUnion(anchors, m, x)
      {
        forall key
          ensures key in Keys(Calls(anchors, m, x)) <==> InUnion(anchors, m, key)
        {
          AlwaysSeenIffReliable(anchors, m, key);
          if key in Keys(Calls(anchors, m, x)) {
            SeenIsInUnion(anchors, m, x, key);
          }
        }
      }
    }
  }

  // ---------- termination ----------

  lemma {:induction false} HeightOfSub(xs: seq<Execution>, k: nat)
    requires k < |xs|
    ensures Height(xs[k]) <= MaxHeight(xs)
    decreases |xs|
  {
    if k < |xs| - 1 {
      HeightOfSub(xs[..|xs| - 1], k);
    }
  }

  lemma {:induction false} Descend(anchors: Anchors, m: Mapping, x: Execution, p: seq<Name>) returns (y: Execution)
    requires Valid(anchors, m, x) && AllKnown(anchors, m) && Chain(anchors, m, p)
    ensures Valid(anchors, End(anchors, m, p), y) && AllKnown(anchors, End(anchors, m, p))
    ensures Height(y) + |p| <= Height(x)
    decreases |p|
  {
    MergesExact(m);
    if p == [] {
      y := x;
    } else {
      KnownHere(anchors, m);
      var k := SubOf(anchors, m, x, p[0]);
      AllKnownBelow(anchors, m, p[0]);
      HeightOfSub(x.subs, k);
      y := Descend(anchors, anchors[p[0]], x.subs[k], p[1..]);
    }
  }

  lemma {:induction false} NoReturn(anchors: Anchors, m: Mapping, x: Execution, q: seq<Name>)
    requires Valid(anchors, m, x) && AllKnown(anchors, m)
    requires Chain(anchors, m, q) && q != []
    ensures End(anchors, m, q) != m
    decreases Height(x)
  {
    var y := Descend(anchors, m, x, q);
    if End(anchors, m, q) == m {
      NoReturn(anchors, m, y, q);
    }
  }

  lemma {:induction false} ChainSlice(anchors: Anchors, m: Mapping, p: seq<Name>, i: nat)
    requires Chain(anchors, m, p) && i < |p|
    ensures Chain(anchors, m, p[..i + 1]) && p[i] in anchors && End(anchors, m, p[..i + 1]) == anchors[p[i]]
    ensures Chain(anchors, anchors[p[i]], p[i + 1..])
    decreases |p|
  {
    if i == 0 {
      assert p[..1][1..] == [];
    } else {
      ChainSlice(anchors, anchors[p[0]], p[1..], i - 1);
      assert p[..i + 1][1..] == p[1..][..i];
      assert p[1..][i..] == p[i + 1..];
    }
  }

  lemma {:induction false} MaxHeightFits(xs: seq<Execution>, bound: nat)
    requires forall k :: 0 <= k < |xs| ==> Height(xs[k]) <= bound
    ensures MaxHeight(xs) <= bound
  {
    if xs != [] {
      MaxHeightFits(xs[..|xs| - 1], bound);
    }
  }

  /** Without a chain that comes back to an anchor, no execution recurses deeper than the number of
      anchors plus one, known or not. */
  lemma {:induction false} HeightFits(anchors: Anchors, m: Mapping, x: Execution, root: Mapping, path: seq<Name>)
    requires LoopFree(anchors, root) && Chain(anchors, root, path) && End(anchors, root, path) == m
    requires Valid(anchors, m, x)
    ensures |path| + Height(x) <= |anchors| + 1
    decreases x
  {
    ChainFits(anchors, root, path);
    forall k | 0 <= k < |x.subs|
      ensures Height(x.subs[k]) <= |anchors| - |path|
    {
      var name := x.order[k];
      assert Valid(anchors, anchors[name], x.subs[k]);
      ChainExtends(anchors, root, path, name);
      HeightFits(anchors, anchors[name], x.subs[k], root, path + [name]);
    }
    MaxHeightFits(x.subs, |anchors| - |path|);
  }

  /** With all anchors known, the iteration terminates, at a depth of at most one more than the
      number of anchors, exactly when no chain of merges comes back to an anchor: otherwise it has no
      finite execution at all. */
  lemma TerminatesIffLoopFree(anchors: Anchors, m: Mapping)
    requires AllKnown(anchors, m)
    ensures (exists x :: Valid(anchors, m, x)) <==> LoopFree(anchors, m)
    ensures LoopFree(anchors, m) ==> forall x :: Valid(anchors, m, x) ==> Height(x) <= |anchors| + 1
  {
    if LoopFree(anchors, m) {
      var y := Complete(anchors, m, Execution([], []), Merges(m), m, []);
      assert Valid(anchors, m, y);
      forall x | Valid(anchors, m, x)
        ensures Height(x) <= |anchors| + 1
      {
        HeightFits(anchors, m, x, m, []);
      }
    }
    if exists x :: Valid(anchors, m, x) {
      var x :| Valid(anchors, m, x);
      forall p | Chain(anchors, m, p)
        ensures Distinct(p)
      {
        forall i, j | 0 <= i < j < |p|
          ensures p[i] != p[j]
        {
          NeverRepeats(anchors, m, x, p, i, j);
        }
      }
    }
  }

  lemma NeverRepeats(anchors: Anchors, m: Mapping, x: Execution, p: seq<Name>, i: nat, j: nat)
    requires Valid(anchors, m, x) && AllKnown(anchors, m) && Chain(anchors, m, p)
    requires i < j < |p|
    ensures p[i] != p[j]
  {
    ChainSlice(anchors, m, p, i);
    var y := Descend(anchors, m, x, p[..i + 1]);
    var q := p[i + 1..];
    ChainSlice(anchors, anchors[p[i]], q, j - i - 1);
    NoReturn(anchors, anchors[p[i]], y, q[..j - i]);
  }

  // ---------- recursion without end ----------

  function Rounds(q: seq<Name>, n: nat): seq<Name> {
    if n == 0 then [] else Rounds(q, n - 1) + q
  }

  lemma {:induction false} RoundsGrow(q: seq<Name>, n: nat, n': nat)
    requires n <= n' && q != []
    ensures Rounds(q, n) <= Rounds(q, n') && |Rounds(q, n)| >= n
    decreases n'
  {
    if n < n' {
      RoundsGrow(q, n, n' - 1);
    } else if n > 0 {
      RoundsGrow(q, n - 1, n - 1);
    }
  }

  lemma {:induction false} RoundsChain(anchors: Anchors, m: Mapping, q: seq<Name>, n: nat)
    requires Chain(anchors, m, q) && End(anchors, m, q) == m
    ensures Chain(anchors, m, Rounds(q, n)) && End(anchors, m, Rounds(q, n)) == m
  {
    if n > 0 {
      RoundsChain(anchors, m, q, n - 1);
      ChainAppend(anchors, m, Rounds(q, n - 1), q);
    }
  }

  ghost function First(path: nat -> Name, n: nat): seq<Name> {
    seq(n, (k: nat) => path(k))
  }

  /** Calls that go ever deeper: when at every level the anchor of the path comes up first, the
      iteration recurses along the path, and has not returned from any call after n of them. */
  ghost predicate Endless(anchors: Anchors, m: Mapping, path: nat -> Name) {
    forall n: nat :: Chain(anchors, m, First(path, n))
  }

  ghost predicate MayNotEnd(anchors: Anchors, m: Mapping) {
    exists path: nat -> Name :: Endless(anchors, m, path)
  }

  ghost function RoundsAt(stem: seq<Name>, q: seq<Name>, k: nat): Name
    requires q != []
  {
    RoundsGrow(q, k + 1, k + 1);
    (stem + Rounds(q, k + 1))[k]
  }

  // Down the stem, then round and round.
  ghost function Round(stem: seq<Name>, q: seq<Name>): nat -> Name
    requires q != []
  {
    (k: nat) => RoundsAt(stem, q, k)
  }

  lemma FirstOfRounds(stem: seq<Name>, q: seq<Name>, n: nat)
    requires q != []
    ensures n <= |stem + Rounds(q, n)| && First(Round(stem, q), n) == (stem + Rounds(q, n))[..n]
  {
    var p := stem + Rounds(q, n);
    RoundsGrow(q, n, n);
    forall k: nat | k < n
      ensures p[k] == Round(stem, q)(k)
    {
      RoundsGrow(q, k + 1, k + 1);
      RoundsGrow(q, k + 1, n);
    }
  }

  lemma ChainPrefix(anchors: Anchors, m: Mapping, p: seq<Name>, n: nat)
    requires Chain(anchors, m, p) && n <= |p|
    ensures Chain(anchors, m, p[..n])
  {
    if n > 0 {
      ChainSlice(anchors, m, p, n - 1);
    }
  }

  lemma LoopIsEndless(anchors: Anchors, m: Mapping, stem: seq<Name>, q: seq<Name>)
    requires Chain(anchors, m, stem) && q != []
    requires Chain(anchors, End(anchors, m, stem), q) && End(anchors, End(anchors, m, stem), q) == End(anchors, m, stem)
    ensures MayNotEnd(anchors, m)
  {
    forall n: nat
      ensures Chain(anchors, m, First(Round(stem, q), n))
    {
      RoundsChain(anchors, End(anchors, m, stem), q, n);
      ChainAppend(anchors, m, stem, Rounds(q, n));
      FirstOfRounds(stem, q, n);
      ChainPrefix(anchors, m, stem + Rounds(q, n), n);
    }
    assert Endless(anchors, m, Round(stem, q));
  }

  /** With any anchors at all, some iteration order recurses without end exactly when a chain of merges
      comes back to an anchor; without such a chain, IterateOnBlockMapping ends in every order. */
  lemma EndlessIffLoop(anchors: Anchors, m: Mapping)
    ensures MayNotEnd(anchors, m) <==> !LoopFree(anchors, m)
  {
    if LoopFree(anchors, m) {
      forall path: nat -> Name
        ensures !Endless(anchors, m, path)
      {
        var n := |anchors| + 1;
        if Chain(anchors, m, First(path, n)) {
          ChainFits(anchors, m, First(path, n));
        }
      }
    } else {
      var p :| Chain(anchors, m, p) && !Distinct(p);
      var i, j :| 0 <= i < j < |p| && p[i] == p[j];
      ChainSlice(anchors, m, p, i);
      ChainSlice(anchors, anchors[p[i]], p[i + 1..], j - i - 1);
      LoopIsEndless(anchors, m, p[..i + 1], p[i + 1..][..j - i]);
    }
  }

  // ---------- consequences of the iteration order ----------

  /** Of several merged anchors that define a key, each may be the one that is seen: the order of a
      merge list decides nothing. */
  lemma AnyMergedAnchorMayWin(anchors: Anchors, m: Mapping, name: Name, child: Child) returns (x: Execution)
    requires LoopFree(anchors, m) && name in Merges(m) && name in anchors
    requires !Defines(m, child.key) && Sees(Own(anchors[name]), child)
    ensures Valid(anchors, m, x) && Sees(Calls(anchors, m, x), child)
  {
    MergesExact(m);
    assert [name][1..] == [];
    x := WinnerIsSeen(anchors, m, [name], child);
  }

  /** One unknown anchor can hide all others: some execution then sees the own entries only. */
  lemma UnknownAnchorMayHideAll(anchors: Anchors, m: Mapping, name: Name) returns (x: Execution)
    requires name in Merges(m) && name !in anchors
    ensures Valid(anchors, m, x) && Calls(anchors, m, x) == Own(m)
  {
    var rest := Merges(m) - {name};
    assert rest + {name} == Merges(m);
    x := StopAt(anchors, m, Execution([], []), name, rest);
  }

  ghost predicate SingleMerges(anchors: Anchors, m: Mapping) {
    forall p :: Chain(anchors, m, p) ==> AtMostOne(Merges(End(anchors, m, p)))
  }

  ghost predicate AtMostOne(names: set<Name>) {
    forall a, b :: a in names && b in names ==> a == b
  }

  /** When no mapping merges more than one anchor, the nearest definition of a key always wins,
      whatever the iteration order. */
  lemma {:induction false} NearestDefinitionWins(anchors: Anchors, m: Mapping, p: seq<Name>, a: Child,
                                                 q: seq<Name>, b: Child)
    requires SingleMerges(anchors, m)
    requires Wins(anchors, m, p, a) && Wins(anchors, m, q, b) && a.key == b.key
    ensures p == q && a == b
    decreases |p|
  {
    MergesExact(m);
    if p == [] {
      SeenKey(Own(m), a);
      SeenUnique(Own(m), a, b);
    } else if q == [] {
      SeenKey(Own(m), b);
    } else {
      assert Chain(anchors, m, []) && End(anchors, m, []) == m;
      assert AtMostOne(Merges(m));
      SingleBelow(anchors, m, p[0]);
      NearestDefinitionWins(anchors, anchors[p[0]], p[1..], a, q[1..], b);
      assert p == [p[0]] + p[1..] && q == [q[0]] + q[1..];
    }
  }

  /** All executions that see a definition of the key see the same one. */
  ghost predicate Agree(anchors: Anchors, m: Mapping, key: Key) {
    forall x, y, a, b :: Valid(anchors, m, x) && Valid(anchors, m, y)
                         && Sees(Calls(anchors, m, x), a) && Sees(Calls(anchors, m, y), b) && a.key == b.key == key
                         ==> a == b
  }

  ghost predicate OneWinner(anchors: Anchors, m: Mapping, key: Key) {
    forall a, b :: Winner(anchors, m, a) && Winner(anchors, m, b) && a.key == b.key == key ==> a == b
  }

  /** The iteration order decides between definitions of a key exactly when two of them can win. */
  lemma AgreeIffOneWinner(anchors: Anchors, m: Mapping, key: Key)
    requires LoopFree(anchors, m)
    ensures Agree(anchors, m, key) <==> OneWinner(anchors, m, key)
  {
    if Agree(anchors, m, key) {
      forall a, b | Winner(anchors, m, a) && Winner(anchors, m, b) && a.key == b.key == key
        ensures a == b
      {
        SeenIffWins(anchors, m, a);
        SeenIffWins(anchors, m, b);
        var x :| Valid(anchors, m, x) && Sees(Calls(anchors, m, x), a);
        var y :| Valid(anchors, m, y) && Sees(Calls(anchors, m, y), b);
      }
    }
    if OneWinner(anchors, m, key) {
      forall x, y, a, b | Valid(anchors, m, x) && Valid(anchors, m, y) && Sees(Calls(anchors, m, x), a)
                          && Sees(Calls(anchors, m, y), b) && a.key == b.key == key
        ensures a == b
      {
        SeenIffWins(anchors, m, a);
        SeenIffWins(anchors, m, b);
      }
    }
  }

  /** What an execution makes of the key: the definition seen for it, or none. */
  ghost predicate SameFor(anchors: Anchors, m: Mapping, key: Key, x: Execution, y: Execution)
    requires Valid(anchors, m, x) && Valid(anchors, m, y)
  {
    forall a: Child :: a.key == key ==> (Sees(Calls(anchors, m, x), a) <==> Sees(Calls(anchors, m, y), a))
  }

  ghost predicate AllSameFor(anchors: Anchors, m: Mapping, key: Key) {
    forall x, y :: Valid(anchors, m, x) && Valid(anchors, m, y) ==> SameFor(anchors, m, key, x, y)
  }

  lemma {:induction false} UnionHasWinner(anchors: Anchors, m: Mapping, p: seq<Name>, key: Key) returns (child: Child)
    requires Chain(anchors, m, p) && Defines(End(anchors, m, p), key)
    ensures child.key == key && Winner(anchors, m, child)
    decreases |p|
  {
    if Defines(m, key) {
      child := KeyIsSeen(Own(m), key);
      assert Wins(anchors, m, [], child);
    } else {
      child := UnionHasWinner(anchors, anchors[p[0]], p[1..], key);
      var q :| Wins(anchors, anchors[p[0]], q, child);
      assert ([p[0]] + q)[1..] == q;
      assert Wins(anchors, m, [p[0]] + q, child);
    }
  }

  /** The iteration order does not matter to a key at all exactly when only one definition of it can win
      and, if there is any, it is reliably defined. */
  lemma OrderIrrelevantIff(anchors: Anchors, m: Mapping, key: Key)
    requires LoopFree(anchors, m)
    ensures AllSameFor(anchors, m, key)
            <==> OneWinner(anchors, m, key) && (InUnion(anchors, m, key) ==> ReliablyDefined(anchors, m, key))
  {
    AlwaysSeenIffReliable(anchors, m, key);
    AgreeIffOneWinner(anchors, m, key);
    if AllSameFor(anchors, m, key) {
      SameMeansAgree(anchors, m, key);
      if InUnion(anchors, m, key) {
        SameMeansSeen(anchors, m, key);
      }
    }
    if Agree(anchors, m, key) && (InUnion(anchors, m, key) ==> AlwaysSeen(anchors, m, key)) {
      AgreeMeansSame(anchors, m, key);
    }
  }

  lemma AgreeMeansSame(anchors: Anchors, m: Mapping, key: Key)
    requires Agree(anchors, m, key) && (InUnion(anchors, m, key) ==> AlwaysSeen(anchors, m, key))
    ensures AllSameFor(anchors, m, key)
  {
    forall x, y | Valid(anchors, m, x) && Valid(anchors, m, y)
      ensures SameFor(anchors, m, key, x, y)
    {
      SeenByOther(anchors, m, key, x, y);
      SeenByOther(anchors, m, key, y, x);
    }
  }

  lemma SameMeansAgree(anchors: Anchors, m: Mapping, key: Key)
    requires AllSameFor(anchors, m, key)
    ensures Agree(anchors, m, key)
  {
    forall x, y, a, b | Valid(anchors, m, x) && Valid(anchors, m, y) && Sees(Calls(anchors, m, x), a)
                        && Sees(Calls(anchors, m, y), b) && a.key == b.key == key
      ensures a == b
    {
      assert SameFor(anchors, m, key, x, y);
      SeenUnique(Calls(anchors, m, y), a, b);
    }
  }

  lemma SameMeansSeen(anchors: Anchors, m: Mapping, key: Key)
    requires AllSameFor(anchors, m, key)
    requires LoopFree(anchors, m) && InUnion(anchors, m, key)
    ensures AlwaysSeen(anchors, m, key)
  {
    var p :| Chain(anchors, m, p) && Defines(End(anchors, m, p), key);
    var child := UnionHasWinner(anchors, m, p, key);
    SeenIffWins(anchors, m, child);
    var x :| Valid(anchors, m, x) && Sees(Calls(anchors, m, x), child);
    forall y | Valid(anchors, m, y)
      ensures key in Keys(Calls(anchors, m, y))
    {
      assert SameFor(anchors, m, key, x, y);
      SeenKey(Calls(anchors, m, y), child);
    }
  }

  lemma SeenByOther(anchors: Anchors, m: Mapping, key: Key, x: Execution, y: Execution)
    requires Agree(anchors, m, key) && (InUnion(anchors, m, key) ==> AlwaysSeen(anchors, m, key))
    requires Valid(anchors, m, x) && Valid(anchors, m, y)
    ensures forall a: Child :: a.key == key && Sees(Calls(anchors, m, x), a) ==> Sees(Calls(anchors, m, y), a)
  {
    forall a: Child | a.key == key && Sees(Calls(anchors, m, x), a)
      ensures Sees(Calls(anchors, m, y), a)
    {
      SeenKey(Calls(anchors, m, x), a);
      SeenIsInUnion(anchors, m, x, key);
      var b := KeyIsSeen(Calls(anchors, m, y), key);
    }
  }

  /** So all iteration orders then agree on the definition seen for every key. */
  lemma OrderDoesNotMatter(anchors: Anchors, m: Mapping, x: Execution, a: Child, y: Execution, b: Child)
    requires SingleMerges(anchors, m) && Valid(anchors, m, x) && Valid(anchors, m, y)
    requires Sees(Calls(anchors, m, x), a) && Sees(Calls(anchors, m, y), b) && a.key == b.key
    ensures a == b
  {
    var p := SeenWins(anchors, m, x, |x.subs|, a);
    var q := SeenWins(anchors, m, y, |y.subs|, b);
    NearestDefinitionWins(anchors, m, p, a, q, b);
  }

  lemma SeenUnique(calls: seq<Child>, a: Child, b: Child)
    requires Sees(calls, a) && a.key == b.key
    ensures Sees(calls, b) <==> a == b
  {
    var i: nat :| SeenAt(calls, a, i);
    if Sees(calls, b) {
      var j: nat :| SeenAt(calls, b, j);
      assert i == j;
    }
  }

  lemma SingleBelow(anchors: Anchors, m: Mapping, name: Name)
    requires SingleMerges(anchors, m) && name in Merges(m) && name in anchors
    ensures SingleMerges(anchors, anchors[name])
  {
    MergesExact(m);
    forall p | Chain(anchors, anchors[name], p)
      ensures AtMostOne(Merges(End(anchors, anchors[name], p)))
    {
      assert ([name] + p)[1..] == p;
      assert Chain(anchors, m, [name] + p);
    }
  }
}
