// Orb versions: GetVersionInfo of pkg/parser/remoteOrb.go and DiagnosticVersion of
// pkg/parser/validate/version.go.
//
// How a version text is read is a parameter (`parse`); what is compared is precedence as in section
// 11 of Semantic Versioning 2.0.0, with an invalid version below every valid one.

module Versions {
  import opened Common

  datatype Identifier = Numeric(n: nat) | Alphanumeric(s: string)

  datatype Version =
    | Invalid
    | Valid(major: nat, minor: nat, patch: nat, pre: seq<Identifier>)

  // ---------- precedence ----------

  function CompareNat(a: nat, b: nat): (r: int)
    ensures -1 <= r <= 1
  {
    if a < b then -1 else if a > b then 1 else 0
  }

  function CompareText(a: string, b: string): (r: int)
    ensures -1 <= r <= 1
  {
    if a == [] then (if b == [] then 0 else -1)
    else if b == [] then 1
    else if a[0] != b[0] then CompareNat(a[0] as nat, b[0] as nat)
    else CompareText(a[1..], b[1..])
  }

  // Numeric identifiers are below alphanumeric ones.
  function CompareIdentifier(a: Identifier, b: Identifier): (r: int)
    ensures -1 <= r <= 1
  {
    match (a, b)
    case (Numeric(m), Numeric(n)) => CompareNat(m, n)
    case (Numeric(_), Alphanumeric(_)) => -1
    case (Alphanumeric(_), Numeric(_)) => 1
    case (Alphanumeric(s), Alphanumeric(t)) => CompareText(s, t)
  }

  // A longer list of identifiers is above its prefixes.
  function CompareList(a: seq<Identifier>, b: seq<Identifier>): (r: int)
    ensures -1 <= r <= 1
  {
    if a == [] then (if b == [] then 0 else -1)
    else if b == [] then 1
    else if CompareIdentifier(a[0], b[0]) != 0 then CompareIdentifier(a[0], b[0])
    else CompareList(a[1..], b[1..])
  }

  // A pre-release is below the release.
  function ComparePre(a: seq<Identifier>, b: seq<Identifier>): (r: int)
    ensures -1 <= r <= 1
  {
    if a == [] then (if b == [] then 0 else 1)
    else if b == [] then -1
    else CompareList(a, b)
  }

  function Compare(a: Version, b: Version): (r: int)
    ensures -1 <= r <= 1
  {
    match (a, b)
    case (Invalid, Invalid) => 0
    case (Invalid, Valid(_, _, _, _)) => -1
    case (Valid(_, _, _, _), Invalid) => 1
    case (Valid(_, _, _, _), Valid(_, _, _, _)) =>
      if a.major != b.major then CompareNat(a.major, b.major)
      else if a.minor != b.minor then CompareNat(a.minor, b.minor)
      else if a.patch != b.patch then CompareNat(a.patch, b.patch)
      else ComparePre(a.pre, b.pre)
  }

  lemma {:induction false} TextOrder(a: string, b: string, c: string)
    ensures CompareText(a, b) == -CompareText(b, a) && CompareText(a, a) == 0
    ensures CompareText(a, b) <= 0 && CompareText(b, c) <= 0 ==> CompareText(a, c) <= 0
    ensures CompareText(a, b) == 0 <==> a == b
  {
    if a != [] && b != [] && a[0] == b[0] {
      if c != [] && c[0] == a[0] {
        TextOrder(a[1..], b[1..], c[1..]);
      } else {
        TextOrder(a[1..], b[1..], []);
      }
      assert a == [a[0]] + a[1..] && b == [b[0]] + b[1..];
    }
    if a != [] {
      TextReflexive(a);
    }
  }

  lemma {:induction false} TextReflexive(a: string)
    ensures CompareText(a, a) == 0
  {
    if a != [] {
      TextReflexive(a[1..]);
    }
  }

  lemma IdentifierOrder(a: Identifier, b: Identifier, c: Identifier)
    ensures CompareIdentifier(a, b) == -CompareIdentifier(b, a) && CompareIdentifier(a, a) == 0
    ensures CompareIdentifier(a, b) <= 0 && CompareIdentifier(b, c) <= 0 ==> CompareIdentifier(a, c) <= 0
    ensures CompareIdentifier(a, b) == 0 <==> a == b
  {
    if a.Alphanumeric? {
      TextReflexive(a.s);
      if b.Alphanumeric? {
        TextOrder(a.s, b.s, if c.Alphanumeric? then c.s else "");
      }
    }
  }

  lemma {:induction false} ListReflexive(a: seq<Identifier>)
    ensures CompareList(a, a) == 0
  {
    if a != [] {
      IdentifierOrder(a[0], a[0], a[0]);
      ListReflexive(a[1..]);
    }
  }

  lemma {:induction false} ListOrder(a: seq<Identifier>, b: seq<Identifier>, c: seq<Identifier>)
    ensures CompareList(a, b) == -CompareList(b, a)
    ensures CompareList(a, b) <= 0 && CompareList(b, c) <= 0 ==> CompareList(a, c) <= 0
  {
    if a != [] && b != [] {
      if c != [] {
        IdentifierOrder(a[0], b[0], c[0]);
        IdentifierOrder(b[0], c[0], a[0]);
        IdentifierOrder(a[0], c[0], b[0]);
        ListOrder(a[1..], b[1..], c[1..]);
      } else {
        IdentifierOrder(a[0], b[0], a[0]);
        ListOrder(a[1..], b[1..], []);
      }
    }
  }

  /** Precedence is a total preorder. */
  lemma CompareIsOrder(a: Version, b: Version, c: Version)
    ensures Compare(a, b) == -Compare(b, a) && Compare(a, a) == 0
    ensures Compare(a, b) <= 0 && Compare(b, c) <= 0 ==> Compare(a, c) <= 0
  {
    if a.Valid? {
      ListReflexive(a.pre);
      if b.Valid? {
        ListOrder(a.pre, b.pre, if c.Valid? then c.pre else []);
      }
    }
  }

  // ---------- section 11, clause by clause ----------

  /** Clause 2: major, minor and patch decide in this order, numerically. */
  predicate CoreBelow(a: Version, b: Version)
    requires a.Valid? && b.Valid?
  {
    || a.major < b.major
    || (a.major == b.major && a.minor < b.minor)
    || (a.major == b.major && a.minor == b.minor && a.patch < b.patch)
  }

  predicate SameCore(a: Version, b: Version)
    requires a.Valid? && b.Valid?
  {
    a.major == b.major && a.minor == b.minor && a.patch == b.patch
  }

  predicate TextBelowAt(a: string, b: string, k: nat) {
    k <= |a| && k < |b| && a[..k] == b[..k] && (k < |a| ==> a[k] < b[k])
  }

  /** Clause 4: numbers numerically, other identifiers by their characters, numbers below others. */
  ghost predicate IdentifierBelow(a: Identifier, b: Identifier) {
    || (a.Numeric? && b.Numeric? && a.n < b.n)
    || (a.Numeric? && b.Alphanumeric?)
    || (a.Alphanumeric? && b.Alphanumeric? && exists k: nat :: TextBelowAt(a.s, b.s, k))
  }

  /** The first identifier that differs decides; without one, fewer identifiers are below more. */
  ghost predicate ListBelowAt(a: seq<Identifier>, b: seq<Identifier>, k: nat) {
    k <= |a| && k < |b| && a[..k] == b[..k] && (k < |a| ==> IdentifierBelow(a[k], b[k]))
  }

  ghost predicate ListBelow(a: seq<Identifier>, b: seq<Identifier>) {
    exists k: nat :: ListBelowAt(a, b, k)
  }

  /** Clause 3: a pre-release is below its release. */
  ghost predicate PreBelow(a: seq<Identifier>, b: seq<Identifier>) {
    a != [] && (b == [] || ListBelow(a, b))
  }

  ghost predicate Precedes(a: Version, b: Version) {
    b.Valid? && (a.Invalid? || CoreBelow(a, b) || (SameCore(a, b) && PreBelow(a.pre, b.pre)))
  }

  lemma {:induction false} TextExact(a: string, b: string)
    ensures CompareText(a, b) < 0 <==> exists k: nat :: TextBelowAt(a, b, k)
  {
    if b == [] {
    } else if a == [] {
      assert TextBelowAt(a, b, 0);
    } else if a[0] != b[0] {
      assert TextBelowAt(a, b, 0) <==> a[0] < b[0];
      forall k: nat
        ensures TextBelowAt(a, b, k) ==> k == 0
      {
        TextHead(a, b, k);
      }
    } else {
      TextExact(a[1..], b[1..]);
      if k: nat :| TextBelowAt(a[1..], b[1..], k) {
        TextTail(a, b, k);
      }
      if k: nat :| TextBelowAt(a, b, k) {
        TextTail(a, b, k - 1);
      }
    }
  }

  lemma TextHead(a: string, b: string, k: nat)
    requires a != [] && b != []
    ensures TextBelowAt(a, b, k) ==> k == 0 || a[0] == b[0]
  {
    if TextBelowAt(a, b, k) && k > 0 {
      assert a[..k][0] == b[..k][0];
    }
  }

  lemma TextTail(a: string, b: string, k: nat)
    requires a != [] && b != [] && a[0] == b[0]
    ensures TextBelowAt(a[1..], b[1..], k) <==> TextBelowAt(a, b, k + 1)
  {
    if k < |a| && k + 1 <= |b| {
      assert a[..k + 1] == [a[0]] + a[1..][..k] && b[..k + 1] == [b[0]] + b[1..][..k];
      assert a[1..][..k] == a[..k + 1][1..] && b[1..][..k] == b[..k + 1][1..];
    }
  }

  lemma IdentifierExact(a: Identifier, b: Identifier)
    ensures CompareIdentifier(a, b) < 0 <==> IdentifierBelow(a, b)
  {
    if a.Alphanumeric? && b.Alphanumeric? {
      TextExact(a.s, b.s);
    }
  }

  lemma ListTail(a: seq<Identifier>, b: seq<Identifier>, k: nat)
    requires a != [] && b != [] && a[0] == b[0]
    ensures ListBelowAt(a[1..], b[1..], k) <==> ListBelowAt(a, b, k + 1)
  {
    if k < |a| && k + 1 <= |b| {
      assert a[..k + 1] == [a[0]] + a[1..][..k] && b[..k + 1] == [b[0]] + b[1..][..k];
      assert a[1..][..k] == a[..k + 1][1..] && b[1..][..k] == b[..k + 1][1..];
    }
  }

  lemma {:induction false} ListExact(a: seq<Identifier>, b: seq<Identifier>)
    ensures CompareList(a, b) < 0 <==> ListBelow(a, b)
  {
    if b == [] {
    } else if a == [] {
      assert ListBelowAt(a, b, 0);
    } else {
      IdentifierExact(a[0], b[0]);
      IdentifierOrder(a[0], b[0], a[0]);
      if a[0] != b[0] {
        assert ListBelowAt(a, b, 0) <==> IdentifierBelow(a[0], b[0]);
        forall k: nat
          ensures ListBelowAt(a, b, k) ==> k == 0
        {
          ListHead(a, b, k);
        }
      } else {
        ListExact(a[1..], b[1..]);
        if k: nat :| ListBelowAt(a[1..], b[1..], k) {
          ListTail(a, b, k);
        }
        if k: nat :| ListBelowAt(a, b, k) {
          SameNotBelow(a[0]);
          ListTail(a, b, k - 1);
        }
      }
    }
  }

  lemma ListHead(a: seq<Identifier>, b: seq<Identifier>, k: nat)
    requires a != [] && b != []
    ensures ListBelowAt(a, b, k) ==> k == 0 || a[0] == b[0]
  {
    if ListBelowAt(a, b, k) && k > 0 {
      assert a[..k][0] == b[..k][0];
    }
  }

  lemma SameNotBelow(a: Identifier)
    ensures !IdentifierBelow(a, a)
  {
    IdentifierOrder(a, a, a);
    IdentifierExact(a, a);
  }

  /** A version compares below another exactly when section 11 puts it there; an invalid one is below every
      valid one. */
  lemma PrecedenceExact(a: Version, b: Version)
    ensures Compare(a, b) < 0 <==> Precedes(a, b)
    ensures Compare(a, b) > 0 <==> Precedes(b, a)
  {
    CompareIsOrder(a, b, a);
    if a.Valid? && b.Valid? {
      ListExact(a.pre, b.pre);
      ListExact(b.pre, a.pre);
    }
  }

  function Major(v: Version): Option<nat> {
    if v.Valid? then Some(v.major) else None
  }

  function MajorMinor(v: Version): Option<(nat, nat)> {
    if v.Valid? then Some((v.major, v.minor)) else None
  }

  // ---------- the newest versions ----------

  datatype Scope = Everything | SameMajor | SameMinor

  predicate InScope(scope: Scope, v: Version, initial: Version) {
    match scope
    case Everything => true
    case SameMajor => Major(v) == Major(initial)
    case SameMinor => MajorMinor(v) == MajorMinor(initial)
  }

  /** The scopes narrow from all versions to those of one major, and of one major and minor version. */
  lemma ScopesExact(v: Version, initial: Version)
    ensures InScope(Everything, v, initial)
    ensures v.Valid? && initial.Valid? ==>
              && (InScope(SameMajor, v, initial) <==> v.major == initial.major)
              && (InScope(SameMinor, v, initial) <==> v.major == initial.major && v.minor == initial.minor)
    ensures v.Valid? != initial.Valid? ==> !InScope(SameMajor, v, initial) && !InScope(SameMinor, v, initial)
    ensures v.Invalid? && initial.Invalid? ==> InScope(SameMajor, v, initial) && InScope(SameMinor, v, initial)
  {
  }

  /** r is the given version or a listed one in scope that is above it, and no listed version in
      scope is above r. */
  ghost predicate Newest(parse: string -> Version, versions: seq<string>, initial: string, scope: Scope, r: string) {
    && (r == initial || exists k :: IsListed(parse, versions, initial, scope, r, k))
    && Compare(parse(initial), parse(r)) <= 0
    && forall k :: 0 <= k < |versions| && InScope(scope, parse("v" + versions[k]), parse(initial))
                   ==> Compare(parse("v" + versions[k]), parse(r)) <= 0
  }

  predicate IsListed(parse: string -> Version, versions: seq<string>, initial: string, scope: Scope,
                     r: string, k: int) {
    && 0 <= k < |versions| && r == "v" + versions[k]
    && InScope(scope, parse(r), parse(initial)) && Compare(parse(r), parse(initial)) > 0
  }

  // One more listed version: the maximum stays, or the new version takes its place.
  lemma NewestStep(parse: string -> Version, versions: seq<string>, version: string, initial: string, scope: Scope,
                   r: string)
    requires Newest(parse, versions, initial, scope, r)
    ensures var current := "v" + version;
            var better := InScope(scope, parse(current), parse(initial)) && Compare(parse(current), parse(r)) > 0;
            Newest(parse, versions + [version], initial, scope, if better then current else r)
  {
    var current, longer := "v" + version, versions + [version];
    assert longer[|versions|] == version;
    CompareIsOrder(parse(initial), parse(r), parse(current));
    CompareIsOrder(parse(r), parse(current), parse(initial));
    CompareIsOrder(parse(current), parse(initial), parse(r));
    CompareIsOrder(parse(current), parse(r), parse(initial));
    if InScope(scope, parse(current), parse(initial)) && Compare(parse(current), parse(r)) > 0 {
      assert IsListed(parse, longer, initial, scope, current, |versions|);
      forall k | 0 <= k < |longer| && InScope(scope, parse("v" + longer[k]), parse(initial))
        ensures Compare(parse("v" + longer[k]), parse(current)) <= 0
      {
        CompareIsOrder(parse("v" + longer[k]), parse(r), parse(current));
      }
    } else if r != initial {
      var k :| IsListed(parse, versions, initial, scope, r, k);
      assert IsListed(parse, longer, initial, scope, r, k);
    }
  }

  /** The three maxima the source keeps: over all versions, those of the same major, and those of the
      same major and minor version. */
  ghost predicate NewestOfAll(parse: string -> Version, versions: seq<string>, initial: string,
                              latest: string, latestMinor: string, latestPatch: string) {
    && Newest(parse, versions, initial, Everything, latest)
    && Newest(parse, versions, initial, SameMajor, latestMinor)
    && Newest(parse, versions, initial, SameMinor, latestPatch)
  }

  function Better(parse: string -> Version, version: string, initial: string, scope: Scope, r: string): string {
    var current := "v" + version;
    if InScope(scope, parse(current), parse(initial)) && Compare(parse(current), parse(r)) > 0 then current else r
  }

  lemma NewestOfAllStep(parse: string -> Version, versions: seq<string>, version: string, initial: string,
                        latest: string, latestMinor: string, latestPatch: string)
    requires NewestOfAll(parse, versions, initial, latest, latestMinor, latestPatch)
    ensures NewestOfAll(parse, versions + [version], initial,
                        Better(parse, version, initial, Everything, latest),
                        Better(parse, version, initial, SameMajor, latestMinor),
                        Better(parse, version, initial, SameMinor, latestPatch))
  {
    NewestStep(parse, versions, version, initial, Everything, latest);
    NewestStep(parse, versions, version, initial, SameMajor, latestMinor);
    NewestStep(parse, versions, version, initial, SameMinor, latestPatch);
  }

  // The listed versions come without the leading v, the initial one with it.
  method GetVersionInfo(parse: string -> Version, versions: seq<string>, initialVersion: string)
    returns (latest: string, latestMinor: string, latestPatch: string)
    ensures NewestOfAll(parse, versions, initialVersion, latest, latestMinor, latestPatch)
  {
    latest := initialVersion;
    latestMinor := latest;
    latestPatch := latest;
    var major := Major(parse(latest));
    var minor := MajorMinor(parse(latest));
    CompareIsOrder(parse(latest), parse(latest), parse(latest));
    for i := 0 to |versions|
      invariant NewestOfAll(parse, versions[..i], initialVersion, latest, latestMinor, latestPatch)
    {
      assert versions[..i + 1] == versions[..i] + [versions[i]];
      NewestOfAllStep(parse, versions[..i], versions[i], initialVersion, latest, latestMinor, latestPatch);
      latest, latestMinor, latestPatch :=
        Consider(parse, versions[i], initialVersion, major, minor, latest, latestMinor, latestPatch);
    }
    assert versions[..|versions|] == versions;
  }

  // The body of the loop, for one listed version.
  method Consider(parse: string -> Version, version: string, ghost initial: string, major: Option<nat>,
                  minor: Option<(nat, nat)>, latest0: string, latestMinor0: string, latestPatch0: string)
    returns (latest: string, latestMinor: string, latestPatch: string)
    requires major == Major(parse(initial)) && minor == MajorMinor(parse(initial))
    ensures latest == Better(parse, version, initial, Everything, latest0)
    ensures latestMinor == Better(parse, version, initial, SameMajor, latestMinor0)
    ensures latestPatch == Better(parse, version, initial, SameMinor, latestPatch0)
  {
    latest, latestMinor, latestPatch := latest0, latestMinor0, latestPatch0;
    var current := "v" + version;
    if Compare(parse(current), parse(latest)) == 1 {
      latest := current;
    }
    if Major(parse(current)) != major {
      return;
    }
    if Compare(parse(current), parse(latestMinor)) == 1 {
      latestMinor := current;
    }
    if MajorMinor(parse(current)) != minor {
      return;
    }
    if Compare(parse(current), parse(latestPatch)) == 1 {
      latestPatch := current;
    }
  }

  /** The maxima are nested: patch at most minor, minor at most latest. */
  lemma NewestNested(parse: string -> Version, versions: seq<string>, initial: string,
                     latest: string, latestMinor: string, latestPatch: string)
    requires NewestOfAll(parse, versions, initial, latest, latestMinor, latestPatch)
    ensures Compare(parse(latestPatch), parse(latestMinor)) <= 0
    ensures Compare(parse(latestMinor), parse(latest)) <= 0
  {
    if latestPatch != initial {
      var k :| IsListed(parse, versions, initial, SameMinor, latestPatch, k);
    }
    if latestMinor != initial {
      var k :| IsListed(parse, versions, initial, SameMajor, latestMinor, k);
    }
  }

  /** The order of the list, and repetitions in it, matter only up to equal precedence. */
  lemma NewestOrderIndependent(parse: string -> Version, versions: seq<string>, other: seq<string>,
                               initial: string, scope: Scope, r: string, q: string)
    requires forall v :: v in versions <==> v in other
    requires Newest(parse, versions, initial, scope, r) && Newest(parse, other, initial, scope, q)
    ensures Compare(parse(r), parse(q)) == 0
  {
    CompareIsOrder(parse(r), parse(q), parse(r));
    NewestBelow(parse, versions, other, initial, scope, r, q);
    NewestBelow(parse, other, versions, initial, scope, q, r);
  }

  lemma NewestBelow(parse: string -> Version, versions: seq<string>, other: seq<string>,
                    initial: string, scope: Scope, r: string, q: string)
    requires forall v :: v in versions <==> v in other
    requires Newest(parse, versions, initial, scope, r) && Newest(parse, other, initial, scope, q)
    ensures Compare(parse(r), parse(q)) <= 0
  {
    if r != initial {
      var k :| IsListed(parse, versions, initial, scope, r, k);
      assert versions[k] in other;
      var j :| 0 <= j < |other| && other[j] == versions[k];
    }
  }

  // ---------- the diagnosis ----------

  datatype Severity = Warning | Information

  datatype InfoVersions = InfoVersions(latestVersion: string, latestMinorVersion: string, latestPatchVersion: string)

  function Listing(title: string, version: string): string {
    title + version + "\n"
  }

  function DiagnosticVersion(parse: string -> Version, version: string, info: InfoVersions): (string, Severity) {
    var current, last := Listing("- Current: ", version), "- Latest:  " + info.latestVersion;
    var minor := if info.latestVersion != info.latestMinorVersion then
                   Listing("- Minor:   ", info.latestMinorVersion) else "";
    var patch := if minor != "" && info.latestMinorVersion != info.latestPatchVersion then
                   Listing("- Patch:   ", info.latestPatchVersion) else "";
    if Major(parse("v" + version)) == Some(0) && Major(parse("v" + info.latestVersion)) != Some(0) then
      ("A production version has been released. Latest: " + info.latestVersion, Warning)
    else if info.latestPatchVersion != version then
      ("A newer patched version exists.\n" + current + (patch + minor) + last, Warning)
    else if info.latestMinorVersion != version then
      ("A newer minor version exists.\n" + current + minor + last, Information)
    else if info.latestVersion != version then
      ("A newer major version exists.\n" + current + "" + last, Information)
    else ("", Information)
  }

  // The strings compare like the versions: a maximum differs from the given version exactly when
  // some listed version in scope is above it.
  lemma NewestDiffers(parse: string -> Version, versions: seq<string>, version: string, scope: Scope, r: string)
    requires Newest(parse, versions, "v" + version, scope, "v" + r)
    ensures r != version <==> exists k :: IsNewer(parse, versions, version, scope, k)
  {
    var initial := "v" + version;
    assert initial[1..] == version && ("v" + r)[1..] == r;
    if r != version {
      var k :| IsListed(parse, versions, initial, scope, "v" + r, k);
      assert IsNewer(parse, versions, version, scope, k);
    }
  }

  predicate IsNewer(parse: string -> Version, versions: seq<string>, version: string, scope: Scope, k: int) {
    && 0 <= k < |versions|
    && InScope(scope, parse("v" + versions[k]), parse("v" + version))
    && Compare(parse("v" + versions[k]), parse("v" + version)) > 0
  }

  /** A listed production version. */
  predicate IsProduction(parse: string -> Version, versions: seq<string>, k: int) {
    0 <= k < |versions| && Major(parse("v" + versions[k])).Some? && Major(parse("v" + versions[k])).value > 0
  }

  /** The diagnosis of a version against the list it was compared with: silent exactly when nothing
      listed is above it, and a warning exactly when it is a 0.x version with a production version
      listed, or a patch above it is listed. */
  lemma DiagnosisExact(parse: string -> Version, versions: seq<string>, version: string, info: InfoVersions)
    requires NewestOfAll(parse, versions, "v" + version, "v" + info.latestVersion,
                         "v" + info.latestMinorVersion, "v" + info.latestPatchVersion)
    ensures var (message, severity) := DiagnosticVersion(parse, version, info);
            && (message == "" <==> !exists k :: IsNewer(parse, versions, version, Everything, k))
            && (severity == Warning
                <==> (Major(parse("v" + version)) == Some(0) && exists k :: IsProduction(parse, versions, k))
                     || exists k :: IsNewer(parse, versions, version, SameMinor, k))
  {
    NewestDiffers(parse, versions, version, Everything, info.latestVersion);
    NewestDiffers(parse, versions, version, SameMajor, info.latestMinorVersion);
    NewestDiffers(parse, versions, version, SameMinor, info.latestPatchVersion);
    if k :| IsNewer(parse, versions, version, SameMinor, k) {
      assert IsNewer(parse, versions, version, Everything, k);
    }
    if k :| IsNewer(parse, versions, version, SameMajor, k) {
      assert IsNewer(parse, versions, version, Everything, k);
    }
    if Major(parse("v" + version)) == Some(0) {
      ProductionIsLatest(parse, versions, version, info.latestVersion);
    }
    MessageEmpty(parse, version, info);
  }

  lemma MessageEmpty(parse: string -> Version, version: string, info: InfoVersions)
    ensures DiagnosticVersion(parse, version, info).0 == ""
            <==> !(Major(parse("v" + version)) == Some(0) && Major(parse("v" + info.latestVersion)) != Some(0))
                 && info.latestPatchVersion == info.latestMinorVersion == info.latestVersion == version
  {
    assert |DiagnosticVersion(parse, version, info).0| > 0
           <==> DiagnosticVersion(parse, version, info).0 != "";
  }

  lemma ProductionIsLatest(parse: string -> Version, versions: seq<string>, version: string, latest: string)
    requires Newest(parse, versions, "v" + version, Everything, "v" + latest)
    requires Major(parse("v" + version)) == Some(0)
    ensures Major(parse("v" + latest)) != Some(0) <==> exists k :: IsProduction(parse, versions, k)
    ensures Major(parse("v" + latest)) != Some(0) ==> latest != version
  {
    if Major(parse("v" + latest)) != Some(0) {
      var k :| IsListed(parse, versions, "v" + version, Everything, "v" + latest, k);
      assert IsProduction(parse, versions, k);
    }
    if k :| IsProduction(parse, versions, k) {
      assert InScope(Everything, parse("v" + versions[k]), parse("v" + version));
      assert Compare(parse("v" + versions[k]), parse("v" + latest)) <= 0;
    }
  }

  // ---------- what the diagnosis says ----------

  predicate Ends(message: string, tail: string) {
    |tail| <= |message| && message[|message| - |tail|..] == tail
  }

  predicate Says(message: string, line: string, i: int) {
    0 <= i <= i + |line| <= |message| && message[i..i + |line|] == line
  }

  ghost predicate Mentions(message: string, line: string) {
    exists i :: Says(message, line, i)
  }

  lemma EndsConcat(a: string, b: string)
    ensures Ends(a + b, b)
  {
    assert (a + b)[|a + b| - |b|..] == b;
  }

  lemma MentionsMiddle(a: string, line: string, b: string)
    ensures Mentions(a + line + b, line)
  {
    assert (a + line + b)[|a|..|a| + |line|] == line;
    assert Says(a + line + b, line, |a|);
  }

  /** The headline, the version in use, what else is listed, and the latest version at the end. */
  ghost predicate Reports(message: string, headline: string, version: string, listed: set<string>, latest: string) {
    && headline <= message && Ends(message, "- Latest:  " + latest)
    && Mentions(message, "- Current: " + version + "\n")
    && forall line :: line in listed ==> Mentions(message, line)
  }

  // The parts of a message, one at a time.
  lemma FirstPart(h: string, c: string, m: string, l: string)
    ensures h <= h + c + m + l && Ends(h + c + m + l, l) && Mentions(h + c + m + l, c)
  {
    EndsConcat(h + c + m, l);
    MentionsMiddle(h, c, m + l);
    assert h + c + m + l == h + c + (m + l);
    assert h <= h + (c + (m + l));
  }

  lemma MiddleLeft(h: string, a: string, b: string, l: string)
    ensures Mentions(h + (a + b) + l, a)
  {
    MentionsMiddle(h, a, b + l);
    assert h + (a + b) + l == h + a + (b + l);
  }

  lemma MiddleRight(h: string, a: string, b: string, l: string)
    ensures Mentions(h + (a + b) + l, b)
  {
    MentionsMiddle(h + a, b, l);
    assert h + (a + b) + l == h + a + b + l;
  }

  lemma MessageReports(headline: string, version: string, a: string, b: string, latest: string)
    ensures Reports(headline + Listing("- Current: ", version) + (a + b) + ("- Latest:  " + latest),
                    headline, version, {a, b}, latest)
  {
    var current, last := Listing("- Current: ", version), "- Latest:  " + latest;
    FirstPart(headline, current, a + b, last);
    MiddleLeft(headline + current, a, b, last);
    MiddleRight(headline + current, a, b, last);
  }

  /** The minor version is listed unless it is the latest, the patch unless it is the minor one besides. */
  function MinorLine(info: InfoVersions): set<string> {
    if info.latestVersion == info.latestMinorVersion then {}
    else {"- Minor:   " + info.latestMinorVersion + "\n"}
  }

  function PatchLine(info: InfoVersions): set<string> {
    if info.latestVersion == info.latestMinorVersion || info.latestMinorVersion == info.latestPatchVersion then {}
    else {"- Patch:   " + info.latestPatchVersion + "\n"}
  }

  ghost predicate ListsNewer(parse: string -> Version, versions: seq<string>, version: string, scope: Scope) {
    exists k :: IsNewer(parse, versions, version, scope, k)
  }

  /** The message for a 0.x version with a production version out, else for the narrowest scope with
      something newer. */
  ghost predicate Tells(message: string, version: string, info: InfoVersions,
                        production: bool, newPatch: bool, newMinor: bool, newAny: bool) {
    if production then message == "A production version has been released. Latest: " + info.latestVersion
    else if newPatch then
      Reports(message, "A newer patched version exists.\n", version, MinorLine(info) + PatchLine(info),
              info.latestVersion)
    else if newMinor then
      Reports(message, "A newer minor version exists.\n", version, MinorLine(info), info.latestVersion)
    else if newAny then Reports(message, "A newer major version exists.\n", version, {}, info.latestVersion)
    else message == ""
  }

  lemma MessageText(parse: string -> Version, version: string, info: InfoVersions)
    ensures Tells(DiagnosticVersion(parse, version, info).0, version, info,
                  Major(parse("v" + version)) == Some(0) && Major(parse("v" + info.latestVersion)) != Some(0),
                  info.latestPatchVersion != version, info.latestMinorVersion != version,
                  info.latestVersion != version)
  {
    var latest := info.latestVersion;
    var minor := if latest != info.latestMinorVersion then Listing("- Minor:   ", info.latestMinorVersion) else "";
    var patch := if minor != "" && info.latestMinorVersion != info.latestPatchVersion then
                   Listing("- Patch:   ", info.latestPatchVersion) else "";
    MessageReports("A newer patched version exists.\n", version, patch, minor, latest);
    MessageReports("A newer minor version exists.\n", version, "", minor, latest);
    MessageReports("A newer major version exists.\n", version, "", "", latest);
    assert "" + minor == minor && "" + "" == "";
  }

  /** Which message is given, and what it lists, told from the versions listed. */
  lemma DiagnosisText(parse: string -> Version, versions: seq<string>, version: string, info: InfoVersions)
    requires NewestOfAll(parse, versions, "v" + version, "v" + info.latestVersion,
                         "v" + info.latestMinorVersion, "v" + info.latestPatchVersion)
    ensures Tells(DiagnosticVersion(parse, version, info).0, version, info,
                  Major(parse("v" + version)) == Some(0) && exists k :: IsProduction(parse, versions, k),
                  ListsNewer(parse, versions, version, SameMinor), ListsNewer(parse, versions, version, SameMajor),
                  ListsNewer(parse, versions, version, Everything))
  {
    MessageText(parse, version, info);
    ConditionsAgree(parse, versions, version, info);
  }

  lemma ConditionsAgree(parse: string -> Version, versions: seq<string>, version: string, info: InfoVersions)
    requires NewestOfAll(parse, versions, "v" + version, "v" + info.latestVersion,
                         "v" + info.latestMinorVersion, "v" + info.latestPatchVersion)
    ensures info.latestPatchVersion != version <==> ListsNewer(parse, versions, version, SameMinor)
    ensures info.latestMinorVersion != version <==> ListsNewer(parse, versions, version, SameMajor)
    ensures info.latestVersion != version <==> ListsNewer(parse, versions, version, Everything)
    ensures Major(parse("v" + version)) == Some(0) ==>
              (Major(parse("v" + info.latestVersion)) != Some(0) <==> exists k :: IsProduction(parse, versions, k))
  {
    NewestDiffers(parse, versions, version, Everything, info.latestVersion);
    NewestDiffers(parse, versions, version, SameMajor, info.latestMinorVersion);
    NewestDiffers(parse, versions, version, SameMinor, info.latestPatchVersion);
    if Major(parse("v" + version)) == Some(0) {
      ProductionIsLatest(parse, versions, version, info.latestVersion);
    }
  }
}
