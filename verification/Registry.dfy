/** The mock package registry as a state machine over values: what each request
    replies and what it leaves in memory and on disk. */
module Registry {
  import opened Wrappers
  import opened Dicts

  // ---------------------------------------------------------------- data

  /** A Python float, as far as comparisons with 80 go. */
  datatype Float = Finite(value: real) | Infinite | MinusInfinite | NaN

  /** `x < 80`; false for NaN. */
  predicate BelowMinimum(x: Float) {
    match x
    case Finite(v) => v < 80.0
    case MinusInfinite => true
    case _ => false
  }

  /** `x >= 80`; also false for NaN. */
  predicate AtLeastMinimum(x: Float) {
    match x
    case Finite(v) => v >= 80.0
    case Infinite => true
    case _ => false
  }

  type Key = (string, string)

  datatype Version = Version(
    name: string, version: string, treeDigest: string, proofDigest: string, coverage: Float, publishedAt: string,
    pkgId: Option<string>, manifestSignature: Option<string>, publisherKeyId: Option<string>,
    yanked: bool, yankReason: Option<string>)

  datatype Json = JStr(s: string) | JNum(f: Float) | JBool(b: bool)

  /** The keys of a row; FOther is any key that is no field of a version. */
  datatype Field =
    | FName | FVersion | FTreeDigest | FProofDigest | FCoverage | FPublishedAt | FYanked
    | FPkgId | FManifestSignature | FPublisherKeyId | FYankReason | FOther(text: string)

  type Row = map<Field, Json>

  datatype State = State(versions: Dict<Key, Version>, disk: Option<seq<Row>>)

  datatype Error = Error(code: string, status: nat, reason: Option<string>)

  datatype PublishBody = PublishBody(
    version: Option<string>, treeDigest: Option<string>, proofDigest: Option<string>, coverage: Option<Float>,
    pkgId: Option<string>, manifestSignature: Option<string>, publisherKeyId: Option<string>)

  datatype Op =
    | Publish(name: string, body: PublishBody, token: Option<string>, now: string)
    | Yank(name: string, version: string, reason: string, token: Option<string>, now: string)
    | GetVersion(name: string, version: string)
    | List(prefix: Option<string>, limit: int, offset: int, includeYanked: bool)

  datatype Reply =
    | Published(name: string, version: string, publishedAt: string)
    | Yanked(name: string, version: string, reason: string, yankedAt: string)
    | Found(row: Row)
    | Page(rows: seq<Row>, total: nat, limit: nat, offset: nat)
    | Failed(error: Error)

  /** Python truth of an optional string. */
  predicate Truthy(s: Option<string>) { s.Some? && s.value != "" }

  // ---------------------------------------------------------------- rows on disk

  function FieldValue(v: Version, f: Field): Option<Json> {
    match f
    case FName => Some(JStr(v.name))
    case FVersion => Some(JStr(v.version))
    case FTreeDigest => Some(JStr(v.treeDigest))
    case FProofDigest => Some(JStr(v.proofDigest))
    case FCoverage => Some(JNum(v.coverage))
    case FPublishedAt => Some(JStr(v.publishedAt))
    case FYanked => Some(JBool(v.yanked))
    case FPkgId => OptionalStr(v.pkgId)
    case FManifestSignature => OptionalStr(v.manifestSignature)
    case FPublisherKeyId => OptionalStr(v.publisherKeyId)
    case FYankReason => OptionalStr(v.yankReason)
    case FOther(_) => None
  }

  function OptionalStr(s: Option<string>): Option<Json> {
    if s.Some? then Some(JStr(s.value)) else None
  }

  const FIELDS := {FName, FVersion, FTreeDigest, FProofDigest, FCoverage, FPublishedAt, FYanked,
                   FPkgId, FManifestSignature, FPublisherKeyId, FYankReason}

  /** `to_dict`: every field that is not None. */
  function ToDict(v: Version): Row {
    map f | f in FIELDS && FieldValue(v, f).Some? :: FieldValue(v, f).value
  }

  predicate HasStr(row: Row, field: Field) { field in row && row[field].JStr? }

  function GetOptional(row: Row, field: Field): Option<string> {
    if HasStr(row, field) then Some(row[field].s) else None
  }

  /** `PackageVersion(**row)` on a row of well-typed fields; a missing or unknown field is an error. */
  function FromDict(row: Row): Option<Version> {
    if (forall f :: f in row ==> !f.FOther?) && HasStr(row, FName) && HasStr(row, FVersion) &&
       HasStr(row, FTreeDigest) && HasStr(row, FProofDigest) && FCoverage in row && row[FCoverage].JNum? &&
       HasStr(row, FPublishedAt)
    then Some(Version(
      row[FName].s, row[FVersion].s, row[FTreeDigest].s, row[FProofDigest].s, row[FCoverage].f,
      row[FPublishedAt].s, GetOptional(row, FPkgId), GetOptional(row, FManifestSignature),
      GetOptional(row, FPublisherKeyId),
      FYanked in row && row[FYanked].JBool? && row[FYanked].b, GetOptional(row, FYankReason)))
    else None
  }

  /** A row names every field of a version by its own key; the optional ones only if they are not None. */
  lemma RowIs(v: Version)
    ensures var row := ToDict(v);
            && row.Keys <= FIELDS
            && {FName, FVersion, FTreeDigest, FProofDigest, FCoverage, FPublishedAt, FYanked} <= row.Keys
            && row[FName] == JStr(v.name) && row[FVersion] == JStr(v.version)
            && row[FTreeDigest] == JStr(v.treeDigest) && row[FProofDigest] == JStr(v.proofDigest)
            && row[FCoverage] == JNum(v.coverage) && row[FPublishedAt] == JStr(v.publishedAt)
            && row[FYanked] == JBool(v.yanked)
            && OptionalIn(row, FPkgId, v.pkgId) && OptionalIn(row, FManifestSignature, v.manifestSignature)
            && OptionalIn(row, FPublisherKeyId, v.publisherKeyId) && OptionalIn(row, FYankReason, v.yankReason)
  {}

  predicate OptionalIn(row: Row, field: Field, value: Option<string>) {
    if value.None? then field !in row else field in row && row[field] == JStr(value.value)
  }

  /** A row of well-typed fields is refused exactly if it has an unknown key or lacks a required one. */
  lemma RowRefusedIff(row: Row)
    requires forall f :: f in row ==> WellTyped(f, row[f])
    ensures FromDict(row).None? <==>
            || (exists f :: f in row && f.FOther?)
            || !({FName, FVersion, FTreeDigest, FProofDigest, FCoverage, FPublishedAt} <= row.Keys)
  {}

  predicate WellTyped(field: Field, value: Json) {
    if field == FCoverage then value.JNum? else if field == FYanked then value.JBool? else value.JStr?
  }

  lemma DictRoundTrip(v: Version)
    ensures FromDict(ToDict(v)) == Some(v)
  {}

  /** `_save`: the values in dictionary order. */
  function Saved(versions: Dict<Key, Version>): (rows: seq<Row>)
    ensures |rows| == |versions|
  {
    seq(|versions|, i requires 0 <= i < |versions| => ToDict(versions[i].1))
  }

  /** `_load`: rows stored one after another under their own name and version. */
  function Loaded(rows: seq<Row>): (d: Option<Dict<Key, Version>>)
    ensures d.Some? ==> Distinct(d.value)
  {
    if rows == [] then Some([])
    else
      match (Loaded(rows[..|rows| - 1]), FromDict(rows[|rows| - 1]))
      case (Some(d), Some(v)) => Some(Put(d, (v.name, v.version), v))
      case _ => None
  }

  predicate KeysMatch(d: Dict<Key, Version>) {
    forall i :: 0 <= i < |d| ==> d[i].0 == (d[i].1.name, d[i].1.version)
  }

  lemma PutLast(d: Dict<Key, Version>)
    requires Distinct(d) && d != []
    ensures var n := |d| - 1; Put(d[..n], d[n].0, d[n].1) == d
  {
    var n := |d| - 1;
    assert Find(d[..n], d[n].0) == n;
    assert d == d[..n] + [d[n]];
  }

  /** Loading what was saved gives the same dictionary, order included. */
  lemma {:induction false} SaveLoadRoundTrip(d: Dict<Key, Version>)
    requires Distinct(d) && KeysMatch(d)
    ensures Loaded(Saved(d)) == Some(d)
  {
    if d != [] {
      var n := |d| - 1;
      SaveLoadRoundTrip(d[..n]);
      assert Saved(d)[..n] == Saved(d[..n]);
      DictRoundTrip(d[n].1);
      PutLast(d);
    }
  }

  lemma {:induction false} LoadedKeysMatch(rows: seq<Row>)
    requires Loaded(rows).Some?
    ensures KeysMatch(Loaded(rows).value)
  {
    if rows != [] { LoadedKeysMatch(rows[..|rows| - 1]); }
  }

  /** A file cannot be loaded exactly if one of its rows is bad. */
  lemma {:induction false} LoadFailsIff(rows: seq<Row>)
    ensures Loaded(rows).None? <==> exists i :: 0 <= i < |rows| && FromDict(rows[i]).None?
  {
    if rows != [] {
      var n := |rows| - 1;
      LoadFailsIff(rows[..n]);
      assert forall i :: 0 <= i < n ==> rows[..n][i] == rows[i];
    }
  }

  predicate RowFor(row: Row, key: Key) {
    FromDict(row).Some? && (FromDict(row).value.name, FromDict(row).value.version) == key
  }

  /** Of several rows for one version the last one counts. */
  lemma {:induction false} LastRowCounts(rows: seq<Row>, i: nat, key: Key)
    requires Loaded(rows).Some? && i < |rows| && RowFor(rows[i], key)
    requires forall j :: i < j < |rows| ==> !RowFor(rows[j], key)
    ensures Get(Loaded(rows).value, key) == FromDict(rows[i])
  {
    var n := |rows| - 1;
    var v := FromDict(rows[n]).value;
    GetPut(Loaded(rows[..n]).value, (v.name, v.version), v, key);
    if i < n { LastRowCounts(rows[..n], i, key); }
  }

  // ---------------------------------------------------------------- requests

  function Demo(now: string): Version {
    Version("pkg-ok", "0.1.0", "sha256:" + seq(64, _ => 'a'), "sha256:" + seq(64, _ => 'b'), Finite(85.0), now,
            Some("PKG-pkg-ok"), None, Some("demo-publisher"), false, None)
  }

  function Seeded(now: string): State {
    var versions := [(("pkg-ok", "0.1.0"), Demo(now))];
    State(versions, Some(Saved(versions)))
  }

  /** `MockRegistryStore.open`: load the file, or seed a demo entry if there is none. */
  function Opened(disk: Option<seq<Row>>, now: string): Option<State> {
    match disk
    case None => Some(Seeded(now))
    case Some(rows) =>
      match Loaded(rows)
      case None => None
      case Some(d) => Some(State(d, disk))
  }

  function Fail(code: string, status: nat): Reply { Failed(Error(code, status, None)) }

  /** Storing one entry writes the whole file. */
  function WriteThrough(s: State, v: Version): State {
    var versions := Put(s.versions, (v.name, v.version), v);
    State(versions, Some(Saved(versions)))
  }

  /** The record a publish creates. */
  function NewVersion(name: string, body: PublishBody, now: string): Version
    requires body.version.Some? && body.treeDigest.Some? && body.proofDigest.Some? && body.coverage.Some?
  {
    var publisher := if Truthy(body.publisherKeyId) then body.publisherKeyId else Some("stub-publisher");
    Version(name, body.version.value, body.treeDigest.value, body.proofDigest.value, body.coverage.value, now,
            body.pkgId, body.manifestSignature, publisher, false, None)
  }

  function DoPublish(s: State, name: string, body: PublishBody, token: Option<string>, now: string): (State, Reply) {
    if !Truthy(token) then (s, Fail("unauthorized", 401))
    else if !Truthy(body.version) then (s, Fail("bad_request", 400))
    else if !Truthy(body.treeDigest) || !Truthy(body.proofDigest) || body.coverage.None? then
      (s, Fail("bad_request", 400))
    else if BelowMinimum(body.coverage.value) then (s, Fail("forbidden", 403))
    else
      var version := body.version.value;
      match Get(s.versions, (name, version))
      case Some(existing) =>
        if existing.treeDigest != body.treeDigest.value then (s, Fail("conflict", 409))
        else (s, Published(name, version, existing.publishedAt))
      case None =>
        (WriteThrough(s, NewVersion(name, body, now)), Published(name, version, now))
  }

  function DoYank(s: State, name: string, version: string, reason: string, token: Option<string>, now: string)
    : (State, Reply)
  {
    if !Truthy(token) then (s, Fail("unauthorized", 401))
    else if reason == "" then (s, Fail("bad_request", 400))
    else
      match Get(s.versions, (name, version))
      case None => (s, Fail("not_found", 404))
      case Some(v) =>
        if v.yanked then (s, Fail("conflict", 409))
        else
          var versions := Put(s.versions, (name, version), v.(yanked := true, yankReason := Some(reason)));
          (State(versions, Some(Saved(versions))), Yanked(name, version, reason, now))
  }

  function DoGet(s: State, name: string, version: string): Reply {
    match Get(s.versions, (name, version))
    case None => Fail("not_found", 404)
    case Some(v) => if v.yanked then Failed(Error("gone", 410, v.yankReason)) else Found(ToDict(v))
  }

  /** A store without a file begins with the demo entry, in memory and on disk. */
  lemma SeedIsServed(now: string)
    ensures var s := Opened(None, now);
            && s.Some? && |s.value.versions| == 1 && s.value.disk == Some([ToDict(s.value.versions[0].1)])
            && var reply := DoGet(s.value, "pkg-ok", "0.1.0");
            && reply == Found(ToDict(Version("pkg-ok", "0.1.0", "sha256:" + seq(64, _ => 'a'),
                 "sha256:" + seq(64, _ => 'b'), Finite(85.0), now, Some("PKG-pkg-ok"), None, Some("demo-publisher"),
                 false, None)))
  {
    assert Saved([(("pkg-ok", "0.1.0"), Demo(now))]) == [ToDict(Demo(now))];
  }

  /** A store with a file has its rows, or cannot be opened if one of them is bad; the file stays as it is. */
  lemma OpenedFile(rows: seq<Row>, now: string)
    ensures Opened(Some(rows), now) == if Loaded(rows).None? then None else Some(State(Loaded(rows).value, Some(rows)))
  {}

  // ---------------------------------------------------------------- listing

  function Values(d: Dict<Key, Version>): seq<Version> {
    seq(|d|, i requires 0 <= i < |d| => d[i].1)
  }

  /** The two filters of a listing. */
  predicate Visible(v: Version, prefix: Option<string>, includeYanked: bool) {
    (Truthy(prefix) ==> prefix.value <= v.name) && (includeYanked || !v.yanked)
  }

  function Selected(vs: seq<Version>, prefix: Option<string>, includeYanked: bool): seq<Version> {
    if vs == [] then []
    else (if Visible(vs[0], prefix, includeYanked) then [vs[0]] else []) + Selected(vs[1..], prefix, includeYanked)
  }

  /** Python's order on strings. */
  predicate Less(a: string, b: string) {
    b != "" && (a == "" || a[0] < b[0] || (a[0] == b[0] && Less(a[1..], b[1..])))
  }

  /** The order of the pairs (name, version). */
  predicate Before(v: Version, w: Version) {
    Less(v.name, w.name) || (v.name == w.name && Less(v.version, w.version))
  }

  function InsertVersion(v: Version, sorted: seq<Version>): (out: seq<Version>)
    ensures multiset(out) == multiset{v} + multiset(sorted)
  {
    if sorted == [] || !Before(sorted[0], v) then [v] + sorted
    else
      assert sorted == [sorted[0]] + sorted[1..];
      [sorted[0]] + InsertVersion(v, sorted[1..])
  }

  function SortVersions(vs: seq<Version>): (out: seq<Version>)
    ensures multiset(out) == multiset(vs)
  {
    if vs == [] then []
    else
      assert vs == [vs[0]] + vs[1..];
      InsertVersion(vs[0], SortVersions(vs[1..]))
  }

  function Clamp(x: int, lo: int, hi: int): int {
    var m := if x < hi then x else hi;
    if lo > m then lo else m
  }

  /** The rows a listing pages through. */
  function Listing(s: State, prefix: Option<string>, includeYanked: bool): seq<Version> {
    SortVersions(Selected(Values(s.versions), prefix, includeYanked))
  }

  function Rows(vs: seq<Version>): seq<Row> {
    seq(|vs|, i requires 0 <= i < |vs| => ToDict(vs[i]))
  }

  /** A Python slice of non-negative bounds. */
  function Slice<T>(s: seq<T>, from: nat, to: nat): seq<T>
    requires from <= to
  {
    s[if from < |s| then from else |s| .. if to < |s| then to else |s|]
  }

  function DoList(s: State, prefix: Option<string>, limit: int, offset: int, includeYanked: bool): Reply {
    var l, o := Clamp(limit, 1, 500), if offset > 0 then offset else 0;
    var rows := Listing(s, prefix, includeYanked);
    Page(Rows(Slice(rows, o, o + l)), |rows|, l, o)
  }

  // ---------------------------------------------------------------- runs

  function Step(s: State, op: Op): (State, Reply) {
    match op
    case Publish(name, body, token, now) => DoPublish(s, name, body, token, now)
    case Yank(name, version, reason, token, now) => DoYank(s, name, version, reason, token, now)
    case GetVersion(name, version) => (s, DoGet(s, name, version))
    case List(prefix, limit, offset, includeYanked) => (s, DoList(s, prefix, limit, offset, includeYanked))
  }

  /** The state after a run and the replies it gave. */
  function Run(s: State, ops: seq<Op>): (State, seq<Reply>)
    decreases |ops|
  {
    if ops == [] then (s, [])
    else
      var (s', reply) := Step(s, ops[0]);
      var (end, replies) := Run(s', ops[1..]);
      (end, [reply] + replies)
  }

  /** Memory agrees with the file. */
  ghost predicate Persisted(s: State) {
    && Distinct(s.versions) && KeysMatch(s.versions)
    && s.disk.Some? && Loaded(s.disk.value) == Some(s.versions)
  }

  lemma OpenedIsPersisted(disk: Option<seq<Row>>, now: string)
    requires Opened(disk, now).Some?
    ensures Persisted(Opened(disk, now).value)
  {
    match disk
    case None => SaveLoadRoundTrip(Seeded(now).versions);
    case Some(rows) => LoadedKeysMatch(rows);
  }

  lemma PutKeepsKeysMatching(d: Dict<Key, Version>, v: Version)
    requires Distinct(d) && KeysMatch(d)
    ensures KeysMatch(Put(d, (v.name, v.version), v))
  {}

  lemma StepKeepsPersisted(s: State, op: Op)
    requires Persisted(s)
    ensures Persisted(Step(s, op).0)
  {
    var s' := Step(s, op).0;
    if s' != s {
      match op
      case Publish(name, body, token, now) =>
        SaveLoadRoundTrip(s'.versions);
      case Yank(name, version, reason, token, now) =>
        var v := Get(s.versions, (name, version)).value;
        GetAt(s.versions, Find(s.versions, (name, version)));
        PutKeepsKeysMatching(s.versions, v.(yanked := true, yankReason := Some(reason)));
        SaveLoadRoundTrip(s'.versions);
      case _ =>
    }
  }

  lemma {:induction false} RunKeepsPersisted(s: State, ops: seq<Op>)
    requires Persisted(s)
    ensures Persisted(Run(s, ops).0)
    decreases |ops|
  {
    if ops != [] {
      StepKeepsPersisted(s, ops[0]);
      RunKeepsPersisted(Step(s, ops[0]).0, ops[1..]);
    }
  }

  lemma {:induction false} RunSplits(s: State, before: seq<Op>, after: seq<Op>)
    ensures Run(s, before + after) ==
            (Run(Run(s, before).0, after).0, Run(s, before).1 + Run(Run(s, before).0, after).1)
    decreases |before|
  {
    if before == [] {
      assert before + after == after && [] + Run(s, after).1 == Run(s, after).1;
    } else {
      assert (before + after)[0] == before[0] && (before + after)[1..] == before[1..] + after;
      var (s', reply) := Step(s, before[0]);
      RunSplits(s', before[1..], after);
      assert [reply] + (Run(s', before[1..]).1 + Run(Run(s', before[1..]).0, after).1) ==
             [reply] + Run(s', before[1..]).1 + Run(Run(s', before[1..]).0, after).1;
    }
  }

  /** Restarting between any two requests is unobservable: the reopened store is the same state,
      so every later reply is the one the uninterrupted run gives. */
  lemma RestartIsUnobservable(disk: Option<seq<Row>>, start: string, before: seq<Op>, after: seq<Op>, restart: string)
    requires Opened(disk, start).Some?
    ensures var mid := Run(Opened(disk, start).value, before);
            && Opened(mid.0.disk, restart) == Some(mid.0)
            && Run(Opened(disk, start).value, before + after).1 ==
               mid.1 + Run(Opened(mid.0.disk, restart).value, after).1
  {
    OpenedIsPersisted(disk, start);
    RunKeepsPersisted(Opened(disk, start).value, before);
    RunSplits(Opened(disk, start).value, before, after);
  }

  // ---------------------------------------------------------------- immutability

  /** A later record of the same version: identical, or yanked once with a reason. */
  predicate Evolves(v: Version, w: Version) {
    || w == v
    || (!v.yanked && w == v.(yanked := true, yankReason := w.yankReason) && Truthy(w.yankReason))
  }

  /** What one request may do to the record of a key. */
  ghost predicate EvolvesTo(before: Dict<Key, Version>, after: Dict<Key, Version>, k: Key) {
    && (Has(before, k) ==> Has(after, k) && Evolves(Get(before, k).value, Get(after, k).value))
    && (!Has(before, k) && Has(after, k) ==>
         var v := Get(after, k).value;
         !v.yanked && !BelowMinimum(v.coverage) && v.name == k.0 && v.version == k.1)
  }

  lemma PublishEvolves(s: State, name: string, body: PublishBody, token: Option<string>, now: string, k: Key)
    requires Persisted(s)
    ensures EvolvesTo(s.versions, DoPublish(s, name, body, token, now).0.versions, k)
  {
    if DoPublish(s, name, body, token, now).0 != s {
      GetPut(s.versions, (name, body.version.value), NewVersion(name, body, now), k);
    }
  }

  lemma YankEvolves(s: State, name: string, version: string, reason: string, token: Option<string>, now: string, k: Key)
    requires Persisted(s)
    ensures EvolvesTo(s.versions, DoYank(s, name, version, reason, token, now).0.versions, k)
  {
    if Has(s.versions, (name, version)) {
      GetPut(s.versions, (name, version),
             Get(s.versions, (name, version)).value.(yanked := true, yankReason := Some(reason)), k);
    }
  }

  lemma StepEvolves(s: State, op: Op, k: Key)
    requires Persisted(s)
    ensures EvolvesTo(s.versions, Step(s, op).0.versions, k)
  {
    match op
    case Publish(name, body, token, now) => PublishEvolves(s, name, body, token, now, k);
    case Yank(name, version, reason, token, now) => YankEvolves(s, name, version, reason, token, now, k);
    case _ =>
  }

  /** Over any run a published version keeps its digests, coverage and publish time and never disappears;
      it is yanked at most once, with a reason, and never un-yanked. Versions that appear during the run
      passed the coverage check. */
  lemma {:induction false} VersionsAreImmutable(s: State, ops: seq<Op>, k: Key)
    requires Persisted(s)
    ensures var s' := Run(s, ops).0;
            && (Has(s.versions, k) ==>
                 Has(s'.versions, k) && Evolves(Get(s.versions, k).value, Get(s'.versions, k).value))
            && (!Has(s.versions, k) && Has(s'.versions, k) ==>
                 var v := Get(s'.versions, k).value; !BelowMinimum(v.coverage) && (v.yanked ==> Truthy(v.yankReason)))
    decreases |ops|
  {
    if ops != [] {
      StepEvolves(s, ops[0], k);
      StepKeepsPersisted(s, ops[0]);
      VersionsAreImmutable(Step(s, ops[0]).0, ops[1..], k);
    }
  }

  /** Every version of a store that began with the demo entry has coverage at least 80, unless it is NaN. */
  lemma CoverageIffNotNaN(now: string, ops: seq<Op>, k: Key)
    requires Has(Run(Seeded(now), ops).0.versions, k)
    ensures var c := Get(Run(Seeded(now), ops).0.versions, k).value.coverage;
            AtLeastMinimum(c) <==> c != NaN
  {
    OpenedIsPersisted(None, now);
    VersionsAreImmutable(Seeded(now), ops, k);
    if Has(Seeded(now).versions, k) { assert Get(Seeded(now).versions, k) == Some(Demo(now)); }
  }

  /** NaN passes the coverage check. */
  lemma NaNCoverageIsAccepted()
    ensures var body := PublishBody(Some("1.0.0"), Some("t"), Some("p"), Some(NaN), None, None, None);
            var (s, reply) := Step(Seeded(""), Publish("pkg", body, Some("tok"), "now"));
            reply == Published("pkg", "1.0.0", "now") && Get(s.versions, ("pkg", "1.0.0")).Some? &&
            !AtLeastMinimum(Get(s.versions, ("pkg", "1.0.0")).value.coverage)
  {
    var s := Seeded("");
    var v := Version("pkg", "1.0.0", "t", "p", NaN, "now", None, None, Some("stub-publisher"), false, None);
    assert s.versions[0].0.0[3] != "pkg"[0];
    assert |s.versions[0].0.0| != |"pkg"|;
    assert Get(s.versions, ("pkg", "1.0.0")) == None;
    GetPut(s.versions, ("pkg", "1.0.0"), v, ("pkg", "1.0.0"));
  }

  // ---------------------------------------------------------------- what a reply means for later ones

  /** A rejected request, and any read, changes nothing. */
  lemma FailureChangesNothing(s: State, op: Op)
    requires Step(s, op).1.Failed? || op.GetVersion? || op.List?
    ensures Step(s, op).0 == s
  {}

  /** A publish succeeds exactly for an authorised, complete body of sufficient coverage whose version is
      new or has the same tree; afterwards the version has that tree, and publishing again changes nothing
      and replies with the first publish time. */
  lemma PublishIsIdempotent(s: State, name: string, body: PublishBody, token: Option<string>, now: string,
                            later: string)
    requires Persisted(s)
    ensures var (s', reply) := DoPublish(s, name, body, token, now);
            && (reply.Published? <==>
                 Truthy(token) && Truthy(body.version) && Truthy(body.treeDigest) && Truthy(body.proofDigest) &&
                 body.coverage.Some? && !BelowMinimum(body.coverage.value) &&
                 var v := Get(s.versions, (name, body.version.value));
                 v.Some? ==> v.value.treeDigest == body.treeDigest.value)
            && (reply.Published? ==>
                 var v := Get(s'.versions, (name, body.version.value));
                 && v.Some? && v.value.treeDigest == body.treeDigest.value && v.value.publishedAt == reply.publishedAt
                 && DoPublish(s', name, body, token, later) == (s', reply))
  {
    var (s', reply) := DoPublish(s, name, body, token, now);
    if reply.Published? && s' != s {
      var key := (name, body.version.value);
      GetPut(s.versions, key, NewVersion(name, body, now), key);
    }
  }

  /** Why a publish is refused, in the order of the checks. */
  lemma PublishErrorIs(s: State, name: string, body: PublishBody, token: Option<string>, now: string)
    ensures var reply := DoPublish(s, name, body, token, now).1;
            if token == None || token == Some("") then reply == Fail("unauthorized", 401)
            else if body.version == None || body.version == Some("") || body.treeDigest == None ||
                    body.treeDigest == Some("") || body.proofDigest == None || body.proofDigest == Some("") ||
                    body.coverage == None
            then reply == Fail("bad_request", 400)
            else if body.coverage == Some(MinusInfinite) ||
                    (body.coverage.value.Finite? && body.coverage.value.value < 80.0)
            then reply == Fail("forbidden", 403)
            else
              match Get(s.versions, (name, body.version.value))
              case None => reply == Published(name, body.version.value, now)
              case Some(v) =>
                reply ==
                if v.treeDigest != body.treeDigest.value then Fail("conflict", 409)
                else Published(name, body.version.value, v.publishedAt)
  {}

  lemma YankErrorIs(s: State, name: string, version: string, reason: string, token: Option<string>, now: string)
    ensures var reply := DoYank(s, name, version, reason, token, now).1;
            if token == None || token == Some("") then reply == Fail("unauthorized", 401)
            else if reason == "" then reply == Fail("bad_request", 400)
            else Get(s.versions, (name, version)) == None <==> reply == Fail("not_found", 404)
  {}

  /** A get after the publish of a new version returns the body's own fields. */
  lemma GetAfterPublish(s: State, name: string, body: PublishBody, token: Option<string>, now: string)
    requires Persisted(s) && DoPublish(s, name, body, token, now).1.Published?
    requires Get(s.versions, (name, body.version.value)) == None
    ensures var reply := DoGet(DoPublish(s, name, body, token, now).0, name, body.version.value);
            && reply.Found?
            && var row := reply.row;
            && FName in row && row[FName] == JStr(name) && FVersion in row && row[FVersion] == JStr(body.version.value)
            && FTreeDigest in row && row[FTreeDigest] == JStr(body.treeDigest.value)
            && FProofDigest in row && row[FProofDigest] == JStr(body.proofDigest.value)
            && FCoverage in row && row[FCoverage] == JNum(body.coverage.value)
            && FPublishedAt in row && row[FPublishedAt] == JStr(now)
            && OptionalIn(row, FPkgId, body.pkgId) && OptionalIn(row, FManifestSignature, body.manifestSignature)
            && FPublisherKeyId in row
            && row[FPublisherKeyId] == JStr(if body.publisherKeyId == None || body.publisherKeyId == Some("")
                                            then "stub-publisher" else body.publisherKeyId.value)
            && FYanked in row && row[FYanked] == JBool(false) && FYankReason !in row
  {
    var key := (name, body.version.value);
    GetPut(s.versions, key, NewVersion(name, body, now), key);
    RowIs(NewVersion(name, body, now));
  }

  /** A version that is not yanked is served as it was published; yanking it succeeds once, and from then on
      it is gone with the reason given. */
  lemma YankThenGone(s: State, name: string, version: string, reason: string, token: Option<string>, now: string)
    requires Persisted(s) && Truthy(token) && reason != ""
    ensures var v := Get(s.versions, (name, version));
            var (s', reply) := DoYank(s, name, version, reason, token, now);
            if v.None? then reply == Fail("not_found", 404) && DoGet(s, name, version) == reply
            else if v.value.yanked then
              reply == Fail("conflict", 409) &&
              DoGet(s, name, version) == Failed(Error("gone", 410, v.value.yankReason))
            else
              && DoGet(s, name, version) == Found(ToDict(v.value)) && reply == Yanked(name, version, reason, now)
              && DoGet(s', name, version) == Failed(Error("gone", 410, Some(reason)))
              && DoYank(s', name, version, reason, token, now).1 == Fail("conflict", 409)
  {
    var v := Get(s.versions, (name, version));
    if v.Some? && !v.value.yanked {
      GetPut(s.versions, (name, version), v.value.(yanked := true, yankReason := Some(reason)), (name, version));
    }
  }

  // ---------------------------------------------------------------- pagination

  /** The order is by the first character that differs; a first part comes before the whole. */
  lemma {:induction false} LessIff(a: string, b: string)
    ensures Less(a, b) <==> exists k :: 0 <= k <= |a| && k < |b| && DiffersAt(a, b, k)
    decreases |a|
  {
    if a != "" && b != "" && a[0] == b[0] {
      LessIff(a[1..], b[1..]);
      forall k: nat | 0 < k <= |a| && k < |b| ensures DiffersAt(a, b, k) <==> DiffersAt(a[1..], b[1..], k - 1) {
        assert a[..k] == [a[0]] + a[1..][..k - 1] && b[..k] == [b[0]] + b[1..][..k - 1];
        assert a[1..][..k - 1] == a[..k][1..] && b[1..][..k - 1] == b[..k][1..];
      }
      if k :| 0 <= k <= |a[1..]| && k < |b[1..]| && DiffersAt(a[1..], b[1..], k) { assert DiffersAt(a, b, k + 1); }
    } else if b != "" {
      assert a[..0] == b[..0] == [];
      if Less(a, b) { assert DiffersAt(a, b, 0); }
      if k :| 0 <= k <= |a| && k < |b| && DiffersAt(a, b, k) { assert k > 0 ==> a[..k][0] == b[..k][0]; }
    }
  }

  predicate DiffersAt(a: string, b: string, k: nat)
    requires k <= |a| && k < |b|
  {
    a[..k] == b[..k] && (k == |a| || a[k] < b[k])
  }

  lemma {:induction false} LessIsTotal(a: string, b: string)
    ensures !(Less(a, b) && Less(b, a))
    ensures Less(a, b) || Less(b, a) || a == b
    decreases |a|
  {
    if a != "" && b != "" && a[0] == b[0] {
      LessIsTotal(a[1..], b[1..]);
      if a[1..] == b[1..] { assert a == [a[0]] + a[1..] && b == [b[0]] + b[1..]; }
    }
  }

  lemma {:induction false} LessIsTransitive(a: string, b: string, c: string)
    requires Less(a, b) && Less(b, c)
    ensures Less(a, c)
    decreases |a|
  {
    if a != "" && a[0] == b[0] == c[0] { LessIsTransitive(a[1..], b[1..], c[1..]); }
  }

  lemma BeforeIsTransitive(u: Version, v: Version, w: Version)
    requires Before(u, v) && Before(v, w)
    ensures Before(u, w)
  {
    if Less(u.name, v.name) && Less(v.name, w.name) { LessIsTransitive(u.name, v.name, w.name); }
    if Less(u.version, v.version) && Less(v.version, w.version) { LessIsTransitive(u.version, v.version, w.version); }
  }

  lemma BeforeIsTotal(v: Version, w: Version)
    requires (v.name, v.version) != (w.name, w.version)
    ensures Before(v, w) || Before(w, v)
  {
    LessIsTotal(v.name, w.name);
    LessIsTotal(v.version, w.version);
  }

  predicate Increasing(vs: seq<Version>) {
    forall i, j :: 0 <= i < j < |vs| ==> Before(vs[i], vs[j])
  }

  predicate DistinctKeys(vs: seq<Version>) {
    forall i, j :: 0 <= i < j < |vs| ==> (vs[i].name, vs[i].version) != (vs[j].name, vs[j].version)
  }

  lemma {:induction false} InsertIncreasing(v: Version, sorted: seq<Version>)
    requires Increasing(sorted)
    requires forall i :: 0 <= i < |sorted| ==> (sorted[i].name, sorted[i].version) != (v.name, v.version)
    ensures Increasing(InsertVersion(v, sorted))
  {
    var out := InsertVersion(v, sorted);
    if sorted == [] {
    } else if !Before(sorted[0], v) {
      BeforeIsTotal(v, sorted[0]);
      forall j | 1 <= j < |out| ensures Before(out[0], out[j]) {
        if j > 1 { BeforeIsTransitive(v, sorted[0], sorted[j - 1]); }
      }
    } else {
      InsertIncreasing(v, sorted[1..]);
      forall j | 1 <= j < |out| ensures Before(out[0], out[j]) {
        assert out[j] in multiset(out[1..]);
        assert out[j] == v || out[j] in sorted[1..];
      }
    }
  }

  lemma {:induction false} SortIncreasing(vs: seq<Version>)
    requires DistinctKeys(vs)
    ensures Increasing(SortVersions(vs))
  {
    if vs != [] {
      SortIncreasing(vs[1..]);
      var sorted := SortVersions(vs[1..]);
      forall i | 0 <= i < |sorted|
        ensures (sorted[i].name, sorted[i].version) != (vs[0].name, vs[0].version)
      {
        assert sorted[i] in multiset(vs[1..]);
      }
      InsertIncreasing(vs[0], sorted);
    }
  }

  lemma {:induction false} SelectedIs(vs: seq<Version>, prefix: Option<string>, includeYanked: bool)
    requires DistinctKeys(vs)
    ensures var sel := Selected(vs, prefix, includeYanked);
            && DistinctKeys(sel)
            && forall v :: v in sel <==> v in vs && Visible(v, prefix, includeYanked)
  {
    if vs != [] {
      var rest := Selected(vs[1..], prefix, includeYanked);
      SelectedIs(vs[1..], prefix, includeYanked);
      forall j | 0 <= j < |rest|
        ensures (vs[0].name, vs[0].version) != (rest[j].name, rest[j].version)
      {
        assert rest[j] in vs[1..];
      }
    }
  }

  lemma ValuesAre(d: Dict<Key, Version>)
    requires Distinct(d) && KeysMatch(d)
    ensures DistinctKeys(Values(d))
    ensures forall v :: v in Values(d) <==> Get(d, (v.name, v.version)) == Some(v)
  {
    var vs := Values(d);
    forall v
      ensures v in vs <==> Get(d, (v.name, v.version)) == Some(v)
    {
      if Get(d, (v.name, v.version)) == Some(v) {
        assert vs[Find(d, (v.name, v.version))] == v;
      }
      if v in vs {
        var i :| 0 <= i < |vs| && vs[i] == v;
        GetAt(d, i);
      }
    }
  }

  /** A listing holds exactly the stored versions whose name begins with the prefix, if one is given, without the
      yanked ones unless they are asked for: each once, in strictly increasing order of name and then version. */
  lemma ListingIsExact(s: State, prefix: Option<string>, includeYanked: bool)
    requires Persisted(s)
    ensures var l := Listing(s, prefix, includeYanked);
            && (forall i, j :: 0 <= i < j < |l| ==>
                 Less(l[i].name, l[j].name) || (l[i].name == l[j].name && Less(l[i].version, l[j].version)))
            && (forall v :: v in l <==>
                 && Get(s.versions, (v.name, v.version)) == Some(v) && (includeYanked || !v.yanked)
                 && (prefix == None || prefix == Some("") || prefix.value <= v.name))
  {
    var sel, l := Selected(Values(s.versions), prefix, includeYanked), Listing(s, prefix, includeYanked);
    ValuesAre(s.versions);
    SelectedIs(Values(s.versions), prefix, includeYanked);
    SortIncreasing(sel);
    forall v ensures v in l <==> v in sel {
      assert v in l <==> v in multiset(l);
    }
  }

  /** Asking for page after page until the offset reaches the total. */
  function Crawl(s: State, prefix: Option<string>, limit: int, includeYanked: bool, offset: nat): seq<Row>
    decreases |Listing(s, prefix, includeYanked)| - offset
  {
    var page := DoList(s, prefix, limit, offset, includeYanked);
    if offset >= page.total then []
    else page.rows + Crawl(s, prefix, limit, includeYanked, offset + page.limit)
  }

  lemma SliceThenRest(l: seq<Version>, offset: nat, n: nat)
    requires offset < |l|
    ensures Rows(l[offset..]) ==
            Rows(Slice(l, offset, offset + n)) + Rows(l[if offset + n < |l| then offset + n else |l|..])
  {}

  /** Every page reports the whole total and the clamped limit. */
  lemma PageIs(s: State, prefix: Option<string>, limit: int, includeYanked: bool, offset: nat)
    ensures var l, n := Listing(s, prefix, includeYanked), Clamp(limit, 1, 500);
            && n == (if limit < 1 then 1 else if limit > 500 then 500 else limit)
            && DoList(s, prefix, limit, offset, includeYanked) ==
               Page(Rows(Slice(l, offset, offset + n)), |l|, n, offset)
  {}

  /** The rows of a page are those of the listing from the offset on, as many as asked for or as there are; a negative
      offset is 0. */
  lemma PageRows(s: State, prefix: Option<string>, limit: int, includeYanked: bool, offset: int)
    ensures var l, page := Listing(s, prefix, includeYanked), DoList(s, prefix, limit, offset, includeYanked);
            && page.offset == (if offset < 0 then 0 else offset)
            && |page.rows| == (if |l| <= page.offset then 0
                               else if |l| - page.offset < page.limit then |l| - page.offset else page.limit)
            && forall i :: 0 <= i < |page.rows| ==> page.rows[i] == ToDict(l[page.offset + i])
  {
    SliceIs(Listing(s, prefix, includeYanked), if offset > 0 then offset else 0, Clamp(limit, 1, 500));
  }

  lemma SliceIs(l: seq<Version>, o: nat, n: nat)
    ensures var part := Slice(l, o, o + n);
            && |part| == (if |l| <= o then 0 else if |l| - o < n then |l| - o else n)
            && forall i :: 0 <= i < |part| ==> part[i] == l[o + i]
  {}

  predicate RowNames(row: Row, name: string, version: string) {
    FName in row && FVersion in row && row[FName] == JStr(name) && row[FVersion] == JStr(version)
  }

  /** After a yank no page of a default listing names the version, and one that includes yanked versions does. */
  lemma YankHidesVersion(s: State, name: string, version: string, reason: string, token: Option<string>, now: string,
                         prefix: Option<string>, limit: int, offset: int)
    requires Persisted(s) && DoYank(s, name, version, reason, token, now).1.Yanked?
    ensures var s' := DoYank(s, name, version, reason, token, now).0;
            && (forall row :: row in DoList(s', prefix, limit, offset, false).rows ==> !RowNames(row, name, version))
            && (prefix == None || prefix == Some("") || prefix.value <= name ==>
                 exists row :: row in Crawl(s', prefix, limit, true, 0) && RowNames(row, name, version))
  {
    var s' := DoYank(s, name, version, reason, token, now).0;
    YankStores(s, name, version, reason, token, now);
    NotOnPage(s', name, version, prefix, limit, offset);
    if prefix == None || prefix == Some("") || prefix.value <= name { OnSomePage(s', name, version, prefix, limit); }
  }

  lemma YankStores(s: State, name: string, version: string, reason: string, token: Option<string>, now: string)
    requires Persisted(s) && DoYank(s, name, version, reason, token, now).1.Yanked?
    ensures var s' := DoYank(s, name, version, reason, token, now).0;
            && Persisted(s') && Get(s'.versions, (name, version)).Some?
            && var w := Get(s'.versions, (name, version)).value;
            w.yanked && w.yankReason == Some(reason) && w.name == name && w.version == version
  {
    var key := (name, version);
    var v := Get(s.versions, key).value;
    GetAt(s.versions, Find(s.versions, key));
    GetPut(s.versions, key, v.(yanked := true, yankReason := Some(reason)), key);
    StepKeepsPersisted(s, Yank(name, version, reason, token, now));
  }

  lemma NotOnPage(s: State, name: string, version: string, prefix: Option<string>, limit: int, offset: int)
    requires Persisted(s) && Get(s.versions, (name, version)).Some? && Get(s.versions, (name, version)).value.yanked
    ensures forall row :: row in DoList(s, prefix, limit, offset, false).rows ==> !RowNames(row, name, version)
  {
    var l, page := Listing(s, prefix, false), DoList(s, prefix, limit, offset, false);
    ListingIsExact(s, prefix, false);
    PageRows(s, prefix, limit, false, offset);
    forall i | 0 <= i < |page.rows| ensures !RowNames(page.rows[i], name, version) {
      var v := l[page.offset + i];
      assert v in l;
      RowIs(v);
    }
  }

  lemma OnSomePage(s: State, name: string, version: string, prefix: Option<string>, limit: int)
    requires Persisted(s) && Get(s.versions, (name, version)).Some?
    requires prefix == None || prefix == Some("") || prefix.value <= name
    requires var v := Get(s.versions, (name, version)).value; v.name == name && v.version == version
    ensures exists row :: row in Crawl(s, prefix, limit, true, 0) && RowNames(row, name, version)
  {
    var l, v := Listing(s, prefix, true), Get(s.versions, (name, version)).value;
    ListingIsExact(s, prefix, true);
    PagesTile(s, prefix, limit, true, 0);
    assert v in l && l[0..] == l;
    var i :| 0 <= i < |l| && l[i] == v;
    RowIs(v);
    assert Rows(l)[i] == ToDict(v) && RowNames(ToDict(v), name, version);
  }

  lemma CrawlStep(s: State, prefix: Option<string>, limit: int, includeYanked: bool, offset: nat)
    ensures var l, n := Listing(s, prefix, includeYanked), Clamp(limit, 1, 500);
            Crawl(s, prefix, limit, includeYanked, offset) ==
            if offset >= |l| then []
            else Rows(Slice(l, offset, offset + n)) + Crawl(s, prefix, limit, includeYanked, offset + n)
  {
    PageIs(s, prefix, limit, includeYanked, offset);
  }

  /** The pages tile the listing, for every limit. */
  lemma {:induction false} PagesTile(s: State, prefix: Option<string>, limit: int, includeYanked: bool, offset: nat)
    ensures var l := Listing(s, prefix, includeYanked);
            Crawl(s, prefix, limit, includeYanked, offset) == Rows(l[if offset < |l| then offset else |l|..])
    decreases |Listing(s, prefix, includeYanked)| - offset
  {
    var l, n := Listing(s, prefix, includeYanked), Clamp(limit, 1, 500);
    CrawlStep(s, prefix, limit, includeYanked, offset);
    if offset < |l| {
      PagesTile(s, prefix, limit, includeYanked, offset + n);
      SliceThenRest(l, offset, n);
    } else {
      assert l[|l|..] == [];
    }
  }
}
