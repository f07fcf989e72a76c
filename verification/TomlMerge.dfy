/** The layered configuration merge of the HTTP benchmark harness:
    defaults, then a scenario file, then dotted `--set` overrides. */
module TomlMerge {
  import opened Wrappers
  import Text

  /** A decoded TOML value. Everything that is not a table is a scalar here. */
  datatype Value = Scalar(text: string) | Table(entries: Entries)
  type Entries = map<string, Value>
  type Path = seq<string>

  // ---------------------------------------------------------------- lookup

  /** The value found by following a dotted path down nested tables. */
  function Lookup(v: Value, path: Path): Option<Value>
    decreases |path|
  {
    if path == [] then Some(v)
    else if v.Table? && path[0] in v.entries then Lookup(v.entries[path[0]], path[1..])
    else None
  }

  /** Some proper prefix of the path already holds a scalar. */
  predicate Blocks(v: Value, path: Path)
    decreases |path|
  {
    path != [] && (v.Scalar? || (path[0] in v.entries && Blocks(v.entries[path[0]], path[1..])))
  }

  // ---------------------------------------------------------------- deep_merge

  /** The value a merge holds at one key of either side. */
  function MergedAt(base: Entries, overlay: Entries, key: string): Value
    requires key in base || key in overlay
    decreases Table(overlay), 0
  {
    if key !in overlay then base[key]
    else if key in base && base[key].Table? && overlay[key].Table?
    then Table(Merged(base[key].entries, overlay[key].entries))
    else overlay[key]
  }

  function Merged(base: Entries, overlay: Entries): Entries
    decreases Table(overlay), 1
  {
    map key | key in base.Keys + overlay.Keys :: MergedAt(base, overlay, key)
  }

  /** Keys of the overlay are visited in any order; the copy `out` is filled in place. */
  method DeepMerge(base: Entries, overlay: Entries) returns (out: Entries)
    ensures out == Merged(base, overlay)
    decreases Table(overlay)
  {
    out := base;
    var todo := overlay.Keys;
    while todo != {}
      invariant todo <= overlay.Keys
      invariant out.Keys == base.Keys + (overlay.Keys - todo)
      invariant forall k :: k in out && k !in overlay.Keys - todo ==> out[k] == base[k]
      invariant forall k :: k in overlay.Keys - todo ==> out[k] == MergedAt(base, overlay, k)
    {
      var key :| key in todo;
      var val := overlay[key];
      if key in out && out[key].Table? && val.Table? {
        var sub := DeepMerge(out[key].entries, val.entries);
        out := out[key := Table(sub)];
      } else {
        out := out[key := val];
      }
      todo := todo - {key};
    }
  }

  /** What a merge means, path by path: the overlay wins wherever it reaches,
      hides what lies below its scalars, and leaves every other path alone. */
  lemma {:induction false} MergeLookup(base: Entries, overlay: Entries, path: Path)
    requires path != []
    ensures Lookup(Table(Merged(base, overlay)), path) ==
            match (Lookup(Table(base), path), Lookup(Table(overlay), path))
            case (Some(Table(b)), Some(Table(o))) => Some(Table(Merged(b, o)))
            case (_, Some(o)) => Some(o)
            case (b, None) => if Blocks(Table(overlay), path) then None else b
    decreases |path|
  {
    var k, rest := path[0], path[1..];
    if k in overlay && k in base && rest != [] {
      match (base[k], overlay[k])
      case (Table(b), Table(o)) => MergeLookup(b, o, rest);
      case _ =>
    } else if k in overlay && overlay[k].Table? && rest != [] {
      LookupOrBlocked(overlay[k].entries, rest);
    }
  }

  lemma LookupOrBlocked(t: Entries, path: Path)
    ensures Lookup(Table(t), path).Some? ==> !Blocks(Table(t), path)
    decreases |path|
  {
    if path != [] && path[0] in t {
      match t[path[0]]
      case Table(sub) => LookupOrBlocked(sub, path[1..]);
      case Scalar(_) => assert Lookup(t[path[0]], path[1..]).Some? ==> path[1..] == [];
    }
  }

  /** The empty table is an identity on both sides, and merging an overlay twice is merging it once. */
  lemma {:induction false} MergeIdentityAndIdempotence(base: Entries, overlay: Entries)
    ensures Merged(map[], base) == base == Merged(base, map[])
    ensures Merged(Merged(base, overlay), overlay) == Merged(base, overlay)
    decreases Table(overlay)
  {
    assert Merged(map[], base) == base;
    assert Merged(base, map[]) == base;
    var once := Merged(base, overlay);
    forall k | k in once
      ensures MergedAt(once, overlay, k) == once[k]
    {
      assert once[k] == MergedAt(base, overlay, k);
      if k in overlay && overlay[k].Table? {
        if k in base && base[k].Table? {
          MergeIdentityAndIdempotence(base[k].entries, overlay[k].entries);
        } else {
          MergedSelf(overlay[k].entries);
        }
      }
    }
  }

  lemma {:induction false} MergedSelf(t: Entries)
    ensures Merged(t, t) == t
    decreases Table(t)
  {
    forall k | k in t
      ensures MergedAt(t, t, k) == t[k]
    {
      if t[k].Table? { MergedSelf(t[k].entries); }
    }
  }

  // ---------------------------------------------------------------- associativity

  /** Nothing of `under` survives a merge with `over` on top. */
  predicate Covers(over: Entries, under: Entries)
    decreases Table(under)
  {
    forall k :: k in under ==>
      k in over && (over[k].Table? && under[k].Table? ==> Covers(over[k].entries, under[k].entries))
  }

  /** At one key, the scalar layer `b` between two tables hides nothing that would show. */
  predicate LayerableAt(a: Value, b: Value, c: Value)
    decreases a, 2
  {
    a.Table? && c.Table? ==>
      if b.Table? then Layerable(a.entries, b.entries, c.entries) else Covers(c.entries, a.entries)
  }

  /** No key path holds a table in `a`, a non-table in `b` and a table in `c`
      that leaves something of `a` uncovered. */
  predicate Layerable(a: Entries, b: Entries, c: Entries)
    decreases Table(a), 1
  {
    forall k :: k in a && k in b && k in c ==> LayerableAt(a[k], b[k], c[k])
  }

  lemma {:induction false} CoversIsMergeAbsorption(over: Entries, under: Entries)
    ensures Covers(over, under) <==> Merged(under, over) == over
    decreases Table(under)
  {
    var m := Merged(under, over);
    forall k | k in under && k in over && under[k].Table? && over[k].Table?
      ensures Covers(over[k].entries, under[k].entries) <==> m[k] == over[k]
    {
      CoversIsMergeAbsorption(over[k].entries, under[k].entries);
      assert m[k] == MergedAt(under, over, k) == Table(Merged(under[k].entries, over[k].entries));
    }
    if m == over {
      forall k | k in under ensures k in over { assert k in m; }
    } else if Covers(over, under) {
      assert m.Keys == over.Keys;
      forall k | k in m ensures m[k] == over[k] {
        assert m[k] == MergedAt(under, over, k);
      }
    }
  }

  /** The two groupings agree at one key exactly if that key is layerable. */
  lemma {:induction false} AssociativeAtIff(a: Entries, b: Entries, c: Entries, k: string)
    requires k in a || k in b || k in c
    ensures MergedAt(Merged(a, b), c, k) == MergedAt(a, Merged(b, c), k) <==>
            (k in a && k in b && k in c ==> LayerableAt(a[k], b[k], c[k]))
    decreases Table(a), 0
  {
    if k in a && k in b && k in c && a[k].Table? && c[k].Table? {
      if b[k].Table? {
        AssociativeIff(a[k].entries, b[k].entries, c[k].entries);
      } else {
        CoversIsMergeAbsorption(c[k].entries, a[k].entries);
      }
    }
  }

  /** The merge is associative exactly on the layerable triples. */
  lemma {:induction false} AssociativeIff(a: Entries, b: Entries, c: Entries)
    ensures Merged(Merged(a, b), c) == Merged(a, Merged(b, c)) <==> Layerable(a, b, c)
    decreases Table(a), 1
  {
    var ab, bc := Merged(a, b), Merged(b, c);
    var l, r := Merged(ab, c), Merged(a, bc);
    forall k | k in a.Keys + b.Keys + c.Keys
      ensures k in l && k in r
      ensures l[k] == r[k] <==> (k in a && k in b && k in c ==> LayerableAt(a[k], b[k], c[k]))
    {
      AssociativeAtIff(a, b, c, k);
      assert l[k] == MergedAt(ab, c, k) && r[k] == MergedAt(a, bc, k);
    }
    assert l.Keys == a.Keys + b.Keys + c.Keys == r.Keys;
    if Layerable(a, b, c) { assert l == r; }
    if l == r { assert forall k :: k in a && k in b && k in c ==> k in l && LayerableAt(a[k], b[k], c[k]); }
  }

  /** No path holds a table, then a non-table, then a table. */
  predicate NoTableOverScalarOverTable(a: Entries, b: Entries, c: Entries)
    decreases Table(a)
  {
    forall k :: k in a && k in b && k in c && a[k].Table? && c[k].Table? ==>
      b[k].Table? && NoTableOverScalarOverTable(a[k].entries, b[k].entries, c[k].entries)
  }

  lemma {:induction false} LayerableWithoutSandwich(a: Entries, b: Entries, c: Entries)
    requires NoTableOverScalarOverTable(a, b, c)
    ensures Layerable(a, b, c)
    ensures Merged(Merged(a, b), c) == Merged(a, Merged(b, c))
    decreases Table(a)
  {
    forall k | k in a && k in b && k in c && a[k].Table? && c[k].Table?
      ensures LayerableAt(a[k], b[k], c[k])
    {
      LayerableWithoutSandwich(a[k].entries, b[k].entries, c[k].entries);
    }
    AssociativeIff(a, b, c);
  }

  /** A scalar in the middle layer can make the grouping visible. */
  lemma AssociativityFails()
    ensures var a, b, c := map["limits" := Table(map["body" := Scalar("1")])],
                           map["limits" := Scalar("off")],
                           map["limits" := Table(map["rate" := Scalar("2")])];
            Merged(Merged(a, b), c) != Merged(a, Merged(b, c))
  {
    var a, b, c := map["limits" := Table(map["body" := Scalar("1")])],
                   map["limits" := Scalar("off")],
                   map["limits" := Table(map["rate" := Scalar("2")])];
    assert "body" !in c["limits"].entries;
    assert !Covers(c["limits"].entries, a["limits"].entries);
    assert !Layerable(a, b, c);
    AssociativeIff(a, b, c);
  }

  // ---------------------------------------------------------------- --set key=value

  datatype Setting = Setting(path: Path, raw: string)
  datatype SetError = MissingEquals(item: string) | NotATable(item: string)

  /** The text before the first '=' is a dotted key, the rest is the raw value. */
  function ParseItem(item: string): (s: Option<Setting>)
    ensures s.None? <==> '=' !in item
    ensures s.Some? ==> s.value.path != []
  {
    var i := Text.IndexOf(item, '=');
    if i == |item| then None else Some(Setting(Text.Split(item[..i], '.'), item[i + 1..]))
  }

  /** An item written for a dotted key and a value is read back as these: the key is what comes before the first
      equals sign. */
  lemma ItemReadsBack(path: Path, raw: string)
    requires path != [] && forall p :: p in path ==> '.' !in p && '=' !in p
    ensures ParseItem(Text.Join(path, '.') + "=" + raw) == Some(Setting(path, raw))
  {
    var key := Text.Join(path, '.');
    var item := key + "=" + raw;
    JoinWithout(path, '.', '=');
    Text.FirstIndex(key, raw, '=');
    assert item[..|key|] == key && item[|key| + 1..] == raw;
    Text.SplitJoin(path, '.');
  }

  lemma {:induction false} JoinWithout(parts: Path, sep: char, c: char)
    requires sep != c && forall p :: p in parts ==> c !in p
    ensures c !in Text.Join(parts, sep)
  {
    if |parts| > 1 { JoinWithout(parts[1..], sep, c); }
  }

  /** Write one dotted path, making tables on the way; a scalar on the way is an error. */
  function SetPath(t: Entries, path: Path, raw: string): Option<Entries>
    requires path != []
    decreases |path|
  {
    var k := path[0];
    if |path| == 1 then Some(t[k := Scalar(raw)])
    else if k in t && t[k].Scalar? then None
    else
      match SetPath(if k in t then t[k].entries else map[], path[1..], raw)
      case None => None
      case Some(sub) => Some(t[k := Table(sub)])
  }

  function ParseSettings(items: seq<string>): Result<Entries, SetError>
  {
    if items == [] then Ok(map[])
    else
      var last := items[|items| - 1];
      match ParseSettings(items[..|items| - 1])
      case Err(e) => Err(e)
      case Ok(t) =>
        match ParseItem(last)
        case None => Err(MissingEquals(last))
        case Some(s) =>
          match SetPath(t, s.path, s.raw)
          case None => Err(NotATable(last))
          case Some(t') => Ok(t')
  }

  /** Writing one path changes the lookup there, above it and below it, and nowhere else. */
  lemma {:induction false} LookupSet(t: Entries, path: Path, raw: string, at: Path)
    requires path != [] && SetPath(t, path, raw).Some?
    ensures var got := Lookup(Table(SetPath(t, path, raw).value), at);
            if at == path then got == Some(Scalar(raw))
            else if at <= path then got.Some? && got.value.Table?
            else if path <= at then got == None
            else got == Lookup(Table(t), at)
    decreases |path|
  {
    if at != [] && at[0] == path[0] {
      var k := path[0];
      assert at <= path <==> at[1..] <= path[1..];
      assert path <= at <==> path[1..] <= at[1..];
      assert at == path <==> at[1..] == path[1..];
      if |path| > 1 {
        var sub := if k in t then t[k].entries else map[];
        LookupSet(sub, path[1..], raw, at[1..]);
        if k !in t && !(at <= path) { LookupInEmpty(at[1..]); }
      } else {
        assert path[1..] == [];
      }
    }
  }

  lemma LookupInEmpty(path: Path)
    requires path != []
    ensures Lookup(Table(map[]), path) == None
  {}

  predicate HoldsScalar(t: Entries, path: Path) {
    Lookup(Table(t), path).Some? && Lookup(Table(t), path).value.Scalar?
  }

  /** A path cannot be written exactly if a proper prefix of it holds a scalar. */
  lemma {:induction false} SetPathFailsIff(t: Entries, path: Path, raw: string)
    requires path != []
    ensures SetPath(t, path, raw).None? <==>
            exists n :: 0 < n < |path| && HoldsScalar(t, path[..n])
    decreases |path|
  {
    var k := path[0];
    if |path| > 1 {
      assert path[..1] == [k] && path[..1][1..] == [];
      if k in t && t[k].Table? {
        SetPathFailsIff(t[k].entries, path[1..], raw);
        forall n | 0 < n < |path|
          ensures Lookup(Table(t), path[..n]) == Lookup(t[k], path[1..][..n - 1])
        {
          assert path[..n][1..] == path[1..][..n - 1];
        }
        if SetPath(t, path, raw).None? {
          var n :| 0 < n < |path[1..]| && HoldsScalar(t[k].entries, path[1..][..n]);
          assert HoldsScalar(t, path[..n + 1]);
        } else {
          forall n | 0 < n < |path| ensures !HoldsScalar(t, path[..n]) {
            if n == 1 { assert path[1..][..0] == []; }
          }
        }
      } else if k !in t {
        SetPathFailsIff(map[], path[1..], raw);
        forall n | 0 < n < |path[1..]| ensures !HoldsScalar(map[], path[1..][..n]) {}
      } else {
        assert HoldsScalar(t, path[..1]);
      }
    }
  }

  /** The settings of a list of items; an item without an '=' has the empty path. */
  function SettingsOf(items: seq<string>): (ss: seq<Setting>)
    ensures |ss| == |items|
    ensures forall i :: 0 <= i < |items| ==> (ss[i].path == [] <==> '=' !in items[i])
  {
    if items == [] then []
    else
      var n := |items| - 1;
      SettingsOf(items[..n]) + [if '=' in items[n] then ParseItem(items[n]).value else Setting([], items[n])]
  }

  /** Setting `i` gives this raw value to exactly this path, and no later one
      writes the path or a prefix of it. */
  ghost predicate LastGivenBy(ss: seq<Setting>, i: nat, at: Path, raw: string)
    requires i < |ss|
  {
    ss[i] == Setting(at, raw) && forall j :: i < j < |ss| ==> !(ss[j].path <= at)
  }

  ghost predicate Given(ss: seq<Setting>, at: Path, raw: string) {
    exists i :: 0 <= i < |ss| && LastGivenBy(ss, i, at, raw)
  }

  lemma GivenByOneMore(init: seq<Setting>, s: Setting, at: Path, raw: string)
    ensures Given(init + [s], at, raw) <==> if s.path <= at then s == Setting(at, raw) else Given(init, at, raw)
  {
    var ss, n := init + [s], |init|;
    assert s == Setting(at, raw) ==> LastGivenBy(ss, n, at, raw);
    assert ss[n] == s;
    if !(s.path <= at) {
      forall i | 0 <= i < n
        ensures LastGivenBy(init, i, at, raw) <==> LastGivenBy(ss, i, at, raw)
      {
        if LastGivenBy(ss, i, at, raw) {
          forall j | i < j < n ensures !(init[j].path <= at) { assert init[j] == ss[j]; }
        }
      }
    }
  }

  /** The scalars of a parsed settings list are exactly the last values given. */
  lemma {:induction false} ScalarsAreLastGiven(items: seq<string>, at: Path, raw: string)
    requires ParseSettings(items).Ok?
    ensures Lookup(Table(ParseSettings(items).value), at) == Some(Scalar(raw)) <==> Given(SettingsOf(items), at, raw)
  {
    if items != [] {
      var n := |items| - 1;
      var init := items[..n];
      var t, s := ParseSettings(init).value, ParseItem(items[n]).value;
      ScalarsAreLastGiven(init, at, raw);
      LookupSet(t, s.path, s.raw, at);
      GivenByOneMore(SettingsOf(init), s, at, raw);
      if at <= s.path && at != s.path && Given(SettingsOf(init), at, raw) {
        BelowScalarFails(t, s.path, s.raw, at);
      }
    }
  }

  lemma BelowScalarFails(t: Entries, path: Path, raw: string, q: Path)
    requires path != [] && SetPath(t, path, raw).Some?
    requires q <= path && q != path
    ensures !HoldsScalar(t, q)
  {
    SetPathFailsIff(t, path, raw);
    if q != [] { assert path[..|q|] == q; }
  }

  /** Once a path is written, it or a prefix of it holds a scalar for good. */
  lemma {:induction false} WrittenPathStaysScalar(items: seq<string>, i: nat) returns (q: Path)
    requires ParseSettings(items).Ok? && i < |items|
    ensures q <= SettingsOf(items)[i].path && HoldsScalar(ParseSettings(items).value, q)
  {
    var n := |items| - 1;
    var init, s := items[..n], ParseItem(items[n]).value;
    var t := ParseSettings(init).value;
    if i == n {
      q := s.path;
      LookupSet(t, s.path, s.raw, q);
    } else {
      q := WrittenPathStaysScalar(init, i);
      LookupSet(t, s.path, s.raw, q);
      if s.path <= q {
        q := s.path;
        LookupSet(t, s.path, s.raw, q);
      } else if q <= s.path {
        BelowScalarFails(t, s.path, s.raw, q);
      }
    }
  }

  /** An item gives its value to its path, unless a later one writes that path or one above it. */
  lemma ItemIsHeld(items: seq<string>, i: nat, path: Path, raw: string)
    requires ParseSettings(items).Ok? && i < |items| && items[i] == Text.Join(path, '.') + "=" + raw
    requires path != [] && forall p :: p in path ==> '.' !in p && '=' !in p
    requires forall j :: i < j < |items| ==> !(SettingsOf(items)[j].path <= path)
    ensures Lookup(Table(ParseSettings(items).value), path) == Some(Scalar(raw))
  {
    ItemReadsBack(path, raw);
    SettingAt(items, i);
    ScalarsAreLastGiven(items, path, raw);
    assert LastGivenBy(SettingsOf(items), i, path, raw);
  }

  lemma {:induction false} SettingAt(items: seq<string>, i: nat)
    requires i < |items| && '=' in items[i]
    ensures SettingsOf(items)[i] == ParseItem(items[i]).value
  {
    if i < |items| - 1 { SettingAt(items[..|items| - 1], i); }
  }

  /** Item `i` cannot be read: it has no equals sign, or its key runs through a scalar that the items before set. */
  ghost predicate FailsAt(items: seq<string>, i: nat, e: SetError) {
    && i < |items| && ParseSettings(items[..i]).Ok?
    && if '=' !in items[i] then e == MissingEquals(items[i])
       else
         var path := ParseItem(items[i]).value.path;
         e == NotATable(items[i]) &&
         exists n :: 0 < n < |path| && HoldsScalar(ParseSettings(items[..i]).value, path[..n])
  }

  /** A failing list is reported by the first item that cannot be read. */
  lemma {:induction false} ParseErrorIs(items: seq<string>)
    requires ParseSettings(items).Err?
    ensures exists i: nat :: FailsAt(items, i, ParseSettings(items).error)
  {
    var n := |items| - 1;
    var init := items[..n];
    if ParseSettings(init).Err? {
      ParseErrorIs(init);
      var i: nat :| FailsAt(init, i, ParseSettings(init).error);
      assert init[..i] == items[..i];
      assert FailsAt(items, i, ParseSettings(items).error);
    } else {
      if '=' in items[n] {
        var s := ParseItem(items[n]).value;
        SetPathFailsIff(ParseSettings(init).value, s.path, s.raw);
      }
      assert FailsAt(items, n, ParseSettings(items).error);
    }
  }

  /** Every setting has a key and none extends the key of an earlier one. */
  ghost predicate Settable(ss: seq<Setting>) {
    && (forall i :: 0 <= i < |ss| ==> ss[i].path != [])
    && (forall i, j :: 0 <= i < j < |ss| && ss[i].path <= ss[j].path ==> ss[i].path == ss[j].path)
  }

  ghost predicate ExtendsNone(ss: seq<Setting>, path: Path) {
    forall i :: 0 <= i < |ss| && ss[i].path <= path ==> ss[i].path == path
  }

  lemma SettableOneMore(init: seq<Setting>, s: Setting)
    ensures Settable(init + [s]) <==> (Settable(init) && s.path != [] && ExtendsNone(init, s.path))
  {
    var ss, n := init + [s], |init|;
    assert ss[n] == s;
    assert forall i :: 0 <= i < n ==> ss[i] == init[i];
  }

  /** Parsing succeeds exactly on the settable lists. */
  lemma {:induction false} ParseSucceedsIff(items: seq<string>)
    ensures ParseSettings(items).Ok? <==> Settable(SettingsOf(items))
  {
    if items != [] {
      var n := |items| - 1;
      ParseSucceedsIff(items[..n]);
      SettableOneMore(SettingsOf(items[..n]), SettingsOf(items)[n]);
      if ParseSettings(items[..n]).Ok? && '=' in items[n] {
        StepSucceedsIff(items[..n], ParseItem(items[n]).value);
      }
    }
  }

  lemma {:induction false} StepSucceedsIff(items: seq<string>, s: Setting)
    requires ParseSettings(items).Ok? && s.path != []
    ensures SetPath(ParseSettings(items).value, s.path, s.raw).Some? <==> ExtendsNone(SettingsOf(items), s.path)
  {
    var t, ss := ParseSettings(items).value, SettingsOf(items);
    SetPathFailsIff(t, s.path, s.raw);
    if SetPath(t, s.path, s.raw).None? {
      var m :| 0 < m < |s.path| && HoldsScalar(t, s.path[..m]);
      var raw := Lookup(Table(t), s.path[..m]).value.text;
      ScalarsAreLastGiven(items, s.path[..m], raw);
      var i :| 0 <= i < |ss| && LastGivenBy(ss, i, s.path[..m], raw);
      assert ss[i].path <= s.path;
    } else {
      forall i | 0 <= i < |ss| && ss[i].path <= s.path
        ensures ss[i].path == s.path
      {
        var q := WrittenPathStaysScalar(items, i);
        if q != s.path { BelowScalarFails(t, s.path, s.raw, q); }
      }
    }
  }

  /** Defaults, then the scenario file, then the overrides; a missing layer is the empty table. */
  function Layered(defaults: Option<Entries>, scenario: Option<Entries>, overrides: Option<Entries>): Entries {
    var merged0 := if defaults.Some? then defaults.value else map[];
    var merged1 := if scenario.Some? then Merged(merged0, scenario.value) else merged0;
    if overrides.Some? && overrides.value != map[] then Merged(merged1, overrides.value) else merged1
  }

  /** Which layer a scalar comes from: the overrides, else the scenario, else the defaults. */
  lemma LayersInOrder(defaults: Entries, scenario: Entries, overrides: Entries, at: Path)
    requires at != []
    ensures var all, two := Layered(Some(defaults), Some(scenario), Some(overrides)),
                            Layered(Some(defaults), Some(scenario), None);
            && (HoldsScalar(overrides, at) ==> Lookup(Table(all), at) == Lookup(Table(overrides), at))
            && (Silent(overrides, at) ==> Lookup(Table(all), at) == Lookup(Table(two), at))
            && (HoldsScalar(scenario, at) ==> Lookup(Table(two), at) == Lookup(Table(scenario), at))
            && (Silent(scenario, at) ==> Lookup(Table(two), at) == Lookup(Table(defaults), at))
    ensures Layered(Some(defaults), None, None) == defaults && Layered(None, Some(scenario), None) == scenario
    ensures Layered(None, None, Some(overrides)) == overrides && Layered(None, None, None) == map[]
  {
    OverlayDecides(defaults, scenario, at);
    OverlayDecides(Merged(defaults, scenario), overrides, at);
    MergeIdentityAndIdempotence(Merged(defaults, scenario), overrides);
    MergeIdentityAndIdempotence(scenario, scenario);
    MergeIdentityAndIdempotence(overrides, overrides);
  }

  lemma OverlayDecides(base: Entries, overlay: Entries, at: Path)
    requires at != []
    ensures HoldsScalar(overlay, at) ==> Lookup(Table(Merged(base, overlay)), at) == Lookup(Table(overlay), at)
    ensures Silent(overlay, at) ==> Lookup(Table(Merged(base, overlay)), at) == Lookup(Table(base), at)
  {
    MergeLookup(base, overlay, at);
  }

  /** A layer says nothing about a path: it holds nothing there and no scalar above it. */
  predicate Silent(layer: Entries, at: Path) {
    Lookup(Table(layer), at) == None && !Blocks(Table(layer), at)
  }

  method MergeHttpToml(defaults: Option<Entries>, scenario: Option<Entries>, overrides: Option<Entries>)
    returns (merged: Entries)
    ensures merged == Layered(defaults, scenario, overrides)
  {
    merged := map[];
    if defaults.Some? { merged := defaults.value; }
    if scenario.Some? { merged := DeepMerge(merged, scenario.value); }
    if overrides.Some? && overrides.value != map[] { merged := DeepMerge(merged, overrides.value); }
  }

  /** An override read from `--set` items wins at its path, whatever the lower layers contain;
      a path no item reaches keeps what the lower layers say. */
  lemma {:induction false} OverridesWin(defaults: Option<Entries>, scenario: Option<Entries>, items: seq<string>,
                                        at: Path, raw: string)
    requires Settable(SettingsOf(items))
    ensures ParseSettings(items).Ok?
    ensures var top := Table(Layered(defaults, scenario, Some(ParseSettings(items).value)));
            var low := Table(Layered(defaults, scenario, None));
            && (Given(SettingsOf(items), at, raw) ==> Lookup(top, at) == Some(Scalar(raw)))
            && (Unreached(SettingsOf(items), at) ==> Lookup(top, at) == Lookup(low, at))
  {
    ParseSucceedsIff(items);
    var t, low := ParseSettings(items).value, Layered(defaults, scenario, None);
    ScalarsAreLastGiven(items, at, raw);
    MergeIdentityAndIdempotence(low, map[]);
    if at != [] {
      MergeLookup(low, t, at);
      if Unreached(SettingsOf(items), at) { UnreachedPathsAreUntouched(items, at); }
    } else if items != [] {
      assert at <= SettingsOf(items)[0].path;
    }
  }

  /** No setting writes this path, above it or below it. */
  ghost predicate Unreached(ss: seq<Setting>, at: Path) {
    forall i :: 0 <= i < |ss| ==> !(ss[i].path <= at) && !(at <= ss[i].path)
  }

  lemma {:induction false} UnreachedPathsAreUntouched(items: seq<string>, at: Path)
    requires at != [] && ParseSettings(items).Ok? && Unreached(SettingsOf(items), at)
    ensures Lookup(Table(ParseSettings(items).value), at) == None && !Blocks(Table(ParseSettings(items).value), at)
  {
    if items == [] {
      LookupInEmpty(at);
    } else {
      var n := |items| - 1;
      var t, s := ParseSettings(items[..n]).value, ParseItem(items[n]).value;
      assert forall i :: 0 <= i < n ==> SettingsOf(items[..n])[i] == SettingsOf(items)[i];
      UnreachedPathsAreUntouched(items[..n], at);
      assert SettingsOf(items)[n] == s;
      LookupSet(t, s.path, s.raw, at);
      BlocksSet(t, s.path, s.raw, at);
    }
  }

  lemma {:induction false} BlocksSet(t: Entries, path: Path, raw: string, at: Path)
    requires path != [] && SetPath(t, path, raw).Some? && !(path <= at) && !Blocks(Table(t), at)
    ensures !Blocks(Table(SetPath(t, path, raw).value), at)
    decreases |path|
  {
    if at != [] && at[0] == path[0] {
      var k := path[0];
      assert path <= at <==> path[1..] <= at[1..];
      if |path| > 1 {
        BlocksSet(if k in t then t[k].entries else map[], path[1..], raw, at[1..]);
      }
    }
  }
}
