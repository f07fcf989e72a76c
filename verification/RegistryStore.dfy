/** MockRegistryStore as an object: version records are changed in place and the
    file is rewritten after every change. Each method is shown to be the
    corresponding step of the Registry state machine. */
module RegistryStore {
  import opened Wrappers
  import opened Dicts
  import opened Registry

  class PackageVersion {
    const identity: Version
    var yanked: bool
    var yankReason: Option<string>

    constructor (v: Version)
      ensures Record() == v
    {
      identity := v;
      yanked, yankReason := v.yanked, v.yankReason;
    }

    function Record(): Version
      reads this
    {
      identity.(yanked := yanked, yankReason := yankReason)
    }
  }

  class MockRegistryStore {
    var versions: Dict<Key, PackageVersion>
    var disk: Option<seq<Row>>

    ghost function Objects(): set<PackageVersion>
      reads `versions
    {
      set i | 0 <= i < |versions| :: versions[i].1
    }

    /** No two keys share a record. */
    ghost predicate Valid()
      reads `versions
    {
      forall i, j :: 0 <= i < j < |versions| ==> versions[i].1 != versions[j].1
    }

    function Records(): (d: Dict<Key, Version>)
      reads `versions, set i | 0 <= i < |versions| :: versions[i].1
      ensures |d| == |versions|
      ensures forall i :: 0 <= i < |d| ==> d[i] == (versions[i].0, versions[i].1.Record())
      ensures forall k :: Find(d, k) == Find(versions, k)
    {
      var vs := versions;
      var d := seq(|vs|, i requires 0 <= i < |vs|
                     reads set j | 0 <= j < |vs| :: vs[j].1
                     => (vs[i].0, vs[i].1.Record()));
      SameKeysSameFind(versions, d);
      d
    }

    function View(): State
      reads this, set i | 0 <= i < |versions| :: versions[i].1
    {
      State(Records(), disk)
    }

    constructor (disk: Option<seq<Row>>)
      ensures versions == [] && this.disk == disk
    {
      versions, this.disk := [], disk;
    }

    /** `MockRegistryStore.open`; None when the file holds a row that is no version. */
    static method Open(disk: Option<seq<Row>>, now: string) returns (r: Option<MockRegistryStore>)
      ensures match Opened(disk, now)
              case None => r == None
              case Some(s) =>
                r.Some? && fresh(r.value) && fresh(r.value.Objects()) && r.value.Valid() && r.value.View() == s
    {
      var store := new MockRegistryStore(disk);
      var ok := store.Load(now);
      r := if ok then Some(store) else None;
    }

    method Load(now: string) returns (ok: bool)
      requires versions == []
      modifies this
      ensures ok == Opened(old(disk), now).Some?
      ensures ok ==> Valid() && fresh(Objects()) && View() == Opened(old(disk), now).value
    {
      if disk.None? {
        SeedDemo(now);
        ok := true;
      } else {
        ok := LoadRows(disk.value);
      }
    }

    method LoadRows(rows: seq<Row>) returns (ok: bool)
      requires versions == []
      modifies `versions
      ensures ok == Loaded(rows).Some?
      ensures ok ==> Valid() && fresh(Objects()) && Records() == Loaded(rows).value
    {
      var i := 0;
      while i < |rows|
        invariant 0 <= i <= |rows| && Valid() && fresh(Objects())
        invariant Loaded(rows[..i]) == Some(Records())
      {
        assert rows[..i + 1][..i] == rows[..i];
        LoadedOneMore(rows[..i + 1]);
        ok := LoadRow(rows[i]);
        if !ok {
          LoadErrorsStick(rows, i + 1);
          return;
        }
        i := i + 1;
      }
      assert rows[..i] == rows;
      return true;
    }

    method LoadRow(row: Row) returns (ok: bool)
      requires Valid()
      modifies `versions
      ensures ok == FromDict(row).Some?
      ensures ok ==> Valid() && fresh(Objects() - old(Objects()))
      ensures ok ==> var v := FromDict(row).value; Records() == Put(old(Records()), (v.name, v.version), v)
    {
      var v := FromDict(row);
      if v.None? { return false; }
      var pv := new PackageVersion(v.value);
      StoreRecord((v.value.name, v.value.version), pv);
      return true;
    }

    /** `self.versions[key] = pv` with a record no other key holds. */
    method StoreRecord(key: Key, pv: PackageVersion)
      requires Valid() && pv !in Objects()
      modifies `versions
      ensures Valid() && Objects() <= old(Objects()) + {pv}
      ensures Records() == Put(old(Records()), key, old(pv.Record()))
    {
      ghost var before := Records();
      versions := Put(versions, key, pv);
      assert forall i :: 0 <= i < |versions| ==> Records()[i] == Put(before, key, pv.Record())[i];
    }

    method Save()
      modifies `disk
      ensures disk == Some(Saved(Records()))
    {
      disk := Some(Saved(Records()));
    }

    method SeedDemo(now: string)
      requires versions == []
      modifies this
      ensures Valid() && fresh(Objects()) && View() == Seeded(now)
    {
      var demo := new PackageVersion(Demo(now));
      ghost var key, v := ("pkg-ok", "0.1.0"), Demo(now);
      assert Records() == [];
      StoreRecord(("pkg-ok", "0.1.0"), demo);
      PutFirst(key, v);
      assert Records() == [(key, v)];
      Save();
    }

    method Publish(name: string, body: PublishBody, token: Option<string>, now: string) returns (reply: Reply)
      requires Valid()
      modifies this
      ensures Valid() && fresh(Objects() - old(Objects()))
      ensures (View(), reply) == DoPublish(old(View()), name, body, token, now)
    {
      if !Truthy(token) { return Fail("unauthorized", 401); }
      if !Truthy(body.version) { return Fail("bad_request", 400); }
      if !Truthy(body.treeDigest) || !Truthy(body.proofDigest) || body.coverage.None? {
        return Fail("bad_request", 400);
      }
      if BelowMinimum(body.coverage.value) { return Fail("forbidden", 403); }
      var version := body.version.value;
      var key := (name, version);
      if Has(versions, key) {
        var existing := versions[Find(versions, key)].1.Record();
        if existing.treeDigest != body.treeDigest.value { return Fail("conflict", 409); }
        return Published(name, version, existing.publishedAt);
      }
      var pv := new PackageVersion(NewVersion(name, body, now));
      StoreRecord(key, pv);
      Save();
      return Published(name, version, now);
    }

    method YankVersion(name: string, version: string, reason: string, token: Option<string>, now: string)
      returns (reply: Reply)
      requires Valid()
      modifies this, Objects()
      ensures Valid() && Objects() == old(Objects())
      ensures (View(), reply) == DoYank(old(View()), name, version, reason, token, now)
    {
      if !Truthy(token) { return Fail("unauthorized", 401); }
      if reason == "" { return Fail("bad_request", 400); }
      var i := Find(versions, (name, version));
      if i == |versions| { return Fail("not_found", 404); }
      var pv := versions[i].1;
      if pv.yanked { return Fail("conflict", 409); }
      ghost var before := Records();
      pv.yanked := true;
      pv.yankReason := Some(reason);
      ghost var after := Put(before, (name, version), before[i].1.(yanked := true, yankReason := Some(reason)));
      assert forall j :: 0 <= j < |versions| ==> Records()[j] == after[j];
      assert Records() == after;
      assert Get(before, (name, version)) == Some(before[i].1) && !before[i].1.yanked;
      Save();
      assert Records() == after;
      assert (View(), Yanked(name, version, reason, now)) == DoYank(old(View()), name, version, reason, token, now);
      return Yanked(name, version, reason, now);
    }

    method GetPackageVersion(name: string, version: string) returns (reply: Reply)
      ensures reply == DoGet(View(), name, version)
    {
      var i := Find(versions, (name, version));
      if i == |versions| { return Fail("not_found", 404); }
      var v := versions[i].1.Record();
      if v.yanked { return Failed(Error("gone", 410, v.yankReason)); }
      return Found(ToDict(v));
    }

    method ListPackages(prefix: Option<string>, limit: int, offset: int, includeYanked: bool) returns (reply: Reply)
      ensures reply == DoList(View(), prefix, limit, offset, includeYanked)
    {
      var l, o := Clamp(limit, 1, 500), if offset > 0 then offset else 0;
      var rows := Values(Records());
      rows := Selected(rows, prefix, includeYanked);
      rows := SortVersions(rows);
      reply := Page(Rows(Slice(rows, o, o + l)), |rows|, l, o);
    }

    method Handle(op: Op) returns (reply: Reply)
      requires Valid()
      modifies this, Objects()
      ensures Valid() && fresh(Objects() - old(Objects()))
      ensures (View(), reply) == Step(old(View()), op)
    {
      match op
      case Publish(name, body, token, now) => reply := Publish(name, body, token, now);
      case Yank(name, version, reason, token, now) => reply := YankVersion(name, version, reason, token, now);
      case GetVersion(name, version) => reply := GetPackageVersion(name, version);
      case List(prefix, limit, offset, includeYanked) => reply := ListPackages(prefix, limit, offset, includeYanked);
    }

    /** One more request after a run that gave these replies. */
    method HandleNext(ghost s0: State, ghost done: seq<Op>, op: Op, replies: seq<Reply>) returns (more: seq<Reply>)
      requires Valid() && Run(s0, done) == (View(), replies)
      modifies this, Objects()
      ensures Valid() && fresh(Objects() - old(Objects()))
      ensures Run(s0, done + [op]) == (View(), more)
    {
      RunOneMore(s0, done, op);
      var reply := Handle(op);
      return replies + [reply];
    }

    /** Any run of requests on the object is the run of the state machine, reply by reply. */
    method Serve(ops: seq<Op>) returns (replies: seq<Reply>)
      requires Valid()
      modifies this, Objects()
      ensures Valid() && fresh(Objects() - old(Objects()))
      ensures (View(), replies) == Run(old(View()), ops)
    {
      replies := [];
      var i := 0;
      ghost var s0 := View();
      while i < |ops|
        invariant 0 <= i <= |ops|
        invariant Valid() && fresh(Objects() - old(Objects()))
        invariant Run(s0, ops[..i]) == (View(), replies)
      {
        assert ops[..i + 1] == ops[..i] + [ops[i]];
        replies := HandleNext(s0, ops[..i], ops[i], replies);
        i := i + 1;
      }
      assert ops[..i] == ops;
    }
  }

  lemma RunOneMore(s: State, ops: seq<Op>, op: Op)
    ensures var (s', reply) := Step(Run(s, ops).0, op); Run(s, ops + [op]) == (s', Run(s, ops).1 + [reply])
  {
    RunSplits(s, ops, [op]);
    var (s', reply) := Step(Run(s, ops).0, op);
    assert [op][1..] == [] && Run(s', []) == (s', []) && [reply] + [] == [reply];
    assert Run(Run(s, ops).0, [op]) == (s', [reply]);
  }

  lemma {:induction false} SameKeysSameFind<V, W>(d: Dict<Key, V>, e: Dict<Key, W>)
    requires |d| == |e| && forall i :: 0 <= i < |d| ==> d[i].0 == e[i].0
    ensures forall k :: Find(d, k) == Find(e, k)
  {}

  lemma PutFirst(key: Key, v: Version)
    ensures Put([], key, v) == [(key, v)]
  {}

  lemma LoadedOneMore(rows: seq<Row>)
    requires rows != [] && Loaded(rows[..|rows| - 1]).Some?
    ensures var v := FromDict(rows[|rows| - 1]);
            Loaded(rows) ==
            if v.None? then None
            else Some(Put(Loaded(rows[..|rows| - 1]).value, (v.value.name, v.value.version), v.value))
  {}

  lemma {:induction false} LoadErrorsStick(rows: seq<Row>, i: nat)
    requires i <= |rows| && Loaded(rows[..i]).None?
    ensures Loaded(rows).None?
    decreases |rows|
  {
    if i < |rows| {
      assert rows[..|rows| - 1][..i] == rows[..i];
      LoadErrorsStick(rows[..|rows| - 1], i);
    } else {
      assert rows[..i] == rows;
    }
  }
}
