/** parse_set_args as it works on the heap: nested dictionaries are extended in
    place through a cursor. The contents of the dictionaries are read back as a
    table, and every write is shown to be one SetPath on that table. */
module SetArgs {
  import opened Wrappers
  import opened TomlMerge

  /** A mutable dictionary; `at` is the dotted path under which it was created. */
  class Dict {
    var entries: map<string, Item>
    ghost const at: Path

    constructor (ghost at: Path)
      ensures this.at == at && entries == map[]
    {
      this.at := at;
      entries := map[];
    }
  }

  datatype Item = Text(raw: string) | Sub(dict: Dict)

  /** The contents of a set of dictionaries at one moment. */
  type Heap = map<Dict, map<string, Item>>

  ghost function Contents(nodes: set<Dict>): Heap
    reads nodes
  {
    map n | n in nodes :: n.entries
  }

  /** The dictionaries form a tree: each is the only one at its path and hangs under its parent. */
  ghost predicate Tree(h: Heap, depth: nat) {
    && (forall n :: n in h ==> |n.at| <= depth)
    && (forall n, m :: n in h && m in h && n.at == m.at ==> n == m)
    && (forall n, k :: n in h && k in h[n] && h[n][k].Sub? ==> h[n][k].dict in h && h[n][k].dict.at == n.at + [k])
  }

  /** The table a dictionary stands for. */
  ghost function Snapshot(h: Heap, n: Dict, depth: nat): Entries
    requires Tree(h, depth) && n in h
    decreases depth - |n.at|, 1
  {
    map k | k in h[n] :: ValueAt(h, n, k, depth)
  }

  ghost function ValueAt(h: Heap, n: Dict, k: string, depth: nat): Value
    requires Tree(h, depth) && n in h && k in h[n]
    decreases depth - |n.at|, 0
  {
    match h[n][k]
    case Text(raw) => Scalar(raw)
    case Sub(d) => assert d.at == n.at + [k]; Table(Snapshot(h, d, depth))
  }

  /** Replace one entry of the table found down a path of tables. */
  ghost function PutAt(t: Entries, path: Path, k: string, v: Value): Option<Entries>
    decreases |path|
  {
    if path == [] then Some(t[k := v])
    else if path[0] in t && t[path[0]].Table? then
      match PutAt(t[path[0]].entries, path[1..], k, v)
      case None => None
      case Some(sub) => Some(t[path[0] := Table(sub)])
    else None
  }

  /** Following a path of tables from `n` leads to `c`. */
  ghost predicate Reaches(h: Heap, n: Dict, c: Dict, path: Path)
    decreases |path|
  {
    n in h && if path == [] then n == c
    else path[0] in h[n] && h[n][path[0]].Sub? && Reaches(h, h[n][path[0]].dict, c, path[1..])
  }

  lemma {:induction false} ReachesExtend(h: Heap, n: Dict, c: Dict, path: Path, k: string)
    requires Reaches(h, n, c, path) && c in h && k in h[c] && h[c][k].Sub? && h[c][k].dict in h
    ensures Reaches(h, n, h[c][k].dict, path + [k])
    decreases |path|
  {
    if path != [] {
      ReachesExtend(h, h[n][path[0]].dict, c, path[1..], k);
      assert (path + [k])[1..] == path[1..] + [k];
    }
  }

  /** `h'` is `h` after entry `k` of `c` was assigned; dictionaries cut off by it may be gone. */
  ghost predicate Assigned(h: Heap, h': Heap, c: Dict, k: string) {
    && c in h && c in h' && k in h'[c] && h'[c] == h[c][k := h'[c][k]]
    && (forall n :: n in h && n != c && !(c.at + [k] <= n.at) ==> n in h' && h'[n] == h[n])
  }

  lemma {:induction false} SnapshotElsewhere(h: Heap, h': Heap, c: Dict, k: string, n: Dict, depth: nat)
    requires Tree(h, depth) && Tree(h', depth) && Assigned(h, h', c, k)
    requires n in h && n in h' && !(n.at <= c.at) && !(c.at + [k] <= n.at)
    ensures Snapshot(h', n, depth) == Snapshot(h, n, depth)
    decreases depth - |n.at|
  {
    forall j | j in h[n] && h[n][j].Sub?
      ensures h'[n] == h[n] && Snapshot(h', h[n][j].dict, depth) == Snapshot(h, h[n][j].dict, depth)
    {
      var d := h[n][j].dict;
      PrefixOrBeside(n.at, c.at, k, j);
      SnapshotElsewhere(h, h', c, k, d, depth);
    }
  }

  lemma PrefixOrBeside(p: Path, c: Path, k: string, j: string)
    requires !(p <= c) && !(c + [k] <= p)
    ensures !(p + [j] <= c) && !(c + [k] <= p + [j])
  {
    assert p == (p + [j])[..|p|];
  }

  /** Entries of `n` that are not on the way to the assigned one keep their values. */
  lemma {:induction false} SiblingsKept(h: Heap, h': Heap, c: Dict, k: string, n: Dict, x: string, depth: nat)
    requires Tree(h, depth) && Tree(h', depth) && Assigned(h, h', c, k)
    requires n in h && n.at + [x] <= c.at + [k] && (n == c ==> x == k)
    ensures n in h' && h'[n].Keys == h[n].Keys + (if n == c then {k} else {})
    ensures forall j :: j in h[n] && j != x ==> ValueAt(h', n, j, depth) == ValueAt(h, n, j, depth)
  {
    assert c.at == (c.at + [k])[..|c.at|];
    assert n.at <= c.at;
    forall j | j in h[n] && j != x
      ensures ValueAt(h', n, j, depth) == ValueAt(h, n, j, depth)
    {
      assert h'[n][j] == h[n][j];
      if h[n][j].Sub? {
        var e := h[n][j].dict;
        assert e.at == n.at + [j];
        assert e.at[|n.at|] == j && (n.at + [x])[|n.at|] == x == (c.at + [k])[|n.at|];
        SnapshotElsewhere(h, h', c, k, e, depth);
      }
    }
  }

  /** The table of `n` changes at the entry on the way to the assignment, and only there. */
  lemma {:induction false} SnapshotStep(h: Heap, h': Heap, c: Dict, k: string, n: Dict, x: string, depth: nat)
    requires Tree(h, depth) && Tree(h', depth) && Assigned(h, h', c, k)
    requires n in h && n.at + [x] <= c.at + [k] && (if n == c then x == k else x in h[n])
    ensures n in h' && x in h'[n] && Snapshot(h', n, depth) == Snapshot(h, n, depth)[x := ValueAt(h', n, x, depth)]
  {
    SiblingsKept(h, h', c, k, n, x, depth);
  }

  /** An assignment below `n` is one replacement in the table of `n`. */
  lemma {:induction false} SnapshotAbove(h: Heap, h': Heap, c: Dict, k: string, n: Dict, path: Path, depth: nat)
    requires Tree(h, depth) && Tree(h', depth) && Assigned(h, h', c, k)
    requires Reaches(h, n, c, path) && c.at == n.at + path
    ensures n in h' && PutAt(Snapshot(h, n, depth), path, k, ValueAt(h', c, k, depth)) == Some(Snapshot(h', n, depth))
    decreases |path|
  {
    if path == [] {
      SnapshotStep(h, h', c, k, c, k, depth);
    } else {
      assert n.at + path == n.at + [path[0]] + path[1..];
      SnapshotAbove(h, h', c, k, h[n][path[0]].dict, path[1..], depth);
      SnapshotStep(h, h', c, k, n, path[0], depth);
    }
  }

  // ---------------------------------------------------------------- the value side

  /** Making an empty table on the way does not change what a dotted write gives. */
  lemma {:induction false} SetPathAfterDefault(t: Entries, q: Path, k: string, rest: Path, raw: string)
    requires rest != []
    requires var at := Lookup(Table(t), q); at.Some? && at.value.Table? && k !in at.value.entries
    ensures PutAt(t, q, k, Table(map[])).Some?
    ensures SetPath(PutAt(t, q, k, Table(map[])).value, q + [k] + rest, raw) == SetPath(t, q + [k] + rest, raw)
    decreases |q|
  {
    var path := q + [k] + rest;
    if q == [] {
      assert path[1..] == rest && path[0] == k;
      var t' := t[k := Table(map[])];
      var sub := SetPath(map[], rest, raw);
      if sub.Some? { assert t'[k := Table(sub.value)] == t[k := Table(sub.value)]; }
    } else {
      SetPathAfterDefault(t[q[0]].entries, q[1..], k, rest, raw);
      assert path[1..] == q[1..] + [k] + rest;
      var t' := PutAt(t, q, k, Table(map[])).value;
      var sub := SetPath(t[q[0]].entries, path[1..], raw);
      if sub.Some? { assert t'[q[0] := Table(sub.value)] == t[q[0] := Table(sub.value)]; }
    }
  }

  /** At the end of the walk, a dotted write is one replacement. */
  lemma {:induction false} SetPathIsPut(t: Entries, q: Path, k: string, raw: string)
    requires var at := Lookup(Table(t), q); at.Some? && at.value.Table?
    ensures SetPath(t, q + [k], raw) == PutAt(t, q, k, Scalar(raw))
    decreases |q|
  {
    if q != [] {
      SetPathIsPut(t[q[0]].entries, q[1..], k, raw);
      assert (q + [k])[1..] == q[1..] + [k];
    }
  }

  lemma {:induction false} ReachedTable(h: Heap, n: Dict, c: Dict, path: Path, depth: nat)
    requires Tree(h, depth) && Reaches(h, n, c, path)
    ensures c in h && Lookup(Table(Snapshot(h, n, depth)), path) == Some(Table(Snapshot(h, c, depth)))
    decreases |path|
  {
    if path != [] { ReachedTable(h, h[n][path[0]].dict, c, path[1..], depth); }
  }

  lemma ScalarOnTheWay(t: Entries, q: Path, k: string, rest: Path, raw: string)
    requires rest != []
    requires Lookup(Table(t), q).Some? && Lookup(Table(t), q).value.Table?
    requires k in Lookup(Table(t), q).value.entries && Lookup(Table(t), q).value.entries[k].Scalar?
    ensures SetPath(t, q + [k] + rest, raw).None?
    decreases |q|
  {
    if q != [] {
      ScalarOnTheWay(t[q[0]].entries, q[1..], k, rest, raw);
      assert (q + [k] + rest)[1..] == q[1..] + [k] + rest;
    }
  }

  // ---------------------------------------------------------------- shape

  ghost predicate HoldsChild(h: Heap, p: Dict, n: Dict)
    requires p in h
  {
    n.at != [] && n.at[|n.at| - 1] in h[p] && h[p][n.at[|n.at| - 1]] == Sub(n)
  }

  /** Every dictionary but the root is held by the dictionary one key above it. */
  ghost predicate LinkedUp(h: Heap, root: Dict) {
    forall n :: n in h && n != root ==> exists p :: p in h && HoldsChild(h, p, n)
  }

  ghost predicate Rooted(h: Heap, root: Dict, depth: nat) {
    root in h && root.at == [] && Tree(h, depth) && LinkedUp(h, root)
  }

  lemma PathIsFree(h: Heap, root: Dict, c: Dict, k: string, depth: nat)
    requires Rooted(h, root, depth) && c in h && (k in h[c] ==> h[c][k].Text?)
    ensures forall n :: n in h ==> n.at != c.at + [k]
  {
    forall n | n in h ensures n.at != c.at + [k] {
      if n != root {
        var p :| p in h && HoldsChild(h, p, n);
        var j := n.at[|n.at| - 1];
        assert n.at == p.at + [j];
        if p != c { assert p.at == n.at[..|p.at|] && c.at == (c.at + [k])[..|c.at|]; }
      }
    }
  }

  /** `h'` is `h` with a fresh empty dictionary `d` at entry `k` of `c`. */
  ghost predicate Extended(h: Heap, h': Heap, c: Dict, k: string, d: Dict) {
    && c in h && d !in h && d.at == c.at + [k]
    && h'.Keys == h.Keys + {d} && h'[d] == map[] && h'[c] == h[c][k := Sub(d)]
    && forall n :: n in h && n != c ==> h'[n] == h[n]
  }

  lemma NewChildTree(h: Heap, h': Heap, c: Dict, k: string, d: Dict, depth: nat)
    requires Tree(h, depth) && Extended(h, h', c, k, d) && |d.at| <= depth
    requires forall n :: n in h ==> n.at != d.at
    ensures Tree(h', depth)
  {}

  lemma NewChildLinked(h: Heap, h': Heap, root: Dict, c: Dict, k: string, d: Dict)
    requires LinkedUp(h, root) && Extended(h, h', c, k, d) && k !in h[c]
    ensures LinkedUp(h', root)
  {
    assert HoldsChild(h', c, d);
    forall n | n in h && n != root
      ensures exists p :: p in h' && HoldsChild(h', p, n)
    {
      var p :| p in h && HoldsChild(h, p, n);
      assert HoldsChild(h', p, n);
    }
  }

  lemma NewChild(h: Heap, h': Heap, root: Dict, c: Dict, k: string, d: Dict, depth: nat)
    requires Rooted(h, root, depth) && Extended(h, h', c, k, d) && k !in h[c] && |d.at| <= depth
    ensures Rooted(h', root, depth) && Assigned(h, h', c, k) && Snapshot(h', d, depth) == map[]
  {
    PathIsFree(h, root, c, k, depth);
    NewChildTree(h, h', c, k, d, depth);
    NewChildLinked(h, h', root, c, k, d);
  }

  lemma {:induction false} ReachesKept(h: Heap, h': Heap, n: Dict, x: Dict, path: Path, c: Dict, k: string)
    requires Reaches(h, n, x, path) && c in h && k !in h[c]
    requires c in h' && k in h'[c] && h'[c] == h[c][k := h'[c][k]]
    requires forall m :: m in h ==> m in h' && (m != c ==> h'[m] == h[m])
    ensures Reaches(h', n, x, path)
    decreases |path|
  {
    if path != [] { ReachesKept(h, h', h[n][path[0]].dict, x, path[1..], c, k); }
  }

  lemma Overwritten(h: Heap, h': Heap, root: Dict, c: Dict, k: string, raw: string, depth: nat)
    requires Rooted(h, root, depth) && c in h
    requires forall n :: n in h' <==> n in h && !(c.at + [k] <= n.at)
    requires forall n :: n in h' ==> h'[n] == if n == c then h[c][k := Text(raw)] else h[n]
    ensures Rooted(h', root, depth) && Assigned(h, h', c, k)
  {
    forall n, j | n in h' && j in h'[n] && h'[n][j].Sub?
      ensures h'[n][j].dict in h' && h'[n][j].dict.at == n.at + [j]
    {
      if n != c {
        assert h'[n][j] == h[n][j];
        KeptChild(h, c, k, n, j, depth);
      } else {
        assert (c.at + [k])[|c.at|] == k && (c.at + [j])[|c.at|] == j;
      }
    }
    forall n | n in h' && n != root
      ensures exists p :: p in h' && HoldsChild(h', p, n)
    {
      var p :| p in h && HoldsChild(h, p, n);
      var j := n.at[|n.at| - 1];
      assert n.at == p.at + [j];
      assert p.at == n.at[..|p.at|];
      assert HoldsChild(h', p, n);
    }
  }

  lemma KeptChild(h: Heap, c: Dict, k: string, n: Dict, j: string, depth: nat)
    requires Tree(h, depth) && c in h && n in h && j in h[n] && h[n][j].Sub?
    requires n != c && !(c.at + [k] <= n.at)
    ensures !(c.at + [k] <= h[n][j].dict.at)
  {
    assert h[n][j].dict.at == n.at + [j];
    assert n.at == (n.at + [j])[..|n.at|];
    assert c.at == (c.at + [k])[..|c.at|];
    if |c.at| == |n.at| { assert c.at != n.at; }
  }

  // ---------------------------------------------------------------- the walk

  /** `cur.setdefault(p, {})` on a missing key. */
  method SetDefault(cur: Dict, p: string, ghost root: Dict, ghost q: Path, ghost nodes: set<Dict>, ghost depth: nat)
    returns (d: Dict, ghost nodes': set<Dict>)
    requires Rooted(Contents(nodes), root, depth) && cur in nodes && p !in cur.entries && |cur.at| < depth
    requires Reaches(Contents(nodes), root, cur, q) && cur.at == q
    modifies cur
    ensures nodes' == nodes + {d} && fresh(d) && d.at == q + [p]
    ensures cur.entries == old(cur.entries)[p := Sub(d)]
    ensures Rooted(Contents(nodes'), root, depth) && Reaches(Contents(nodes'), root, d, q + [p])
    ensures PutAt(old(Snapshot(Contents(nodes), root, depth)), q, p, Table(map[])) ==
            Some(Snapshot(Contents(nodes'), root, depth))
  {
    ghost var h := Contents(nodes);
    d := new Dict(cur.at + [p]);
    cur.entries := cur.entries[p := Sub(d)];
    nodes' := nodes + {d};
    ghost var h' := Contents(nodes');
    assert Extended(h, h', cur, p, d);
    NewChild(h, h', root, cur, p, d, depth);
    SnapshotAbove(h, h', cur, p, root, q, depth);
    ReachesKept(h, h', root, cur, q, cur, p);
    ReachesExtend(h', root, cur, q, p);
  }

  /** `cur[k] = raw`; whatever dictionary was there is dropped. */
  method Store(cur: Dict, k: string, raw: string, ghost root: Dict, ghost q: Path, ghost nodes: set<Dict>,
               ghost depth: nat)
    returns (ghost nodes': set<Dict>)
    requires Rooted(Contents(nodes), root, depth) && cur in nodes
    requires Reaches(Contents(nodes), root, cur, q) && cur.at == q
    modifies cur
    ensures nodes' <= nodes && Rooted(Contents(nodes'), root, depth)
    ensures SetPath(old(Snapshot(Contents(nodes), root, depth)), q + [k], raw) ==
            Some(Snapshot(Contents(nodes'), root, depth))
  {
    ghost var h := Contents(nodes);
    ReachedTable(h, root, cur, q, depth);
    SetPathIsPut(Snapshot(h, root, depth), q, k, raw);
    cur.entries := cur.entries[k := Text(raw)];
    nodes' := set n | n in nodes && !(cur.at + [k] <= n.at);
    ghost var h' := Contents(nodes');
    Overwritten(h, h', root, cur, k, raw, depth);
    SnapshotAbove(h, h', cur, k, root, q, depth);
  }

  /** One step of the walk: `cur = cur.setdefault(p, {})`, or failure on a scalar. */
  method Descend(cur: Dict, p: string, ghost root: Dict, ghost q: Path, ghost rest: Path, ghost raw: string,
                 ghost nodes: set<Dict>, ghost depth: nat)
    returns (next: Option<Dict>, ghost nodes': set<Dict>)
    requires Rooted(Contents(nodes), root, depth) && cur in nodes && |q| < depth && rest != []
    requires Reaches(Contents(nodes), root, cur, q) && cur.at == q
    modifies cur
    ensures nodes <= nodes' && fresh(nodes' - nodes) && Rooted(Contents(nodes'), root, depth)
    ensures next.Some? ==> next.value in nodes' && Reaches(Contents(nodes'), root, next.value, q + [p]) &&
                           next.value.at == q + [p]
    ensures next.None? ==> SetPath(old(Snapshot(Contents(nodes), root, depth)), q + [p] + rest, raw).None?
    ensures next.Some? ==> SetPath(Snapshot(Contents(nodes'), root, depth), q + [p] + rest, raw) ==
                           SetPath(old(Snapshot(Contents(nodes), root, depth)), q + [p] + rest, raw)
  {
    nodes' := nodes;
    ghost var t := Snapshot(Contents(nodes), root, depth);
    ReachedTable(Contents(nodes), root, cur, q, depth);
    if p !in cur.entries {
      SetPathAfterDefault(t, q, p, rest, raw);
      var d;
      d, nodes' := SetDefault(cur, p, root, q, nodes, depth);
      next := Some(d);
    } else {
      match cur.entries[p] {
        case Text(_) =>
          ScalarOnTheWay(t, q, p, rest, raw);
          next := None;
        case Sub(d) =>
          ReachesExtend(Contents(nodes), root, cur, q, p);
          next := Some(d);
      }
    }
  }

  lemma PathAt(path: Path, i: nat)
    requires i < |path|
    ensures path == path[..i] + [path[i]] + path[i + 1..] && path[..i + 1] == path[..i] + [path[i]]
  {}

  /** The step at part `i` of a path. */
  method DescendAt(cur: Dict, path: Path, i: nat, ghost root: Dict, ghost raw: string,
                   ghost nodes: set<Dict>, ghost depth: nat)
    returns (next: Option<Dict>, ghost nodes': set<Dict>)
    requires Rooted(Contents(nodes), root, depth) && cur in nodes && i < |path| - 1 && |path| <= depth
    requires Reaches(Contents(nodes), root, cur, path[..i]) && cur.at == path[..i]
    modifies cur
    ensures nodes <= nodes' && fresh(nodes' - nodes) && Rooted(Contents(nodes'), root, depth)
    ensures next.Some? ==> next.value in nodes' && Reaches(Contents(nodes'), root, next.value, path[..i + 1]) &&
                           next.value.at == path[..i + 1]
    ensures next.None? ==> SetPath(old(Snapshot(Contents(nodes), root, depth)), path, raw).None?
    ensures next.Some? ==> SetPath(Snapshot(Contents(nodes'), root, depth), path, raw) ==
                           SetPath(old(Snapshot(Contents(nodes), root, depth)), path, raw)
  {
    PathAt(path, i);
    next, nodes' := Descend(cur, path[i], root, path[..i], path[i + 1..], raw, nodes, depth);
  }

  /** One dotted write through a cursor, in place. */
  method SetDotted(root: Dict, path: Path, raw: string, ghost nodes: set<Dict>, ghost depth: nat)
    returns (ok: bool, ghost nodes': set<Dict>)
    requires path != [] && |path| <= depth && Rooted(Contents(nodes), root, depth)
    modifies nodes
    ensures fresh(nodes' - nodes) && Rooted(Contents(nodes'), root, depth)
    ensures var t := old(Snapshot(Contents(nodes), root, depth));
            && ok == SetPath(t, path, raw).Some?
            && (ok ==> Snapshot(Contents(nodes'), root, depth) == SetPath(t, path, raw).value)
  {
    ghost var t0 := Snapshot(Contents(nodes), root, depth);
    nodes' := nodes;
    var cur := root;
    assert path[..0] == [] && Reaches(Contents(nodes), root, root, []);
    var i := 0;
    while i < |path| - 1
      invariant 0 <= i < |path|
      invariant fresh(nodes' - nodes) && Rooted(Contents(nodes'), root, depth)
      invariant cur in nodes' && Reaches(Contents(nodes'), root, cur, path[..i]) && cur.at == path[..i]
      invariant SetPath(Snapshot(Contents(nodes'), root, depth), path, raw) == SetPath(t0, path, raw)
    {
      var next;
      next, nodes' := DescendAt(cur, path, i, root, raw, nodes', depth);
      if next.None? { return false, nodes'; }
      cur := next.value;
      i := i + 1;
    }
    assert path == path[..i] + [path[i]];
    nodes' := Store(cur, path[i], raw, root, path[..i], nodes', depth);
    ok := true;
  }

  // ---------------------------------------------------------------- all pairs

  ghost function Deepest(items: seq<string>): nat {
    if items == [] then 0
    else
      var rest, l := Deepest(items[..|items| - 1]), |SettingsOf(items)[|items| - 1].path|;
      if l > rest then l else rest
  }

  lemma {:induction false} DeepestBounds(items: seq<string>, i: nat)
    requires i < |items|
    ensures |SettingsOf(items)[i].path| <= Deepest(items)
  {
    if i < |items| - 1 { DeepestBounds(items[..|items| - 1], i); }
  }

  /** An empty root dictionary. */
  method NewRoot(ghost depth: nat) returns (root: Dict, ghost nodes: set<Dict>)
    ensures fresh(nodes) && Rooted(Contents(nodes), root, depth) && Snapshot(Contents(nodes), root, depth) == map[]
  {
    root := new Dict([]);
    nodes := {root};
  }

  /** The loop body: parse one item and write it. */
  method ApplyItem(out: Dict, item: string, ghost nodes: set<Dict>, ghost depth: nat)
    returns (err: Option<SetError>, ghost nodes': set<Dict>)
    requires Rooted(Contents(nodes), out, depth)
    requires ParseItem(item).Some? ==> |ParseItem(item).value.path| <= depth
    modifies nodes
    ensures fresh(nodes' - nodes) && Rooted(Contents(nodes'), out, depth)
    ensures var t := old(Snapshot(Contents(nodes), out, depth));
            match ParseItem(item)
            case None => err == Some(MissingEquals(item))
            case Some(s) =>
              match SetPath(t, s.path, s.raw)
              case None => err == Some(NotATable(item))
              case Some(t') => err == None && Snapshot(Contents(nodes'), out, depth) == t'
  {
    match ParseItem(item)
    case None =>
      err, nodes' := Some(MissingEquals(item)), nodes;
    case Some(s) =>
      var ok;
      ok, nodes' := SetDotted(out, s.path, s.raw, nodes, depth);
      err := if ok then None else Some(NotATable(item));
  }

  /** The loop body at item `i`, against the parse of one more item. */
  method ApplyAt(items: seq<string>, i: nat, out: Dict, ghost nodes: set<Dict>, ghost depth: nat)
    returns (err: Option<SetError>, ghost nodes': set<Dict>)
    requires i < |items| && depth == Deepest(items) && Rooted(Contents(nodes), out, depth)
    requires ParseSettings(items[..i]) == Ok(Snapshot(Contents(nodes), out, depth))
    modifies nodes
    ensures fresh(nodes' - nodes) && Rooted(Contents(nodes'), out, depth)
    ensures ParseSettings(items[..i + 1]) ==
            if err.None? then Ok(Snapshot(Contents(nodes'), out, depth)) else Err(err.value)
  {
    assert items[..i + 1][..i] == items[..i];
    DeepestBounds(items, i);
    if '=' in items[i] { SettingAt(items, i); }
    OneMoreItem(items[..i + 1], Snapshot(Contents(nodes), out, depth));
    err, nodes' := ApplyItem(out, items[i], nodes, depth);
  }

  /** All `--set` items in order. The dictionaries built in place hold exactly the parsed table;
      the first bad item stops the loop. */
  method ParseSetArgs(items: seq<string>)
    returns (out: Dict, err: Option<SetError>, ghost nodes: set<Dict>, ghost depth: nat)
    ensures fresh(nodes) && Rooted(Contents(nodes), out, depth)
    ensures ParseSettings(items) ==
            if err.None? then Ok(Snapshot(Contents(nodes), out, depth)) else Err(err.value)
  {
    depth, err := Deepest(items), None;
    out, nodes := NewRoot(depth);
    assert items[..0] == [] && ParseSettings([]) == Ok(map[]);
    var i := 0;
    while i < |items|
      invariant 0 <= i <= |items| && depth == Deepest(items)
      invariant fresh(nodes) && Rooted(Contents(nodes), out, depth)
      invariant err.None?
      invariant ParseSettings(items[..i]) == Ok(Snapshot(Contents(nodes), out, depth))
    {
      err, nodes := ApplyAt(items, i, out, nodes, depth);
      if err.Some? {
        ErrorsStick(items, i + 1);
        return;
      }
      i := i + 1;
    }
    assert items[..i] == items;
  }

  lemma OneMoreItem(items: seq<string>, t: Entries)
    requires items != [] && ParseSettings(items[..|items| - 1]) == Ok(t)
    ensures ParseSettings(items) ==
            match ParseItem(items[|items| - 1])
            case None => Err(MissingEquals(items[|items| - 1]))
            case Some(s) =>
              match SetPath(t, s.path, s.raw)
              case None => Err(NotATable(items[|items| - 1]))
              case Some(t') => Ok(t')
  {}

  lemma {:induction false} ErrorsStick(items: seq<string>, i: nat)
    requires i <= |items| && ParseSettings(items[..i]).Err?
    ensures ParseSettings(items) == ParseSettings(items[..i])
    decreases |items|
  {
    if i < |items| {
      var init := items[..|items| - 1];
      assert init[..i] == items[..i];
      ErrorsStick(init, i);
    } else {
      assert items[..i] == items;
    }
  }
}
