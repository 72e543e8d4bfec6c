/** Scopes of locked dependencies: the index over the lock file, the resolution of
    one dependency, and the worklist that tags every package with the scopes
    whose roots reach it. */
module LockGraph {
  import opened Options

  datatype Key = Key(name: string, version: string)

  datatype Dep = Dep(name: string, version: Option<string>)

  /** One entry of the lock file; `editable` marks the project itself. */
  datatype Package = Package(key: Key, deps: seq<Dep>, editable: bool)

  datatype Scope = Runtime | Reference | Dev | Build

  datatype Index = Index(packages: map<Key, seq<Dep>>, byName: map<string, seq<Key>>)

  function Candidates(g: Index, name: string): seq<Key> {
    if name in g.byName then g.byName[name] else []
  }

  /** `_resolve_locked_dependency`; none is the raised error. */
  function Resolve(g: Index, d: Dep): Option<Key> {
    if d.version.Some? then
      if Key(d.name, d.version.value) in Candidates(g, d.name) then Some(Key(d.name, d.version.value)) else None
    else if |Candidates(g, d.name)| == 1 then Some(Candidates(g, d.name)[0]) else None
  }

  predicate NoRepeats(ks: seq<Key>) {
    forall i, j :: 0 <= i < j < |ks| ==> ks[i] != ks[j]
  }

  /** The candidates of a name are exactly the locked packages of that name, each once. */
  ghost predicate WellIndexed(g: Index) {
    forall name ::
      && NoRepeats(Candidates(g, name))
      && (forall k :: k in Candidates(g, name) <==> k in g.packages && k.name == name)
  }

  /** What a dependency means: the locked package with its name and version, or the only one with its name. */
  lemma ResolveMeaning(g: Index, d: Dep, k: Key)
    requires WellIndexed(g)
    ensures Resolve(g, d) == Some(k) <==>
      && k in g.packages && k.name == d.name
      && match d.version {
           case Some(v) => k.version == v
           case None => forall j :: j in g.packages && j.name == d.name ==> j == k
         }
  {
    var ks := Candidates(g, d.name);
    assert NoRepeats(ks) && (|ks| >= 2 ==> ks[0] != ks[1]);
    if d.version == None {
      if |ks| == 1 { assert ks[0] in ks; }
      if k in g.packages && k.name == d.name && forall j :: j in g.packages && j.name == d.name ==> j == k {
        assert k in ks;
        assert forall i :: 0 <= i < |ks| ==> ks[i] in ks && ks[i] == k;
      }
    }
  }

  /** A repeated package, two editable roots, or none. */
  ghost predicate Malformed(raw: seq<Package>) {
    || (exists i, j :: 0 <= i < j < |raw| && raw[i].key == raw[j].key)
    || (exists i, j :: 0 <= i < j < |raw| && raw[i].editable && raw[j].editable)
    || (forall i :: 0 <= i < |raw| ==> !raw[i].editable)
  }

  /** The first `n` entries are distinct, and the packages are exactly those. */
  ghost predicate Listed(raw: seq<Package>, n: nat, packages: map<Key, seq<Dep>>)
    requires n <= |raw|
  {
    && (forall i, j :: 0 <= i < j < n ==> raw[i].key != raw[j].key)
    && (forall i :: 0 <= i < n ==> raw[i].key in packages && packages[raw[i].key] == raw[i].deps)
    && (forall k :: k in packages ==> exists i :: 0 <= i < n && raw[i].key == k)
  }

  /** `root` is the editable one among the first `n` entries. */
  ghost predicate RootOf(raw: seq<Package>, n: nat, packages: map<Key, seq<Dep>>, root: Option<Key>)
    requires n <= |raw|
  {
    && (forall i :: 0 <= i < n ==> (raw[i].editable <==> root == Some(raw[i].key)))
    && (root.Some? ==> root.value in packages)
  }

  /** The first `n` entries are indexed, and `root` is the editable one among them. */
  ghost predicate Indexes(raw: seq<Package>, n: nat, g: Index, root: Option<Key>)
    requires n <= |raw|
  {
    WellIndexed(g) && Listed(raw, n, g.packages) && RootOf(raw, n, g.packages, root)
  }

  lemma ListedStep(raw: seq<Package>, n: nat, packages: map<Key, seq<Dep>>)
    requires n < |raw| && Listed(raw, n, packages) && raw[n].key !in packages
    ensures Listed(raw, n + 1, packages[raw[n].key := raw[n].deps])
  {
    var more := packages[raw[n].key := raw[n].deps];
    forall k | k in more ensures exists i :: 0 <= i < n + 1 && raw[i].key == k {
      if k != raw[n].key {
        var i :| 0 <= i < n && raw[i].key == k;
      } else {
        assert raw[n].key == k;
      }
    }
  }

  lemma RootStep(raw: seq<Package>, n: nat, packages: map<Key, seq<Dep>>, root: Option<Key>)
    requires n < |raw| && Listed(raw, n, packages) && RootOf(raw, n, packages, root)
    requires raw[n].key !in packages && !(raw[n].editable && root.Some?)
    ensures RootOf(raw, n + 1, packages[raw[n].key := raw[n].deps], if raw[n].editable then Some(raw[n].key) else root)
  {
  }

  lemma IndexStep(raw: seq<Package>, n: nat, g: Index, root: Option<Key>)
    requires n < |raw| && Indexes(raw, n, g, root) && raw[n].key !in g.packages && !(raw[n].editable && root.Some?)
    ensures Indexes(raw, n + 1, Add(g, raw[n]), if raw[n].editable then Some(raw[n].key) else root)
  {
    ListedStep(raw, n, g.packages);
    RootStep(raw, n, g.packages, root);
  }

  lemma IndexEnd(raw: seq<Package>, g: Index, root: Option<Key>)
    requires Indexes(raw, |raw|, g, root)
    ensures root.Some? <==> !Malformed(raw)
  {
    if root.Some? {
      var i :| 0 <= i < |raw| && raw[i].key == root.value;
      assert raw[i].editable;
    }
  }

  /** The first loop of `_locked_dependency_scopes`; none is a duplicate package, a second root or no root. */
  method BuildIndex(raw: seq<Package>) returns (g: Index, root: Option<Key>)
    ensures root.Some? <==> !Malformed(raw)
    ensures root.Some? ==> Indexes(raw, |raw|, g, root)
  {
    g, root := Index(map[], map[]), None;
    for n := 0 to |raw|
      invariant Indexes(raw, n, g, root)
    {
      if raw[n].key in g.packages {
        assert exists i :: 0 <= i < n && raw[i].key == raw[n].key;
        return g, None;
      }
      if raw[n].editable && root.Some? {
        assert exists i :: 0 <= i < n && raw[i].key == root.value;
        return g, None;
      }
      IndexStep(raw, n, g, root);
      g := Add(g, raw[n]);
      if raw[n].editable {
        root := Some(raw[n].key);
      }
    }
    IndexEnd(raw, g, root);
  }

  function Add(g: Index, p: Package): (r: Index)
    requires WellIndexed(g) && p.key !in g.packages
    ensures WellIndexed(r) && r.packages == g.packages[p.key := p.deps]
  {
    var r := Index(g.packages[p.key := p.deps], g.byName[p.key.name := Candidates(g, p.key.name) + [p.key]]);
    AddIndexed(g, p);
    r
  }

  lemma AddIndexed(g: Index, p: Package)
    requires WellIndexed(g) && p.key !in g.packages
    ensures WellIndexed(Index(g.packages[p.key := p.deps], g.byName[p.key.name := Candidates(g, p.key.name) + [p.key]]))
  {
    var r := Index(g.packages[p.key := p.deps], g.byName[p.key.name := Candidates(g, p.key.name) + [p.key]]);
    forall name ensures NoRepeats(Candidates(r, name))
      && forall k :: k in Candidates(r, name) <==> k in r.packages && k.name == name
    {
      assert NoRepeats(Candidates(g, name));
      if name != p.key.name { assert Candidates(r, name) == Candidates(g, name); }
    }
  }

  // ---------------------------------------------------------------------
  // Reachability
  // ---------------------------------------------------------------------

  ghost predicate Edge(g: Index, a: Key, b: Key) {
    a in g.packages && exists d :: d in g.packages[a] && Resolve(g, d) == Some(b)
  }

  ghost predicate Seeded(g: Index, seeds: seq<Dep>, k: Key) {
    exists d :: d in seeds && Resolve(g, d) == Some(k)
  }

  /** `k` is reached from the seeds over `n` resolved dependencies. */
  ghost predicate ReachIn(g: Index, seeds: seq<Dep>, k: Key, n: nat)
    decreases n
  {
    if n == 0 then Seeded(g, seeds, k) else exists a :: ReachIn(g, seeds, a, n - 1) && Edge(g, a, k)
  }

  ghost predicate Reach(g: Index, seeds: seq<Dep>, k: Key) {
    exists n: nat :: ReachIn(g, seeds, k, n)
  }

  /** Why a scope cannot be resolved: a dependency without a package, or a way back to the project. */
  ghost predicate Broken(g: Index, root: Key, seeds: seq<Dep>) {
    || (exists d :: d in seeds && Resolve(g, d) == None)
    || (exists k :: Reach(g, seeds, k) && (k !in g.packages || k == root))
    || (exists k, d :: Reach(g, seeds, k) && k in g.packages && d in g.packages[k] && Resolve(g, d) == None)
  }

  lemma ReachStep(g: Index, seeds: seq<Dep>, a: Key, b: Key)
    requires Reach(g, seeds, a) && Edge(g, a, b)
    ensures Reach(g, seeds, b)
  {
    var n: nat :| ReachIn(g, seeds, a, n);
    assert ReachIn(g, seeds, b, n + 1);
  }

  /** A set that holds the seeds and is closed under dependencies holds everything reachable. */
  lemma {:induction false} ClosedCovers(g: Index, seeds: seq<Dep>, tagged: set<Key>, k: Key, n: nat)
    requires forall x :: Seeded(g, seeds, x) ==> x in tagged
    requires forall a, b :: a in tagged && Edge(g, a, b) ==> b in tagged
    requires ReachIn(g, seeds, k, n)
    ensures k in tagged
    decreases n
  {
    if n > 0 {
      var a :| ReachIn(g, seeds, a, n - 1) && Edge(g, a, k);
      ClosedCovers(g, seeds, tagged, a, n - 1);
    }
  }

  // ---------------------------------------------------------------------
  // The worklist
  // ---------------------------------------------------------------------

  /** Every dependency of a list resolved in order; none if one does not resolve. */
  function ResolveAll(g: Index, deps: seq<Dep>): (r: Option<seq<Key>>)
    ensures r == None <==> exists d :: d in deps && Resolve(g, d) == None
    ensures r.Some? ==> forall k :: k in r.value <==> exists d :: d in deps && Resolve(g, d) == Some(k)
  {
    if deps == [] then Some([])
    else
      var rest := ResolveAll(g, deps[1..]);
      assert deps == [deps[0]] + deps[1..];
      if Resolve(g, deps[0]) == None || rest == None then None
      else Some([Resolve(g, deps[0]).value] + rest.value)
  }

  /** The tags of one scope added to what was there before. */
  ghost predicate TagsAdded(before: map<Key, set<Scope>>, scope: Scope, tagged: set<Key>, after: map<Key, set<Scope>>) {
    && tagged <= before.Keys && after.Keys == before.Keys
    && forall k :: k in before ==> after[k] == if k in tagged then before[k] + {scope} else before[k]
  }

  /** What the loop knows: everything tagged or pending is reachable, and nothing reachable in one
      step from a tagged package or from the seeds is missing from both. */
  ghost predicate Progress(g: Index, seeds: seq<Dep>, tagged: set<Key>, pending: seq<Key>) {
    && (forall k :: k in tagged || k in pending ==> Reach(g, seeds, k))
    && (forall k :: Seeded(g, seeds, k) ==> k in tagged || k in pending)
    && (forall a, b :: a in tagged && Edge(g, a, b) ==> b in tagged || b in pending)
    && (forall a, d :: a in tagged && a in g.packages && d in g.packages[a] ==> Resolve(g, d).Some?)
  }

  lemma ProgressStart(g: Index, seeds: seq<Dep>)
    requires ResolveAll(g, seeds).Some?
    ensures Progress(g, seeds, {}, ResolveAll(g, seeds).value)
  {
    forall k | k in ResolveAll(g, seeds).value ensures Reach(g, seeds, k) {
      assert ReachIn(g, seeds, k, 0);
    }
  }

  lemma ProgressSkip(g: Index, seeds: seq<Dep>, tagged: set<Key>, pending: seq<Key>)
    requires pending != [] && Progress(g, seeds, tagged, pending) && pending[|pending| - 1] in tagged
    ensures Progress(g, seeds, tagged, pending[..|pending| - 1])
  {
    assert pending == pending[..|pending| - 1] + [pending[|pending| - 1]];
  }

  lemma ProgressTag(g: Index, seeds: seq<Dep>, tagged: set<Key>, pending: seq<Key>, more: seq<Key>)
    requires pending != [] && Progress(g, seeds, tagged, pending)
    requires var k := pending[|pending| - 1]; k in g.packages && ResolveAll(g, g.packages[k]) == Some(more)
    ensures Progress(g, seeds, tagged + {pending[|pending| - 1]}, pending[..|pending| - 1] + more)
  {
    var k := pending[|pending| - 1];
    assert pending == pending[..|pending| - 1] + [k];
    assert k in pending;
    forall b | b in more ensures Reach(g, seeds, b) {
      assert Edge(g, k, b);
      ReachStep(g, seeds, k, b);
    }
  }

  /** With nothing pending, the tagged packages are exactly the reachable ones. */
  lemma ProgressEnd(g: Index, root: Key, seeds: seq<Dep>, tagged: set<Key>)
    requires Progress(g, seeds, tagged, []) && tagged <= g.packages.Keys - {root} && ResolveAll(g, seeds).Some?
    ensures forall k :: k in tagged <==> Reach(g, seeds, k)
    ensures !Broken(g, root, seeds)
  {
    forall k | Reach(g, seeds, k) ensures k in tagged {
      var n: nat :| ReachIn(g, seeds, k, n);
      ClosedCovers(g, seeds, tagged, k, n);
    }
  }

  /** The worklist of one scope; false is a raised error. Terminates on every graph. */
  method TagScope(g: Index, root: Key, scope: Scope, seeds: seq<Dep>, before: map<Key, set<Scope>>)
    returns (ok: bool, scopes: map<Key, set<Scope>>)
    requires before.Keys == g.packages.Keys - {root} && forall k :: k in before ==> scope !in before[k]
    ensures ok <==> !Broken(g, root, seeds)
    ensures ok ==> scopes.Keys == before.Keys
    ensures ok ==> forall k :: k in before ==>
      scopes[k] == if Reach(g, seeds, k) then before[k] + {scope} else before[k]
  {
    scopes := before;
    var resolved := ResolveAll(g, seeds);
    if resolved == None {
      return false, scopes;
    }
    var pending := resolved.value;
    ghost var tagged: set<Key> := {};
    ProgressStart(g, seeds);
    while pending != []
      invariant Progress(g, seeds, tagged, pending)
      invariant TagsAdded(before, scope, tagged, scopes)
      decreases before.Keys - tagged, |pending|
    {
      var key := pending[|pending| - 1];
      if key !in scopes {
        assert Reach(g, seeds, key);
        return false, scopes;
      }
      if scope in scopes[key] {
        ProgressSkip(g, seeds, tagged, pending);
        pending := pending[..|pending| - 1];
      } else {
        var more := ResolveAll(g, g.packages[key]);
        if more == None {
          assert Reach(g, seeds, key);
          return false, scopes;
        }
        ProgressTag(g, seeds, tagged, pending, more.value);
        scopes := scopes[key := scopes[key] + {scope}];
        pending := pending[..|pending| - 1] + more.value;
        tagged := tagged + {key};
      }
    }
    ProgressEnd(g, root, seeds, tagged);
    return true, scopes;
  }

  /** The roots of the build scope: the required packages that are locked; none if a name is ambiguous. */
  function BuildSeeds(g: Index, names: seq<string>): (r: Option<seq<Dep>>)
    ensures r == None <==> exists n :: n in names && |Candidates(g, n)| > 1
  {
    if names == [] then Some([])
    else
      var rest := BuildSeeds(g, names[1..]);
      assert names == [names[0]] + names[1..];
      var ks := Candidates(g, names[0]);
      if |ks| > 1 || rest == None then None
      else if |ks| == 1 then Some([Dep(names[0], Some(ks[0].version))] + rest.value)
      else rest
  }

  /** The build scope starts from exactly the locked packages whose names are required. */
  lemma {:induction false} BuildSeedsMeaning(g: Index, names: seq<string>, k: Key)
    requires WellIndexed(g) && BuildSeeds(g, names).Some?
    ensures Seeded(g, BuildSeeds(g, names).value, k) <==> k in g.packages && k.name in names
    ensures forall d :: d in BuildSeeds(g, names).value ==> Resolve(g, d).Some?
  {
    if names != [] {
      BuildSeedsMeaning(g, names[1..], k);
      assert names == [names[0]] + names[1..];
      var ks, rest := Candidates(g, names[0]), BuildSeeds(g, names[1..]).value;
      assert k in ks <==> k in g.packages && k.name == names[0];
      if |ks| == 1 {
        var d := Dep(names[0], Some(ks[0].version));
        assert ks[0] in ks && ks[0].name == names[0];
        assert Resolve(g, d) == Some(ks[0]);
        assert BuildSeeds(g, names).value == [d] + rest;
        assert Seeded(g, [d] + rest, k) <==> k == ks[0] || Seeded(g, rest, k);
      }
    }
  }

  datatype Roots = Roots(runtime: seq<Dep>, reference: seq<Dep>, dev: seq<Dep>, build: seq<Dep>) {
    function Of(scope: Scope): seq<Dep> {
      match scope
      case Runtime => runtime
      case Reference => reference
      case Dev => dev
      case Build => build
    }
  }

  ghost predicate ReachedBySome(g: Index, roots: Roots, k: Key) {
    exists scope: Scope :: Reach(g, roots.Of(scope), k)
  }

  /** The tags of the scopes in `done` are exactly the reachable packages, and there are no others. */
  ghost predicate TagsExact(g: Index, roots: Roots, done: set<Scope>, scopes: map<Key, set<Scope>>) {
    forall k, scope :: k in scopes ==> (scope in scopes[k] <==> scope in done && Reach(g, roots.Of(scope), k))
  }

  /** `_locked_dependency_scopes` once the lock file is indexed. It succeeds exactly if no scope is broken
      and every locked package is reached, and then tags every package with the scopes that reach it. */
  method LockedScopes(g: Index, root: Key, roots: Roots) returns (r: Option<map<Key, set<Scope>>>)
    requires root in g.packages
    ensures r.Some? <==>
      && (forall scope: Scope :: !Broken(g, root, roots.Of(scope)))
      && (forall k :: k in g.packages && k != root ==> ReachedBySome(g, roots, k))
    ensures r.Some? ==> r.value.Keys == g.packages.Keys - {root}
    ensures r.Some? ==> forall k, scope :: k in r.value ==> (scope in r.value[k] <==> Reach(g, roots.Of(scope), k))
  {
    var external := g.packages.Keys - {root};
    var scopes: map<Key, set<Scope>> := map k | k in external :: {};
    var order := [Runtime, Reference, Dev, Build];
    ghost var done: set<Scope> := {};
    for i := 0 to |order|
      invariant scopes.Keys == external
      invariant done == set j | 0 <= j < i :: order[j]
      invariant TagsExact(g, roots, done, scopes)
      invariant forall scope :: scope in done ==> !Broken(g, root, roots.Of(scope))
    {
      var ok, tagged := TagScope(g, root, order[i], roots.Of(order[i]), scopes);
      if !ok {
        return None;
      }
      TagsExtend(g, roots, done, scopes, order[i], tagged);
      scopes, done := tagged, done + {order[i]};
    }
    AllScopes(order, done);
    if k :| k in scopes && scopes[k] == {} {
      assert !ReachedBySome(g, roots, k);
      return None;
    }
    forall k | k in g.packages && k != root ensures ReachedBySome(g, roots, k) {
      var scope :| scope in scopes[k];
      assert Reach(g, roots.Of(scope), k);
    }
    return Some(scopes);
  }

  lemma TagsExtend(g: Index, roots: Roots, done: set<Scope>, scopes: map<Key, set<Scope>>,
                   scope: Scope, tagged: map<Key, set<Scope>>)
    requires TagsExact(g, roots, done, scopes) && tagged.Keys == scopes.Keys && scope !in done
    requires forall k :: k in scopes ==>
      tagged[k] == if Reach(g, roots.Of(scope), k) then scopes[k] + {scope} else scopes[k]
    ensures TagsExact(g, roots, done + {scope}, tagged)
  {
  }

  lemma AllScopes(order: seq<Scope>, done: set<Scope>)
    requires order == [Runtime, Reference, Dev, Build] && done == set j | 0 <= j < 4 :: order[j]
    ensures forall scope: Scope :: scope in done
  {
    assert order[0] in done && order[1] in done && order[2] in done && order[3] in done;
    forall scope: Scope ensures scope in done {
      match scope
      case Runtime =>
      case Reference =>
      case Dev =>
      case Build =>
    }
  }
}
