/** The registry and Git packages a binary ships: those its root reaches through
    normal and build dependencies. */
module ShippedPackages {
  import opened Wrappers

  type Id = string

  datatype Package = Package(id: Id, name: string, version: string, source: Option<string>)

  datatype Dependency = Dependency(pkg: Id, kinds: seq<Option<string>>)

  datatype Node = Node(id: Id, deps: seq<Dependency>)

  datatype Metadata = Metadata(packages: seq<Package>, nodes: seq<Node>, root: Id)

  /** A later entry of the same id replaces an earlier one. */
  function PackagesById(packages: seq<Package>): map<Id, Package> {
    if packages == [] then map[]
    else
      var last := packages[|packages| - 1];
      PackagesById(packages[..|packages| - 1])[last.id := last]
  }

  function DepsById(nodes: seq<Node>): map<Id, seq<Dependency>> {
    if nodes == [] then map[]
    else
      var last := nodes[|nodes| - 1];
      DepsById(nodes[..|nodes| - 1])[last.id := last.deps]
  }

  /** Normal (no kind) or build. */
  predicate Ships(dependency: Dependency) {
    None in dependency.kinds || Some("build") in dependency.kinds
  }

  /** What is keyed by an id is the last entry listed with it. */
  lemma {:induction false} LastPackageOfId(packages: seq<Package>, package: Package)
    ensures package.id in PackagesById(packages) && PackagesById(packages)[package.id] == package <==>
            exists i :: 0 <= i < |packages| && packages[i] == package
                        && forall j | i < j < |packages| :: packages[j].id != package.id
  {
    if packages != [] {
      LastPackageOfId(packages[..|packages| - 1], package);
    }
  }

  ghost predicate LastWithId(nodes: seq<Node>, i: int, id: Id) {
    0 <= i < |nodes| && nodes[i].id == id && forall j | i < j < |nodes| :: nodes[j].id != id
  }

  lemma {:induction false} LastDepsOfId(nodes: seq<Node>, id: Id)
    ensures id in DepsById(nodes) <==> exists i :: LastWithId(nodes, i, id)
    ensures forall i | LastWithId(nodes, i, id) :: id in DepsById(nodes) && DepsById(nodes)[id] == nodes[i].deps
  {
    if nodes != [] {
      var n := |nodes| - 1;
      LastDepsOfId(nodes[..n], id);
      if nodes[n].id == id {
        assert LastWithId(nodes, n, id);
      } else {
        forall i ensures LastWithId(nodes, i, id) <==> LastWithId(nodes[..n], i, id) {}
      }
    }
  }

  // ----------------------------------------------------------- reachability

  ghost predicate Edge(nodes: map<Id, seq<Dependency>>, a: Id, b: Id) {
    a in nodes && exists d :: d in nodes[a] && Ships(d) && d.pkg == b
  }

  ghost predicate Path(nodes: map<Id, seq<Dependency>>, path: seq<Id>) {
    path != [] && forall i | 0 < i < |path| :: Edge(nodes, path[i - 1], path[i])
  }

  ghost predicate Reaches(nodes: map<Id, seq<Dependency>>, root: Id, id: Id) {
    exists path :: Path(nodes, path) && path[0] == root && path[|path| - 1] == id
  }

  /** A dependency on `id` without a kind, or for building. */
  ghost predicate Needs(d: Dependency, id: Id) {
    d.pkg == id && exists k :: 0 <= k < |d.kinds| && (d.kinds[k] == None || d.kinds[k] == Some("build"))
  }

  /** One id leads to another exactly when the last node of the first needs the
      second. */
  lemma EdgeExactly(nodes: seq<Node>, a: Id, b: Id)
    ensures Edge(DepsById(nodes), a, b) <==>
            exists i, d: Dependency :: LastWithId(nodes, i, a) && d in nodes[i].deps && Needs(d, b)
  {
    LastDepsOfId(nodes, a);
    if Edge(DepsById(nodes), a, b) {
      var d :| d in DepsById(nodes)[a] && Ships(d) && d.pkg == b;
      var i :| LastWithId(nodes, i, a);
      assert d in nodes[i].deps && Needs(d, b);
    }
    if i, d: Dependency :| LastWithId(nodes, i, a) && d in nodes[i].deps && Needs(d, b) {
      assert Ships(d);
    }
  }

  lemma ReachesStep(nodes: map<Id, seq<Dependency>>, root: Id, a: Id, b: Id)
    requires Reaches(nodes, root, a) && Edge(nodes, a, b)
    ensures Reaches(nodes, root, b)
  {
    var path :| Path(nodes, path) && path[0] == root && path[|path| - 1] == a;
    assert Path(nodes, path + [b]);
  }

  lemma {:induction false} ClosedHoldsPath(nodes: map<Id, seq<Dependency>>, closed: set<Id>, path: seq<Id>)
    requires Path(nodes, path) && path[0] in closed
    requires forall a, b | a in closed && Edge(nodes, a, b) :: b in closed
    ensures path[|path| - 1] in closed
    decreases |path|
  {
    if |path| > 1 {
      var init := path[..|path| - 1];
      ClosedHoldsPath(nodes, closed, init);
      assert Edge(nodes, path[|path| - 2], path[|path| - 1]);
    }
  }

  // ------------------------------------------------------------------- order

  predicate AtMost(a: string, b: string) {
    a == [] || (b != [] && (a[0] < b[0] || (a[0] == b[0] && AtMost(a[1..], b[1..]))))
  }

  lemma {:induction false} AtMostTotal(a: string, b: string)
    ensures AtMost(a, b) || AtMost(b, a)
  {
    if a != [] && b != [] && a[0] == b[0] {
      AtMostTotal(a[1..], b[1..]);
    }
  }

  lemma {:induction false} AtMostAntisymmetric(a: string, b: string)
    requires AtMost(a, b) && AtMost(b, a)
    ensures a == b
  {
    if a != [] {
      AtMostAntisymmetric(a[1..], b[1..]);
      assert a == [a[0]] + a[1..] && b == [b[0]] + b[1..];
    }
  }

  lemma {:induction false} AtMostTransitive(a: string, b: string, c: string)
    requires AtMost(a, b) && AtMost(b, c)
    ensures AtMost(a, c)
  {
    if a != [] && a[0] == b[0] && b[0] == c[0] {
      AtMostTransitive(a[1..], b[1..], c[1..]);
    }
  }

  /** By name, then version. */
  predicate Before(p: Package, q: Package) {
    if p.name == q.name then AtMost(p.version, q.version) else AtMost(p.name, q.name)
  }

  lemma BeforeTotal(p: Package, q: Package)
    ensures Before(p, q) || Before(q, p)
  {
    AtMostTotal(p.name, q.name);
    AtMostTotal(p.version, q.version);
  }

  lemma BeforeTransitive(p: Package, q: Package, r: Package)
    requires Before(p, q) && Before(q, r)
    ensures Before(p, r)
  {
    if p.name == q.name == r.name {
      AtMostTransitive(p.version, q.version, r.version);
    } else if p.name != q.name && q.name != r.name {
      AtMostTransitive(p.name, q.name, r.name);
      if p.name == r.name {
        AtMostAntisymmetric(p.name, q.name);
      }
    }
  }

  ghost predicate Sorted(s: seq<Package>) {
    forall i, j | 0 <= i < j < |s| :: Before(s[i], s[j])
  }

  /** Put `p` after every package it is not before. */
  function Insert(s: seq<Package>, p: Package): (r: seq<Package>)
    ensures multiset(r) == multiset(s) + multiset{p}
  {
    if s == [] then [p]
    else if Before(s[0], p) then
      assert s == [s[0]] + s[1..];
      [s[0]] + Insert(s[1..], p)
    else [p] + s
  }

  lemma {:induction false} InsertSorts(s: seq<Package>, p: Package)
    requires Sorted(s)
    ensures Sorted(Insert(s, p))
    decreases |s|
  {
    if s != [] {
      if Before(s[0], p) {
        var rest := Insert(s[1..], p);
        InsertSorts(s[1..], p);
        forall i | 0 <= i < |rest| ensures Before(s[0], rest[i]) {
          assert rest[i] in multiset(rest);
          assert rest[i] == p || rest[i] in s[1..];
        }
      } else {
        BeforeTotal(s[0], p);
        forall i | 0 <= i < |s| ensures Before(p, s[i]) {
          if i > 0 {
            BeforeTransitive(p, s[0], s[i]);
          }
        }
      }
    }
  }

  /** The packages by name and version. */
  function SortedBy(s: seq<Package>): (r: seq<Package>)
    ensures multiset(r) == multiset(s)
  {
    if s == [] then []
    else
      assert s == s[..|s| - 1] + [s[|s| - 1]];
      Insert(SortedBy(s[..|s| - 1]), s[|s| - 1])
  }

  lemma {:induction false} SortedBySorts(s: seq<Package>)
    ensures Sorted(SortedBy(s))
    decreases |s|
  {
    if s != [] {
      SortedBySorts(s[..|s| - 1]);
      InsertSorts(SortedBy(s[..|s| - 1]), s[|s| - 1]);
    }
  }

  // ------------------------------------------------------------ the worklist

  /** Everything reachable from the root, unless a reachable id has no node. */
  method Reachable(nodes: map<Id, seq<Dependency>>, root: Id) returns (r: Result<set<Id>, Id>)
    ensures r.Ok? ==> forall id :: id in r.value <==> Reaches(nodes, root, id)
    ensures r.Ok? ==> r.value <= nodes.Keys
    ensures r.Err? ==> Reaches(nodes, root, r.error) && r.error !in nodes
  {
    var seen: set<Id> := {};
    var pending := [root];
    assert Path(nodes, [root]);
    while pending != []
      invariant seen <= nodes.Keys
      invariant forall id | id in seen :: Reaches(nodes, root, id)
      invariant forall i | 0 <= i < |pending| :: Reaches(nodes, root, pending[i])
      invariant root in seen || root in pending
      invariant forall a, b | a in seen && Edge(nodes, a, b) :: b in seen || b in pending
      decreases nodes.Keys - seen, |pending|
    {
      var id := pending[|pending| - 1];
      ghost var was := pending;
      pending := pending[..|pending| - 1];
      assert was == pending + [id];
      if id in seen {
        continue;
      }
      seen := seen + {id};
      if id !in nodes {
        return Err(id);
      }
      pending := AddShipped(nodes, root, id, pending);
    }
    forall id ensures id in seen <==> Reaches(nodes, root, id) {
      if path :| Path(nodes, path) && path[0] == root && path[|path| - 1] == id {
        ClosedHoldsPath(nodes, seen, path);
      }
    }
    return Ok(seen);
  }

  method AddShipped(nodes: map<Id, seq<Dependency>>, ghost root: Id, id: Id, pending: seq<Id>) returns (r: seq<Id>)
    requires id in nodes && Reaches(nodes, root, id)
    requires forall i | 0 <= i < |pending| :: Reaches(nodes, root, pending[i])
    ensures pending <= r && forall i | 0 <= i < |r| :: Reaches(nodes, root, r[i])
    ensures forall b | Edge(nodes, id, b) :: b in r
  {
    r := pending;
    var deps := nodes[id];
    for i := 0 to |deps|
      invariant pending <= r && forall i | 0 <= i < |r| :: Reaches(nodes, root, r[i])
      invariant forall k | 0 <= k < i && Ships(deps[k]) :: deps[k].pkg in r
    {
      if Ships(deps[i]) {
        assert Edge(nodes, id, deps[i].pkg);
        ReachesStep(nodes, root, id, deps[i].pkg);
        ghost var was := r;
        r := r + [deps[i].pkg];
        assert forall b | b in was :: b in r;
        assert r[|was|] == deps[i].pkg;
      }
    }
    forall b | Edge(nodes, id, b) ensures b in r {
      var d :| d in deps && Ships(d) && d.pkg == b;
      var k :| 0 <= k < |deps| && deps[k] == d;
    }
  }

  lemma {:induction false} KeyedById(packages: seq<Package>)
    ensures forall id | id in PackagesById(packages) :: PackagesById(packages)[id].id == id
  {
    if packages != [] {
      KeyedById(packages[..|packages| - 1]);
    }
  }

  /** A reachable id the metadata does not describe. */
  ghost predicate Undescribed(m: Metadata, id: Id) {
    Reaches(DepsById(m.nodes), m.root, id) && (id !in DepsById(m.nodes) || id !in PackagesById(m.packages))
  }

  ghost predicate Shipped(m: Metadata, p: Package) {
    && Reaches(DepsById(m.nodes), m.root, p.id)
    && p.id in PackagesById(m.packages) && PackagesById(m.packages)[p.id] == p && p.source.Some?
  }

  /** Exactly the packages of a registry or Git source that the root reaches, each
      once, by name and version; or an error exactly when something it reaches is
      not described. */
  method ShippedPackages(m: Metadata) returns (r: Result<seq<Package>, Id>)
    ensures r.Err? <==> exists id :: Undescribed(m, id)
    ensures r.Err? ==> Undescribed(m, r.error)
    ensures r.Ok? ==> forall p :: multiset(r.value)[p] == if Shipped(m, p) then 1 else 0
    ensures r.Ok? ==> Sorted(r.value)
  {
    var packages, nodes := PackagesById(m.packages), DepsById(m.nodes);
    var reached := Reachable(nodes, m.root);
    if reached.Err? {
      assert Undescribed(m, reached.error);
      return Err(reached.error);
    }
    var seen := reached.value;
    var shipped: seq<Package> := [];
    var left := seen;
    KeyedById(m.packages);
    while left != {}
      invariant left <= seen
      invariant forall id | id in seen && id !in left :: id in packages
      invariant forall p :: multiset(shipped)[p] == if Shipped(m, p) && p.id !in left then 1 else 0
      decreases left
    {
      var id :| id in left;
      left := left - {id};
      if id !in packages {
        assert Undescribed(m, id);
        return Err(id);
      }
      if packages[id].source.Some? {
        shipped := shipped + [packages[id]];
      }
    }
    SortedBySorts(shipped);
    return Ok(SortedBy(shipped));
  }

  /** The order of shipped packages is determined exactly when no two of them
      share name and version. */
  lemma OrderIsDetermined(a: seq<Package>)
    requires Sorted(a)
    ensures OnePerVersion(a) <==> forall b | Sorted(b) && multiset(b) == multiset(a) :: b == a
  {
    if OnePerVersion(a) {
      forall b | Sorted(b) && multiset(b) == multiset(a) ensures b == a {
        OneOrder(a, b);
      }
    } else {
      var i, j :| 0 <= i < |a| && 0 <= j < |a| && a[i].name == a[j].name && a[i].version == a[j].version && a[i] != a[j];
      OtherOrder(a, i, j);
      assert a[i := a[j]][j := a[i]] != a;
    }
  }

  /** Two packages of one name and version may come either way round. */
  lemma OtherOrder(a: seq<Package>, i: nat, j: nat)
    requires Sorted(a) && i < |a| && j < |a| && a[i].name == a[j].name && a[i].version == a[j].version && a[i] != a[j]
    ensures var b := a[i := a[j]][j := a[i]];
            Sorted(b) && multiset(b) == multiset(a) && b[i] == a[j] && b != a
  {
  }

  lemma {:induction false} OneOrder(a: seq<Package>, b: seq<Package>)
    requires Sorted(a) && Sorted(b) && multiset(a) == multiset(b)
    requires OnePerVersion(a)
    ensures a == b
    decreases |a|
  {
    assert |multiset(a)| == |multiset(b)|;
    if a != [] {
      FirstsAgree(a, b);
      assert a == [a[0]] + a[1..] && b == [b[0]] + b[1..];
      RestOf(a);
      RestOf(b);
      OneOrder(a[1..], b[1..]);
    }
  }

  lemma RestOf(a: seq<Package>)
    requires a != []
    ensures multiset(a[1..]) == multiset(a) - multiset{a[0]}
  {
    assert a == [a[0]] + a[1..];
  }

  ghost predicate OnePerVersion(a: seq<Package>) {
    forall i, j | 0 <= i < |a| && 0 <= j < |a| && a[i].name == a[j].name && a[i].version == a[j].version :: a[i] == a[j]
  }

  lemma FirstsAgree(a: seq<Package>, b: seq<Package>)
    requires Sorted(a) && Sorted(b) && multiset(a) == multiset(b) && a != [] && b != []
    requires OnePerVersion(a)
    ensures a[0] == b[0]
  {
    assert b[0] in multiset(b) && a[0] in multiset(a);
    FirstIsBeforeAll(a, b[0]);
    FirstIsBeforeAll(b, a[0]);
    SameRank(a[0], b[0]);
  }

  lemma FirstIsBeforeAll(a: seq<Package>, p: Package)
    requires Sorted(a) && p in multiset(a)
    ensures p in a && (p == a[0] || Before(a[0], p))
  {
    var i :| 0 <= i < |a| && a[i] == p;
  }

  lemma SameRank(p: Package, q: Package)
    requires (p == q || Before(p, q)) && (p == q || Before(q, p))
    ensures p.name == q.name && p.version == q.version
  {
    if p != q {
      if p.name == q.name {
        AtMostAntisymmetric(p.version, q.version);
      } else {
        AtMostAntisymmetric(p.name, q.name);
      }
    }
  }
}
