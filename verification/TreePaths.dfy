// In a tree, lookup is a one-to-one correspondence between paths and nodes.
module TreePaths {
  import opened ByteStrings
  import opened Directories
  import opened Inodes
  import opened Namespaces

  lemma {:induction false} ResolveAppend(g: Graph, i: nat, p: Path, q: Path)
    ensures Resolve(g, i, p + q) == match Resolve(g, i, p) { case Ok(j) => Resolve(g, j, q) case Err(e) => Err(e) }
    decreases |p|
  {
    if p == [] {
      assert p + q == q;
    } else {
      assert (p + q)[1..] == p[1..] + q;
      if i in g && g[i].Dir? && Find(g[i].entries, p[0]).Some? {
        ResolveAppend(g, Find(g[i].entries, p[0]).value, p[1..], q);
      }
    }
  }

  /** Looking up one more component follows an edge. */
  lemma ResolveLast(g: Graph, p: Path, name: Bytes, j: nat)
    requires Local(g)
    ensures Resolve(g, ROOT, p + [name]) == Ok(j) <==>
            Resolve(g, ROOT, p).Ok? && Edge(g, Resolve(g, ROOT, p).value, Dentry(name, j))
  {
    ResolveAppend(g, ROOT, p, [name]);
    if Resolve(g, ROOT, p).Ok? {
      var i := Resolve(g, ROOT, p).value;
      FindEdge(g, i, name);
      if Edge(g, i, Dentry(name, j)) { EdgeSource(g); }
    }
  }

  /** No path of the tree starts with the snapshot entry. */
  lemma NoSnapshotEntry(g: Graph, p: Path)
    requires Local(g) && p != [] && Resolve(g, ROOT, p).Ok?
    ensures p[0] != SNAPSHOT_ENTRY
  {
    FindEdge(g, ROOT, p[0]);
    var e := Dentry(p[0], Find(Entries(g, ROOT), p[0]).value);
    assert Edge(g, ROOT, e) && EdgeOk(g, ROOT, e);
  }

  ghost function ParentEdge(g: Graph, j: nat): (p: (nat, Dentry))
    requires HasParent(g, j)
    ensures Edge(g, p.0, p.1) && p.1.id == j
  {
    var i: nat, e: Dentry :| Edge(g, i, e) && e.id == j;
    (i, e)
  }

  /** The path from the root to a node. */
  ghost function PathTo(g: Graph, rank: map<nat, nat>, bound: nat, j: nat): Path
    requires Local(g) && Ranked(g, rank, bound) && j in g
    decreases if j in rank then rank[j] else 0
  {
    if j == ROOT then [] else
      var (i, e) := ParentEdge(g, j);
      PathTo(g, rank, bound, i) + [e.name]
  }

  lemma {:induction false} PathResolves(g: Graph, rank: map<nat, nat>, bound: nat, j: nat)
    requires Local(g) && Ranked(g, rank, bound) && j in g
    ensures Resolve(g, ROOT, PathTo(g, rank, bound, j)) == Ok(j)
    decreases rank[j]
  {
    if j != ROOT {
      var (i, e) := ParentEdge(g, j);
      PathResolves(g, rank, bound, i);
      ResolveLast(g, PathTo(g, rank, bound, i), e.name, j);
    }
  }

  /** The edge to a node is the one that its path takes. */
  lemma ParentIs(g: Graph, i: nat, e: Dentry)
    requires Local(g) && Edge(g, i, e)
    ensures e.id in g && e.id != ROOT && HasParent(g, e.id) && ParentEdge(g, e.id) == (i, e)
  {
    assert EdgeOk(g, i, e);
    assert HasParent(g, e.id);
    var p := ParentEdge(g, e.id);
    assert Edge(g, p.0, p.1) && p.1.id == e.id;
  }

  lemma RootResolves(g: Graph)
    ensures Resolve(g, ROOT, []) == Ok(ROOT)
  {
  }

  lemma {:induction false} ResolveIsPath(g: Graph, rank: map<nat, nat>, bound: nat, p: Path)
    requires Local(g) && Ranked(g, rank, bound)
    requires Resolve(g, ROOT, p).Ok?
    ensures var j := Resolve(g, ROOT, p).value; j in g && p == PathTo(g, rank, bound, j)
    decreases |p|
  {
    hide Local, Ranked, Resolve, Edge;
    RootResolves(g);
    if p != [] {
      var q, name := p[..|p| - 1], p[|p| - 1];
      assert p == q + [name];
      var j := Resolve(g, ROOT, p).value;
      ResolveLast(g, q, name, j);
      ResolveIsPath(g, rank, bound, q);
      ParentIs(g, Resolve(g, ROOT, q).value, Dentry(name, j));
    }
  }

  lemma NodeHasPath(g: Graph, j: nat) returns (p: Path)
    requires Tree(g) && j in g
    ensures Resolve(g, ROOT, p) == Ok(j)
  {
    var rank, bound :| Ranked(g, rank, bound);
    p := PathTo(g, rank, bound, j);
    PathResolves(g, rank, bound, j);
  }

  lemma SamePath(g: Graph, p: Path, q: Path)
    requires Tree(g) && Resolve(g, ROOT, p).Ok? && Resolve(g, ROOT, p) == Resolve(g, ROOT, q)
    ensures p == q
    ensures Resolve(g, ROOT, p).value in g
  {
    var rank, bound :| Ranked(g, rank, bound);
    ResolveIsPath(g, rank, bound, p);
    ResolveIsPath(g, rank, bound, q);
  }

  /** The path `p` leads to node `j`. */
  ghost predicate LeadsTo(g: Graph, p: Path, j: nat) {
    Resolve(g, ROOT, p) == Ok(j)
  }

  /** Every node of a tree has exactly one path: all of it is reachable, and no two paths lead to the same node. */
  lemma LookupIsBijective(g: Graph)
    requires Tree(g)
    ensures forall j :: j in g ==> exists p :: LeadsTo(g, p, j)
    ensures forall j, p, q :: LeadsTo(g, p, j) && LeadsTo(g, q, j) ==> j in g && p == q
  {
    forall j | j in g
      ensures exists p :: LeadsTo(g, p, j)
    {
      var p := NodeHasPath(g, j);
      assert LeadsTo(g, p, j);
    }
    forall j, p, q | LeadsTo(g, p, j) && LeadsTo(g, q, j)
      ensures j in g && p == q
    {
      SamePath(g, p, q);
    }
  }
}
