// Path strings resolved in the store, and the listing of a version's whole namespace.
module Exports {
  import opened ByteStrings
  import opened Directories
  import opened Namespaces

  // ---- The walk ----

  function Level(es: seq<Dentry>, prefix: Path): (r: seq<Path>)
    ensures |r| == |es|
  {
    seq(|es|, k requires 0 <= k < |es| => prefix + [es[k].name])
  }

  lemma LevelMembers(es: seq<Dentry>, prefix: Path, p: Path)
    ensures p in Level(es, prefix) <==> exists k :: 0 <= k < |es| && p == prefix + [es[k].name]
  {
    var l := Level(es, prefix);
    assert forall k :: 0 <= k < |es| ==> l[k] == prefix + [es[k].name];
    if k :| 0 <= k < |es| && p == prefix + [es[k].name] { assert l[k] in l; }
  }

  /**
    * All paths below directory `i`, level by level as the source lists them: a directory's entries, then each
    * child's.
    */
  ghost function Walk(g: Graph, rank: map<nat, nat>, bound: nat, i: nat, prefix: Path): seq<Path>
    requires Local(g) && Ranked(g, rank, bound) && i in g
    decreases bound - rank[i], |Entries(g, i)| + 1
  {
    Level(Entries(g, i), prefix) + WalkFrom(g, rank, bound, i, 0, prefix)
  }

  /** The walks of the children from entry `k` on. */
  ghost function WalkFrom(g: Graph, rank: map<nat, nat>, bound: nat, i: nat, k: nat, prefix: Path): seq<Path>
    requires Local(g) && Ranked(g, rank, bound) && i in g && k <= |Entries(g, i)|
    decreases bound - rank[i], |Entries(g, i)| - k
  {
    var es := Entries(g, i);
    if k == |es| then []
    else
      ChildBelow(g, rank, bound, i, k);
      Walk(g, rank, bound, es[k].id, prefix + [es[k].name]) + WalkFrom(g, rank, bound, i, k + 1, prefix)
  }

  lemma ChildBelow(g: Graph, rank: map<nat, nat>, bound: nat, i: nat, k: nat)
    requires Local(g) && Ranked(g, rank, bound) && k < |Entries(g, i)|
    ensures var e := Entries(g, i)[k]; e.id in g && e.id in rank && i in rank && rank[i] < rank[e.id] <= bound
    ensures Edge(g, i, Entries(g, i)[k])
  {
    assert Edge(g, i, Entries(g, i)[k]);
    assert EdgeOk(g, i, Entries(g, i)[k]);
  }

  /** The walk does not depend on the ranking that shows it to end. */
  lemma {:induction false} WalkRankFree(g: Graph, r1: map<nat, nat>, b1: nat, r2: map<nat, nat>, b2: nat, i: nat,
                                        prefix: Path)
    requires Local(g) && Ranked(g, r1, b1) && Ranked(g, r2, b2) && i in g
    ensures Walk(g, r1, b1, i, prefix) == Walk(g, r2, b2, i, prefix)
    decreases b1 - r1[i], |Entries(g, i)| + 1
  {
    WalkFromRankFree(g, r1, b1, r2, b2, i, 0, prefix);
  }

  lemma {:induction false} WalkFromRankFree(g: Graph, r1: map<nat, nat>, b1: nat, r2: map<nat, nat>, b2: nat, i: nat,
                                            k: nat, prefix: Path)
    requires Local(g) && Ranked(g, r1, b1) && Ranked(g, r2, b2) && i in g && k <= |Entries(g, i)|
    ensures WalkFrom(g, r1, b1, i, k, prefix) == WalkFrom(g, r2, b2, i, k, prefix)
    decreases b1 - r1[i], |Entries(g, i)| - k
  {
    hide Local, Ranked;
    var es := Entries(g, i);
    if k < |es| {
      ChildBelow(g, r1, b1, i, k);
      ChildBelow(g, r2, b2, i, k);
      WalkRankFree(g, r1, b1, r2, b2, es[k].id, prefix + [es[k].name]);
      WalkFromRankFree(g, r1, b1, r2, b2, i, k + 1, prefix);
    }
  }

  /** `p` is `prefix` and at least one more component, and the rest resolves from `i`. */
  ghost predicate Below(g: Graph, i: nat, prefix: Path, p: Path) {
    prefix < p && Resolve(g, i, p[|prefix|..]).Ok?
  }

  /** `p` goes through entry `j >= k` of directory `i`, and further. */
  ghost predicate BelowFrom(g: Graph, i: nat, k: nat, prefix: Path, p: Path) {
    exists j :: k <= j < |Entries(g, i)| && Below(g, Entries(g, i)[j].id, prefix + [Entries(g, i)[j].name], p)
  }

  lemma {:induction false} WalkMembers(g: Graph, rank: map<nat, nat>, bound: nat, i: nat, prefix: Path, p: Path)
    requires Local(g) && Ranked(g, rank, bound) && i in g
    ensures p in Walk(g, rank, bound, i, prefix) <==> Below(g, i, prefix, p)
    decreases bound - rank[i], |Entries(g, i)| + 1
  {
    hide Local, Ranked, WalkFrom;
    var es := Entries(g, i);
    WalkFromMembers(g, rank, bound, i, 0, prefix, p);
    BelowSplit(g, i, prefix, p);
    LevelMembers(es, prefix, p);
  }

  lemma {:induction false} WalkFromMembers(g: Graph, rank: map<nat, nat>, bound: nat, i: nat, k: nat, prefix: Path,
                                           p: Path)
    requires Local(g) && Ranked(g, rank, bound) && i in g && k <= |Entries(g, i)|
    ensures p in WalkFrom(g, rank, bound, i, k, prefix) <==> BelowFrom(g, i, k, prefix, p)
    decreases bound - rank[i], |Entries(g, i)| - k
  {
    hide Local, Ranked, Below, Walk;
    var es := Entries(g, i);
    if k < |es| {
      ChildBelow(g, rank, bound, i, k);
      WalkMembers(g, rank, bound, es[k].id, prefix + [es[k].name], p);
      WalkFromMembers(g, rank, bound, i, k + 1, prefix, p);
    }
  }

  /** `p` ends at an entry of directory `i`. */
  ghost predicate EndsAt(g: Graph, i: nat, prefix: Path, p: Path) {
    exists k :: 0 <= k < |Entries(g, i)| && p == prefix + [Entries(g, i)[k].name]
  }

  /** A path below a directory ends at one of its entries or goes on below it. */
  lemma BelowSplit(g: Graph, i: nat, prefix: Path, p: Path)
    requires Local(g) && i in g
    ensures Below(g, i, prefix, p) <==> EndsAt(g, i, prefix, p) || BelowFrom(g, i, 0, prefix, p)
  {
    hide Local, Below, Resolve, Entries;
    if Below(g, i, prefix, p) { BelowEnters(g, i, prefix, p); }
    var es := Entries(g, i);
    if k :| 0 <= k < |es| && p == prefix + [es[k].name] {
      ThroughEntry(g, i, k, prefix, p);
    }
    if k :| 0 <= k < |es| && Below(g, es[k].id, prefix + [es[k].name], p) {
      ThroughEntry(g, i, k, prefix, p);
    }
  }

  lemma BelowEnters(g: Graph, i: nat, prefix: Path, p: Path)
    requires Local(g) && Below(g, i, prefix, p)
    ensures EndsAt(g, i, prefix, p) || BelowFrom(g, i, 0, prefix, p)
  {
    hide Local;
    var es := Entries(g, i);
    var rest := p[|prefix|..];
    var name := rest[0];
    assert p == prefix + rest && rest == [name] + rest[1..];
    var e :| e in es && e.name == name && e.id == Find(es, name).value;
    var k :| 0 <= k < |es| && es[k] == e;
    assert p[|prefix + [name]|..] == rest[1..];
    if rest[1..] == [] { assert p == prefix + [es[k].name]; } else { assert Below(g, e.id, prefix + [name], p); }
  }

  lemma ThroughEntry(g: Graph, i: nat, k: nat, prefix: Path, p: Path)
    requires Local(g) && k < |Entries(g, i)|
    requires var e := Entries(g, i)[k]; p == prefix + [e.name] || Below(g, e.id, prefix + [e.name], p)
    ensures Below(g, i, prefix, p)
  {
    var e := Entries(g, i)[k];
    assert Edge(g, i, e);
    EdgeSource(g);
    FindEdge(g, i, e.name);
    assert prefix + [e.name] <= p;
    var rest := p[|prefix|..];
    assert rest[0] == e.name && rest[1..] == p[|prefix + [e.name]|..];
  }

  // ---- No path twice ----

  lemma DistinctConcat(a: seq<Path>, b: seq<Path>)
    requires Distinct(a) && Distinct(b) && forall p :: p in a ==> p !in b
    ensures Distinct(a + b)
  {
    forall i, j | 0 <= i < j < |a + b|
      ensures (a + b)[i] != (a + b)[j]
    {
      if i < |a| && |a| <= j { assert a[i] in a && b[j - |a|] in b; }
    }
  }

  lemma {:induction false} WalkDistinct(g: Graph, rank: map<nat, nat>, bound: nat, i: nat, prefix: Path)
    requires Local(g) && Ranked(g, rank, bound) && i in g
    ensures Distinct(Walk(g, rank, bound, i, prefix))
    decreases bound - rank[i], |Entries(g, i)| + 1
  {
    hide Ranked, WalkFrom;
    var es := Entries(g, i);
    var level := Level(es, prefix);
    assert UniqueNames(es);
    hide Local;
    forall a, b | 0 <= a < b < |level|
      ensures level[a] != level[b]
    {
      assert level[a][|prefix|] == es[a].name && level[b][|prefix|] == es[b].name;
    }
    WalkFromDistinct(g, rank, bound, i, 0, prefix);
    forall p | p in level
      ensures p !in WalkFrom(g, rank, bound, i, 0, prefix)
    {
      WalkFromMembers(g, rank, bound, i, 0, prefix, p);
    }
    DistinctConcat(level, WalkFrom(g, rank, bound, i, 0, prefix));
  }

  lemma {:induction false} WalkFromDistinct(g: Graph, rank: map<nat, nat>, bound: nat, i: nat, k: nat, prefix: Path)
    requires Local(g) && Ranked(g, rank, bound) && i in g && k <= |Entries(g, i)|
    ensures Distinct(WalkFrom(g, rank, bound, i, k, prefix))
    decreases bound - rank[i], |Entries(g, i)| - k
  {
    hide Ranked, Walk;
    var es := Entries(g, i);
    if k < |es| {
      ChildBelow(g, rank, bound, i, k);
      assert UniqueNames(es);
      hide Local, Distinct;
      var child := Walk(g, rank, bound, es[k].id, prefix + [es[k].name]);
      WalkDistinct(g, rank, bound, es[k].id, prefix + [es[k].name]);
      WalkFromDistinct(g, rank, bound, i, k + 1, prefix);
      forall p | p in child
        ensures p !in WalkFrom(g, rank, bound, i, k + 1, prefix)
      {
        WalkMembers(g, rank, bound, es[k].id, prefix + [es[k].name], p);
        WalkFromMembers(g, rank, bound, i, k + 1, prefix, p);
        OtherEntry(g, i, k, prefix, p);
      }
      DistinctConcat(child, WalkFrom(g, rank, bound, i, k + 1, prefix));
    }
  }

  lemma OtherEntry(g: Graph, i: nat, k: nat, prefix: Path, p: Path)
    requires UniqueNames(Entries(g, i)) && k < |Entries(g, i)|
    requires Below(g, Entries(g, i)[k].id, prefix + [Entries(g, i)[k].name], p)
    ensures !BelowFrom(g, i, k + 1, prefix, p)
  {
    var es := Entries(g, i);
    assert p[|prefix|] == es[k].name;
    forall j | k + 1 <= j < |es|
      ensures !(prefix + [es[j].name] < p)
    {
      NotThrough(prefix, es[j].name, p);
    }
  }

  lemma NotThrough(prefix: Path, name: Bytes, p: Path)
    requires |prefix| < |p| && p[|prefix|] != name
    ensures !(prefix + [name] < p)
  {
    assert (prefix + [name])[|prefix|] == name;
  }

  /** The paths of a whole tree. */
  ghost function ExportPaths(g: Graph): seq<Path>
    requires Tree(g)
  {
    var rank, bound :| Ranked(g, rank, bound);
    Walk(g, rank, bound, ROOT, [])
  }

  /** Any ranking gives the same list. */
  lemma ExportIsWalk(g: Graph, rank: map<nat, nat>, bound: nat)
    requires Tree(g) && Ranked(g, rank, bound)
    ensures ExportPaths(g) == Walk(g, rank, bound, ROOT, [])
  {
    var r, b :| Ranked(g, r, b) && ExportPaths(g) == Walk(g, r, b, ROOT, []);
    hide Tree, Local, Ranked, Walk;
    WalkRankFree(g, r, b, rank, bound, ROOT, []);
  }

  /** Every path but the root's is listed exactly once, and nothing else is. */
  lemma ExportIsComplete(g: Graph)
    requires Tree(g)
    ensures Distinct(ExportPaths(g))
    ensures forall p :: p in ExportPaths(g) <==> p != [] && Resolve(g, ROOT, p).Ok?
  {
    var rank, bound :| Ranked(g, rank, bound) && ExportPaths(g) == Walk(g, rank, bound, ROOT, []);
    hide Tree, Local, Ranked, Walk, ExportPaths;
    WalkDistinct(g, rank, bound, ROOT, []);
    forall p
      ensures p in ExportPaths(g) <==> p != [] && Resolve(g, ROOT, p).Ok?
    {
      WalkMembers(g, rank, bound, ROOT, [], p);
      assert p[0..] == p;
    }
  }
}
