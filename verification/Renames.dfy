// Moving a subtree: what a rename does to the tree and to every path.
module Renames {
  import opened ByteStrings
  import opened Directories
  import opened Inodes
  import opened Namespaces
  import opened TreePaths

  function GLink(g: Graph, parent: nat, name: Bytes, id: nat): Graph {
    g[parent := Dir(Entries(g, parent) + [Dentry(name, id)])]
  }

  function GUnlink(g: Graph, parent: nat, name: Bytes): Graph {
    g[parent := Dir(RemoveName(Entries(g, parent), name))]
  }

  /** Clear the target slot if it is taken, enter the node there, and take it out of the source slot. */
  function GRename(g: Graph, from: Slot, x: nat, to: Slot): Graph {
    GUnlink(GLink(Cleared(g, to), to.dir, to.name, x), from.dir, from.name)
  }

  function Cleared(g: Graph, to: Slot): Graph {
    match Find(Entries(g, to.dir), to.name)
    case None => g
    case Some(y) => GRemove(g, to.dir, to.name, y)
  }

  function Front(p: Path): Path
    requires p != []
  {
    p[..|p| - 1]
  }

  function Last(p: Path): Bytes
    requires p != []
  {
    p[|p| - 1]
  }

  lemma FrontLast(p: Path)
    requires p != []
    ensures p == Front(p) + [Last(p)]
  {
  }

  /** The situation in which the source's rename goes through. */
  ghost predicate Ready(g: Graph, src: Path, tgt: Path, from: Slot, x: nat, to: Slot) {
    && Tree(g)
    && src != [] && tgt != []
    && Resolve(g, ROOT, src) == Ok(x)
    && Resolve(g, ROOT, Front(src)) == Ok(from.dir) && from.name == Last(src)
    && Resolve(g, ROOT, Front(tgt)) == Ok(to.dir) && to.name == Last(tgt)
    && to.dir in g && g[to.dir].Dir?
    && (Find(Entries(g, to.dir), to.name).Some? ==> Entries(g, Find(Entries(g, to.dir), to.name).value) == [])
  }

  /** Every path below the target now leads where the path below the source led. */
  ghost predicate Moves(g: Graph, g2: Graph, src: Path, tgt: Path) {
    forall rest :: Resolve(g2, ROOT, tgt + rest) == Resolve(g, ROOT, src + rest)
  }

  /** Paths that involve neither the source nor the target lead where they did. */
  ghost predicate OthersStay(g: Graph, g2: Graph, src: Path, tgt: Path) {
    forall q :: !(src <= q) && !(tgt <= q) ==> Resolve(g2, ROOT, q) == Resolve(g, ROOT, q)
  }

  // ---- The edges after a rename ----

  /** The node that the rename replaces. */
  ghost predicate Replaced(g: Graph, to: Slot, y: nat) {
    Find(Entries(g, to.dir), to.name) == Some(y)
  }

  ghost predicate Renamed(g: Graph, g2: Graph, from: Slot, x: nat, to: Slot) {
    && Edited(g, g2, from, to, to.dir, Dentry(to.name, x), from != to)
    && (forall i :: i in g2 <==> i in g && !Replaced(g, to, i))
    && (forall i :: i in g2 ==> (g2[i].Dir? <==> g[i].Dir?))
  }

  /** Outside the two slots nothing changes, and no node but the replaced one goes away. */
  ghost predicate Agrees(g: Graph, g2: Graph, from: Slot, to: Slot) {
    && NamesOk(g2)
    && (forall i: nat, e: Dentry :: !InSlot(i, e, from) && !InSlot(i, e, to) ==> (Edge(g2, i, e) <==> Edge(g, i, e)))
    && (forall i :: i in g2 <==> i in g && !Replaced(g, to, i))
    && (forall i :: i in g2 ==> (g2[i].Dir? <==> g[i].Dir?))
  }

  lemma RenamedAgrees(g: Graph, g2: Graph, from: Slot, x: nat, to: Slot)
    requires Renamed(g, g2, from, x, to)
    ensures Agrees(g, g2, from, to)
  {
    hide Edge, NamesOk;
  }

  lemma LinkEntries(g: Graph, parent: nat, name: Bytes, id: nat)
    requires NamesOk(g) && Find(Entries(g, parent), name) == None
    ensures var g2 := GLink(g, parent, name, id);
            && NamesOk(g2)
            && forall i: nat, e: Dentry :: Edge(g2, i, e) <==> Edge(g, i, e) || (i == parent && e == Dentry(name, id))
  {
    var g2 := GLink(g, parent, name, id);
    UniqueAppend(Entries(g, parent), Dentry(name, id));
    forall i
      ensures i != parent ==> Entries(g2, i) == Entries(g, i)
      ensures UniqueNames(Entries(g2, i))
    {
      assert UniqueNames(Entries(g, i));
    }
  }

  lemma UnlinkEntries(g: Graph, parent: nat, name: Bytes)
    requires NamesOk(g)
    ensures var g2 := GUnlink(g, parent, name);
            && NamesOk(g2)
            && forall i: nat, e: Dentry :: Edge(g2, i, e) <==> Edge(g, i, e) && !InSlot(i, e, Slot(parent, name))
  {
    var g2 := GUnlink(g, parent, name);
    assert UniqueNames(Entries(g, parent));
    RemoveNameIs(Entries(g, parent), name);
    forall i
      ensures i != parent ==> Entries(g2, i) == Entries(g, i)
      ensures UniqueNames(Entries(g2, i))
    {
      assert UniqueNames(Entries(g, i));
    }
  }

  ghost predicate ClearedOk(g: Graph, g0: Graph, to: Slot) {
    && NamesOk(g0)
    && (forall i: nat, e: Dentry :: Edge(g0, i, e) <==> Edge(g, i, e) && !InSlot(i, e, to))
    && Find(Entries(g0, to.dir), to.name) == None
    && (forall i :: i in g0 <==> i in g && !Replaced(g, to, i))
    && to.dir in g0 && (forall i :: i in g0 ==> (g0[i].Dir? <==> g[i].Dir?))
  }

  /** Emptying the target slot. */
  lemma ClearEntries(g: Graph, to: Slot)
    requires Local(g) && to.dir in g && g[to.dir].Dir?
    requires forall y :: Replaced(g, to, y) ==> Entries(g, y) == []
    ensures ClearedOk(g, Cleared(g, to), to)
  {
    FindEdge(g, to.dir, to.name);
    if Find(Entries(g, to.dir), to.name).Some? {
      hide Local, NamesOk, Edge;
      ClearTaken(g, to, Find(Entries(g, to.dir), to.name).value);
    } else {
      hide Local, NamesOk;
      assert Cleared(g, to) == g;
      assert forall e :: Edge(g, to.dir, e) ==> e.name != to.name;
      hide Edge;
    }
  }

  lemma ClearTaken(g: Graph, to: Slot, y: nat)
    requires Local(g) && to.dir in g && g[to.dir].Dir?
    requires Replaced(g, to, y) && Entries(g, y) == []
    ensures ClearedOk(g, GRemove(g, to.dir, to.name, y), to)
  {
    hide Local, NamesOk, Edge, Find, RemoveName;
    RemoveLocal(g, to.dir, to.name, y);
    RemoveEdited(g, to.dir, to.name, y);
    SlotEmpty(g, to, y);
    hide Entries;
  }

  lemma SlotEmpty(g: Graph, to: Slot, y: nat)
    requires NamesOk(g) && to.dir != y
    ensures Find(Entries(GRemove(g, to.dir, to.name, y), to.dir), to.name) == None
  {
    assert UniqueNames(Entries(g, to.dir));
    RemoveNameIs(Entries(g, to.dir), to.name);
  }

  lemma RenameEdges(g: Graph, src: Path, tgt: Path, from: Slot, x: nat, to: Slot)
    requires Ready(g, src, tgt, from, x, to)
    ensures Renamed(g, GRename(g, from, x, to), from, x, to)
  {
    SourceEdge(g, src, from, x);
    hide Tree, Local, Resolve, Edge;
    ClearEntries(g, to);
    hide ClearedOk, Cleared, GLink, GUnlink, Renamed;
    LinkUnlinkRenamed(g, Cleared(g, to), from, x, to);
  }

  lemma LinkUnlinkRenamed(g: Graph, g0: Graph, from: Slot, x: nat, to: Slot)
    requires ClearedOk(g, g0, to) && from.dir in g && g[from.dir].Dir? && g[to.dir].Dir? && !Replaced(g, to, from.dir)
    ensures Renamed(g, GUnlink(GLink(g0, to.dir, to.name, x), from.dir, from.name), from, x, to)
  {
    hide NamesOk, Edge, Replaced, GLink, GUnlink;
    LinkUnlink(g0, from, x, to);
  }

  lemma LinkUnlink(g: Graph, from: Slot, x: nat, to: Slot)
    requires NamesOk(g) && Find(Entries(g, to.dir), to.name) == None
    requires to.dir in g && from.dir in g && g[to.dir].Dir? && g[from.dir].Dir?
    ensures var g2 := GUnlink(GLink(g, to.dir, to.name, x), from.dir, from.name);
            && NamesOk(g2)
            && g2.Keys == g.Keys && (forall i :: i in g2 ==> (g2[i].Dir? <==> g[i].Dir?))
            && forall i: nat, e: Dentry ::
                 Edge(g2, i, e) <==>
                 (Edge(g, i, e) && !InSlot(i, e, from))
                   || (from != to && i == to.dir && e == Dentry(to.name, x))
  {
    LinkEntries(g, to.dir, to.name, x);
    UnlinkEntries(GLink(g, to.dir, to.name, x), from.dir, from.name);
    hide Edge, NamesOk;
  }

  /** The source slot holds the source, so its directory is not empty. */
  lemma SourceEdge(g: Graph, src: Path, from: Slot, x: nat)
    requires Local(g) && src != []
    requires Resolve(g, ROOT, src) == Ok(x) && Resolve(g, ROOT, Front(src)) == Ok(from.dir) && from.name == Last(src)
    ensures Edge(g, from.dir, Dentry(from.name, x))
    ensures from.dir in g && g[from.dir].Dir? && Entries(g, from.dir) != [] && x in g && x != ROOT
  {
    FrontLast(src);
    ResolveLast(g, Front(src), Last(src), x);
    EdgeSource(g);
    assert EdgeOk(g, from.dir, Dentry(from.name, x));
  }

  // ---- Lookups after a rename ----

  lemma FindByEdges(g: Graph, g2: Graph, i: nat, name: Bytes)
    requires NamesOk(g) && NamesOk(g2)
    requires forall id :: Edge(g2, i, Dentry(name, id)) <==> Edge(g, i, Dentry(name, id))
    ensures Find(Entries(g2, i), name) == Find(Entries(g, i), name)
  {
    FindEdge(g, i, name);
    FindEdge(g2, i, name);
  }

  /** Two paths whose parents are the same directory and whose names agree are the same path. */
  lemma SlotPath(g: Graph, r: Path, i: nat, name: Bytes, path: Path, slot: Slot)
    requires Tree(g) && path != []
    requires Resolve(g, ROOT, r) == Ok(i)
    requires Resolve(g, ROOT, Front(path)) == Ok(slot.dir) && slot.name == Last(path)
    requires i == slot.dir && name == slot.name
    ensures r + [name] == path
  {
    SamePath(g, r, Front(path));
    FrontLast(path);
  }

  lemma StepAgrees(g: Graph, g2: Graph, src: Path, tgt: Path, from: Slot, x: nat, to: Slot, r: Path, i: nat,
                   name: Bytes)
    requires Ready(g, src, tgt, from, x, to) && Agrees(g, g2, from, to)
    requires Resolve(g, ROOT, r) == Ok(i) && r != tgt
    requires r + [name] != src && r + [name] != tgt
    ensures i in g && i in g2 && (g2[i].Dir? <==> g[i].Dir?)
    ensures Find(Entries(g2, i), name) == Find(Entries(g, i), name)
  {
    hide Tree, Local, Resolve, NamesOk, Edge;
    SamePath(g, r, r);
    if i == from.dir && name == from.name { SlotPath(g, r, i, name, src, from); }
    if i == to.dir && name == to.name { SlotPath(g, r, i, name, tgt, to); }
    FindByEdges(g, g2, i, name);
    if Replaced(g, to, i) { ReplacedPath(g, r, i, tgt, to); }
  }

  lemma ReplacedPath(g: Graph, r: Path, y: nat, tgt: Path, to: Slot)
    requires Tree(g) && tgt != [] && Replaced(g, to, y)
    requires Resolve(g, ROOT, Front(tgt)) == Ok(to.dir) && to.name == Last(tgt)
    requires Resolve(g, ROOT, r) == Ok(y)
    ensures r == tgt
  {
    FindEdge(g, to.dir, to.name);
    FrontLast(tgt);
    ResolveLast(g, Front(tgt), to.name, y);
    SamePath(g, r, tgt);
  }

  /** From length `n` on, no prefix of `p` is one of the two paths. */
  ghost predicate Misses(p: Path, n: nat, src: Path, tgt: Path) {
    forall k :: n < k <= |p| ==> p[..k] != src && p[..k] != tgt
  }

  lemma MissesNext(r: Path, q: Path, src: Path, tgt: Path)
    requires q != [] && Misses(r + q, |r|, src, tgt)
    ensures r + [q[0]] != src && r + [q[0]] != tgt
    ensures Misses(r + [q[0]] + q[1..], |r + [q[0]]|, src, tgt)
  {
    assert (r + q)[..|r| + 1] == r + [q[0]];
    assert r + q == r + [q[0]] + q[1..];
  }

  lemma ResolveDown(g: Graph, r: Path, i: nat, name: Bytes, j: nat)
    requires Resolve(g, ROOT, r) == Ok(i) && i in g && g[i].Dir? && Find(Entries(g, i), name) == Some(j)
    ensures Resolve(g, ROOT, r + [name]) == Ok(j)
  {
    ResolveAppend(g, ROOT, r, [name]);
  }

  /** A walk that passes neither the source nor the target slot goes as before. */
  lemma {:induction false} WalkAgrees(g: Graph, g2: Graph, src: Path, tgt: Path, from: Slot, x: nat, to: Slot,
                                      r: Path, i: nat, q: Path)
    requires Ready(g, src, tgt, from, x, to) && Agrees(g, g2, from, to)
    requires Resolve(g, ROOT, r) == Ok(i)
    requires r != tgt || q == []
    requires Misses(r + q, |r|, src, tgt)
    ensures Resolve(g2, i, q) == Resolve(g, i, q)
    decreases |q|
  {
    hide Ready, Agrees, Misses;
    if q != [] {
      var name := q[0];
      MissesNext(r, q, src, tgt);
      StepAgrees(g, g2, src, tgt, from, x, to, r, i, name);
      if g[i].Dir? && Find(Entries(g, i), name).Some? {
        var j := Find(Entries(g, i), name).value;
        ResolveDown(g, r, i, name, j);
        WalkAgrees(g, g2, src, tgt, from, x, to, r + [name], j, q[1..]);
      }
    }
  }

  /** The target is no proper ancestor of the source: a directory that is not empty cannot be replaced. */
  lemma TargetNotAbove(g: Graph, src: Path, tgt: Path, from: Slot, x: nat, to: Slot)
    requires Ready(g, src, tgt, from, x, to) && src != tgt
    ensures !(tgt <= src)
  {
    if tgt <= src {
      var rest := src[|tgt|..];
      assert src == tgt + rest;
      ResolveAppend(g, ROOT, tgt, rest);
      FrontLast(tgt);
      var y := Resolve(g, ROOT, tgt).value;
      ResolveLast(g, Front(tgt), to.name, y);
      FindEdge(g, to.dir, to.name);
    }
  }

  /** The source's own directory stays where it was. */
  lemma SourceDirStays(g: Graph, g2: Graph, src: Path, tgt: Path, from: Slot, x: nat, to: Slot)
    requires Ready(g, src, tgt, from, x, to) && Agrees(g, g2, from, to)
    ensures Resolve(g2, ROOT, Front(src)) == Ok(from.dir)
  {
    if src != tgt { TargetNotAbove(g, src, tgt, from, x, to); }
    var p := Front(src);
    assert [] + p == p;
    forall k | 0 < k <= |p|
      ensures p[..k] != src && p[..k] != tgt
    {
      assert p[..k] <= src;
    }
    WalkAgrees(g, g2, src, tgt, from, x, to, [], ROOT, p);
  }

  /** The source path is gone, with everything below it. */
  lemma SourceGone(g: Graph, g2: Graph, src: Path, tgt: Path, from: Slot, x: nat, to: Slot, rest: Path)
    requires Ready(g, src, tgt, from, x, to) && Renamed(g, g2, from, x, to)
    ensures Resolve(g2, ROOT, src + rest).Err?
  {
    hide Tree, Resolve;
    RenamedAgrees(g, g2, from, x, to);
    SourceDirStays(g, g2, src, tgt, from, x, to);
    FrontLast(src);
    assert forall e :: Edge(g2, from.dir, e) ==> e.name != from.name;
    NameGone(g2, Front(src), from, rest);
  }

  lemma NameGone(g: Graph, p: Path, slot: Slot, rest: Path)
    requires NamesOk(g) && Resolve(g, ROOT, p) == Ok(slot.dir)
    requires forall e :: Edge(g, slot.dir, e) ==> e.name != slot.name
    ensures Resolve(g, ROOT, p + [slot.name] + rest).Err?
  {
    var more := [slot.name] + rest;
    assert p + [slot.name] + rest == p + more && more[0] == slot.name;
    ResolveAppend(g, ROOT, p, more);
    FindEdge(g, slot.dir, slot.name);
  }

  lemma TargetHolds(g: Graph, g2: Graph, src: Path, tgt: Path, from: Slot, x: nat, to: Slot, rest: Path)
    requires Ready(g, src, tgt, from, x, to) && Renamed(g, g2, from, x, to)
    requires !(src <= tgt)
    ensures Resolve(g2, ROOT, tgt + rest) == Resolve(g, ROOT, src + rest)
  {
    hide Tree, Local, NamesOk, Resolve, Agrees;
    RenamedAgrees(g, g2, from, x, to);
    TargetDirStays(g, g2, src, tgt, from, x, to);
    TargetEdge(g2, tgt, to, x, rest) by {
      assert from != to by { SlotsDiffer(g, src, tgt, from, x, to); }
      assert Edge(g2, to.dir, Dentry(to.name, x));
    }
    ResolveAppend(g, ROOT, src, rest);
    forall k | |src| < k <= |src + rest|
      ensures (src + rest)[..k] != src && (src + rest)[..k] != tgt
    {
      assert src <= (src + rest)[..k];
    }
    WalkAgrees(g, g2, src, tgt, from, x, to, src, x, rest);
  }

  lemma SlotsDiffer(g: Graph, src: Path, tgt: Path, from: Slot, x: nat, to: Slot)
    requires Ready(g, src, tgt, from, x, to) && src != tgt
    ensures from != to
  {
    hide Tree, Resolve;
    FrontLast(src);
    if from == to { SlotPath(g, Front(src), from.dir, from.name, tgt, to); }
  }

  lemma TargetDirStays(g: Graph, g2: Graph, src: Path, tgt: Path, from: Slot, x: nat, to: Slot)
    requires Ready(g, src, tgt, from, x, to) && Agrees(g, g2, from, to)
    requires !(src <= tgt)
    ensures Resolve(g2, ROOT, Front(tgt)) == Ok(to.dir)
  {
    hide Tree, Agrees;
    var p := Front(tgt);
    assert [] + p == p;
    forall k | 0 < k <= |p|
      ensures p[..k] != src && p[..k] != tgt
    {
      assert p[..k] <= tgt;
    }
    WalkAgrees(g, g2, src, tgt, from, x, to, [], ROOT, p);
  }

  lemma TargetEdge(g2: Graph, tgt: Path, to: Slot, x: nat, rest: Path)
    requires NamesOk(g2) && tgt != [] && Edge(g2, to.dir, Dentry(to.name, x))
    requires Resolve(g2, ROOT, Front(tgt)) == Ok(to.dir) && to.name == Last(tgt)
    ensures Resolve(g2, ROOT, tgt + rest) == Resolve(g2, x, rest)
  {
    FrontLast(tgt);
    var p := Front(tgt);
    assert tgt + rest == p + ([to.name] + rest);
    ResolveAppend(g2, ROOT, p, [to.name] + rest);
    FindEdge(g2, to.dir, to.name);
    EdgeSource(g2);
    assert ([to.name] + rest)[1..] == rest;
  }

  lemma OtherPath(g: Graph, g2: Graph, src: Path, tgt: Path, from: Slot, x: nat, to: Slot, q: Path)
    requires Ready(g, src, tgt, from, x, to) && Agrees(g, g2, from, to)
    requires !(src <= q) && !(tgt <= q)
    ensures Resolve(g2, ROOT, q) == Resolve(g, ROOT, q)
  {
    assert [] + q == q;
    forall k | 0 < k <= |q|
      ensures q[..k] != src && q[..k] != tgt
    {
      assert q[..k] <= q;
    }
    WalkAgrees(g, g2, src, tgt, from, x, to, [], ROOT, q);
  }

  /** A rename that goes through moves the subtree exactly when the target does not lie at or below the source. */
  lemma RenameMoves(g: Graph, src: Path, tgt: Path, from: Slot, x: nat, to: Slot)
    requires Ready(g, src, tgt, from, x, to)
    ensures var g2 := GRename(g, from, x, to);
            && (Moves(g, g2, src, tgt) <==> !(src <= tgt))
            && (forall rest :: Resolve(g2, ROOT, src + rest).Err?)
            && OthersStay(g, g2, src, tgt)
  {
    var g2 := GRename(g, from, x, to);
    RenameEdges(g, src, tgt, from, x, to);
    RenamedAgrees(g, g2, from, x, to);
    hide Ready, Renamed, Resolve, GRename, Agrees;
    forall rest
      ensures Resolve(g2, ROOT, src + rest).Err?
    {
      SourceGone(g, g2, src, tgt, from, x, to, rest);
    }
    if src <= tgt {
      NotMoved(g, g2, src, tgt, from, x, to);
    } else {
      forall rest
        ensures Resolve(g2, ROOT, tgt + rest) == Resolve(g, ROOT, src + rest)
      {
        TargetHolds(g, g2, src, tgt, from, x, to, rest);
      }
    }
    forall q | !(src <= q) && !(tgt <= q)
      ensures Resolve(g2, ROOT, q) == Resolve(g, ROOT, q)
    {
      OtherPath(g, g2, src, tgt, from, x, to, q);
    }
  }

  /** A directory moved below itself: everything below it can no longer be reached. */
  lemma RenameIntoItself()
    ensures var g: Graph := map[ROOT := Dir([Dentry("a", 1)]), 1 := Dir([])];
            var src: Path, tgt: Path, to := ["a"], ["a", "b"], Slot(1, "b");
            var g2 := GRename(g, Slot(ROOT, "a"), 1, to);
            && Ready(g, src, tgt, Slot(ROOT, "a"), 1, to)
            && !Moves(g, g2, src, tgt)
            && 1 in g2 && forall p :: Resolve(g2, ROOT, p) != Ok(1)
  {
    var g: Graph := map[ROOT := Dir([Dentry("a", 1)]), 1 := Dir([])];
    var src: Path, tgt: Path, from, to := ["a"], ["a", "b"], Slot(ROOT, "a"), Slot(1, "b");
    var g2 := GRename(g, from, 1, to);
    SmallTree(g);
    assert Front(tgt) == src && Front(src) == [];
    assert Resolve(g, ROOT, src) == Ok(1) by { assert src[1..] == []; }
    RenameMoves(g, src, tgt, from, 1, to);
    assert g2[ROOT] == Dir([]) by { assert [Dentry("a", 1)][1..] == []; }
    assert src <= tgt;
  }

  lemma SmallTree(g: Graph)
    requires g == map[ROOT := Dir([Dentry("a", 1)]), 1 := Dir([])]
    ensures Tree(g)
  {
    var e := Dentry("a", 1);
    assert Edge(g, ROOT, e);
    assert forall i: nat, f: Dentry :: Edge(g, i, f) <==> i == ROOT && f == e;
    assert HasParent(g, 1);
    assert Ranked(g, map[ROOT := 0, 1 := 1], 1);
  }

  lemma NotMoved(g: Graph, g2: Graph, src: Path, tgt: Path, from: Slot, x: nat, to: Slot)
    requires Ready(g, src, tgt, from, x, to) && Renamed(g, g2, from, x, to)
    requires src <= tgt
    ensures !Moves(g, g2, src, tgt)
  {
    SourceGone(g, g2, src, tgt, from, x, to, tgt[|src|..]);
    assert src + tgt[|src|..] == tgt + [];
    assert src + [] == src;
  }

  // ---- The tree after a rename ----

  lemma PathStep(g: Graph, rank: map<nat, nat>, bound: nat, i: nat, e: Dentry)
    requires Local(g) && Ranked(g, rank, bound) && Edge(g, i, e)
    ensures i in g && e.id in g && PathTo(g, rank, bound, e.id) == PathTo(g, rank, bound, i) + [e.name]
  {
    assert EdgeOk(g, i, e);
    assert HasParent(g, e.id);
    assert Edge(g, ParentEdge(g, e.id).0, ParentEdge(g, e.id).1);
  }

  /** The subtree moves below the ranks of its new place. */
  ghost function NewRank(g: Graph, rank: map<nat, nat>, bound: nat, src: Path, t: nat): map<nat, nat>
    requires Local(g) && Ranked(g, rank, bound) && t in g
  {
    map j | j in g :: if src <= PathTo(g, rank, bound, j) then rank[j] + rank[t] + 1 else rank[j]
  }

  lemma RenameRanked(g: Graph, g2: Graph, src: Path, tgt: Path, from: Slot, x: nat, to: Slot, rank: map<nat, nat>,
                     bound: nat)
    requires Ready(g, src, tgt, from, x, to) && Renamed(g, g2, from, x, to) && !(src <= tgt)
    requires Ranked(g, rank, bound)
    ensures Ranked(g2, NewRank(g, rank, bound, src, to.dir), 2 * bound + 1)
  {
    hide Resolve, PathTo, Local, Tree, Edge, NamesOk;
    var rank2 := NewRank(g, rank, bound, src, to.dir);
    EdgeSource(g2);
    ResolveIsPath(g, rank, bound, src);
    ResolveIsPath(g, rank, bound, Front(tgt));
    assert Front(tgt) <= tgt && (src <= Front(tgt) ==> src <= tgt);
    forall i: nat, e: Dentry | Edge(g2, i, e)
      ensures i in rank2 && e.id in rank2 && rank2[i] < rank2[e.id]
    {
      if Edge(g, i, e) && !InSlot(i, e, from) && !InSlot(i, e, to) {
        RankStep(g, src, from, x, rank, bound, i, e);
      }
    }
  }

  lemma LastIs(path: Path, p: Path, name: Bytes)
    requires path == p + [name]
    ensures Front(path) == p && Last(path) == name
  {
  }

  /** An edge other than the source's stays inside or outside the moved subtree. */
  lemma RankStep(g: Graph, src: Path, from: Slot, x: nat, rank: map<nat, nat>, bound: nat, i: nat, e: Dentry)
    requires Tree(g) && Ranked(g, rank, bound) && Edge(g, i, e) && !InSlot(i, e, from)
    requires src != [] && Resolve(g, ROOT, src) == Ok(x) && Resolve(g, ROOT, Front(src)) == Ok(from.dir)
             && from.name == Last(src)
    ensures i in g && e.id in g && rank[i] < rank[e.id]
    ensures src <= PathTo(g, rank, bound, i) <==> src <= PathTo(g, rank, bound, e.id)
  {
    PathStep(g, rank, bound, i, e);
    var p, q := PathTo(g, rank, bound, i), PathTo(g, rank, bound, e.id);
    if src <= q && !(src <= p) {
      assert src == q;
      PathResolves(g, rank, bound, i);
      FrontLast(src);
      LastIs(src, p, e.name);
    }
  }

  lemma RenameLocal(g: Graph, g2: Graph, src: Path, tgt: Path, from: Slot, x: nat, to: Slot)
    requires Ready(g, src, tgt, from, x, to) && Renamed(g, g2, from, x, to) && !(src <= tgt)
    requires ValidName(to.name) && (to.dir == ROOT ==> to.name != SNAPSHOT_ENTRY)
    ensures Local(g2)
  {
    hide Tree, Resolve, Edge, NamesOk, HasParent, KeepsParent, OneParent, EdgesOk;
    SourceEdge(g, src, from, x);
    SlotsDiffer(g, src, tgt, from, x, to);
    forall i: nat, e: Dentry | Edge(g, i, e) && !InSlot(i, e, from) && !InSlot(i, e, to)
      ensures e.id in g2 && e.id != x
    {
      UncutEdge(g, g2, from, x, to, i, e);
    }
    forall j | j in g2 && j != ROOT && j != x
      ensures KeepsParent(g, from, to, j)
    {
      RenameKeepsParent(g, g2, from, x, to, j);
    }
    NewEdgeOk(g, g2, from, x, to);
    hide Local, Ready, Edited, InSlot;
    EditedLocal(g, g2, from, to, to.dir, Dentry(to.name, x), true);
  }

  lemma ReplacedEdge(g: Graph, to: Slot, y: nat)
    requires Local(g) && Replaced(g, to, y)
    ensures Edge(g, to.dir, Dentry(to.name, y)) && EdgeOk(g, to.dir, Dentry(to.name, y))
  {
    FindEdge(g, to.dir, to.name);
  }

  /** An edge outside both slots leads to a node that is neither moved nor replaced. */
  lemma UncutEdge(g: Graph, g2: Graph, from: Slot, x: nat, to: Slot, i: nat, e: Dentry)
    requires Local(g) && Renamed(g, g2, from, x, to) && Edge(g, from.dir, Dentry(from.name, x))
    requires Edge(g, i, e) && !InSlot(i, e, from) && !InSlot(i, e, to)
    ensures e.id in g2 && e.id != x
  {
    hide Edge, NamesOk, Edited;
    assert EdgeOk(g, i, e);
    if Replaced(g, to, e.id) { ReplacedEdge(g, to, e.id); }
  }

  lemma RenameKeepsParent(g: Graph, g2: Graph, from: Slot, x: nat, to: Slot, j: nat)
    requires Local(g) && Renamed(g, g2, from, x, to) && Edge(g, from.dir, Dentry(from.name, x))
    requires j in g2 && j != ROOT && j != x
    ensures KeepsParent(g, from, to, j)
  {
    FindEdge(g, from.dir, from.name);
    FindEdge(g, to.dir, to.name);
    hide Edge, NamesOk, Edited;
    KeptParent(g, from, to, j);
  }

  lemma NewEdgeOk(g: Graph, g2: Graph, from: Slot, x: nat, to: Slot)
    requires Local(g) && Renamed(g, g2, from, x, to) && Edge(g, from.dir, Dentry(from.name, x)) && from != to
    requires ValidName(to.name) && (to.dir == ROOT ==> to.name != SNAPSHOT_ENTRY)
    ensures EdgeOk(g2, to.dir, Dentry(to.name, x)) && ROOT in g2 && g2[ROOT].Dir?
  {
    hide Edge, NamesOk, Edited;
    assert EdgeOk(g, from.dir, Dentry(from.name, x));
    if Replaced(g, to, x) { ReplacedEdge(g, to, x); }
    if Replaced(g, to, ROOT) { ReplacedEdge(g, to, ROOT); }
  }

  /** A rename of a node to a place outside its own subtree keeps the tree. */
  lemma MoveKeepsTree(g: Graph, src: Path, tgt: Path, from: Slot, x: nat, to: Slot)
    requires Ready(g, src, tgt, from, x, to) && !(src <= tgt)
    requires ValidName(to.name) && (to.dir == ROOT ==> to.name != SNAPSHOT_ENTRY)
    ensures Tree(GRename(g, from, x, to))
  {
    var g2 := GRename(g, from, x, to);
    RenameEdges(g, src, tgt, from, x, to);
    RenameLocal(g, g2, src, tgt, from, x, to);
    var rank, bound :| Ranked(g, rank, bound);
    hide Local, Ranked, Renamed;
    RenameRanked(g, g2, src, tgt, from, x, to, rank, bound);
  }

  lemma {:induction false} RemoveLast(es: seq<Dentry>, e: Dentry)
    requires Find(es, e.name) == None
    ensures RemoveName(es + [e], e.name) == es
  {
    if es == [] {
      assert ([e])[1..] == [];
    } else {
      assert (es + [e])[1..] == es[1..] + [e];
      RemoveLast(es[1..], e);
    }
  }

  /** Renaming a file or an empty directory to its own path removes it. */
  lemma RenameInPlace(g: Graph, src: Path, from: Slot, x: nat, to: Slot)
    requires Ready(g, src, src, from, x, to)
    ensures from == to && GRename(g, from, x, to) == GRemove(g, from.dir, from.name, x)
    ensures Tree(GRename(g, from, x, to))
  {
    SourceEdge(g, src, from, x);
    FindEdge(g, from.dir, from.name);
    hide Tree, Local, Resolve, Edge;
    RemoveKeepsTree(g, from.dir, from.name, x);
    ClearEntries(g, to);
    hide Find, Cleared, GRemove;
    LinkThenUnlink(Cleared(g, to), to, x);
    assert Cleared(g, to) == GRemove(g, to.dir, to.name, x) by { hide *; ClearedTaken(g, to, x); }
  }

  lemma ClearedTaken(g: Graph, to: Slot, y: nat)
    requires Replaced(g, to, y)
    ensures Cleared(g, to) == GRemove(g, to.dir, to.name, y)
  {
  }

  lemma LinkThenUnlink(g: Graph, to: Slot, x: nat)
    requires to.dir in g && g[to.dir].Dir? && Find(Entries(g, to.dir), to.name) == None
    ensures GUnlink(GLink(g, to.dir, to.name, x), to.dir, to.name) == g
  {
    RemoveLast(Entries(g, to.dir), Dentry(to.name, x));
  }

  /** A directory that is moved below itself is part of a cycle. */
  lemma RenameCycle(g: Graph, src: Path, tgt: Path, from: Slot, x: nat, to: Slot)
    requires Ready(g, src, tgt, from, x, to) && src < tgt
    ensures !Tree(GRename(g, from, x, to))
  {
    var g2 := GRename(g, from, x, to);
    RenameEdges(g, src, tgt, from, x, to);
    RenamedAgrees(g, g2, from, x, to);
    SlotsDiffer(g, src, tgt, from, x, to);
    var rest := Front(tgt)[|src|..];
    BelowWalk(g, g2, src, tgt, from, x, to, rest);
    assert NamesOk(g2) && Edge(g2, to.dir, Dentry(to.name, x)) by { hide Edge, NamesOk; }
    NoLoop(g2, x, rest, to);
  }

  /** Inside the source the walk to the target's directory goes on as before. */
  lemma BelowWalk(g: Graph, g2: Graph, src: Path, tgt: Path, from: Slot, x: nat, to: Slot, rest: Path)
    requires Ready(g, src, tgt, from, x, to) && Agrees(g, g2, from, to)
    requires src < tgt && rest == Front(tgt)[|src|..]
    ensures Resolve(g2, x, rest) == Ok(to.dir)
  {
    assert Front(tgt) == src + rest;
    ResolveAppend(g, ROOT, src, rest);
    hide Tree, Agrees;
    forall k | |src| < k <= |src + rest|
      ensures (src + rest)[..k] != src && (src + rest)[..k] != tgt
    {
      assert |(src + rest)[..k]| == k;
    }
    WalkAgrees(g, g2, src, tgt, from, x, to, src, x, rest);
  }

  /** In a tree no walk leads back to where it started. */
  lemma NoLoop(g: Graph, x: nat, rest: Path, to: Slot)
    requires Resolve(g, x, rest) == Ok(to.dir) && Edge(g, to.dir, Dentry(to.name, x))
    ensures !Tree(g)
  {
    if Tree(g) {
      assert EdgeOk(g, to.dir, Dentry(to.name, x));
      var p := NodeHasPath(g, x);
      FindEdge(g, to.dir, to.name);
      EdgeSource(g);
      hide Tree, Edge;
      ResolveAppend(g, ROOT, p, rest);
      ResolveDown(g, p + rest, to.dir, to.name, x);
      SamePath(g, p, p + rest + [to.name]);
    }
  }

  /** A tree has no room for an entry that shadows the snapshot entry of the root. */
  lemma RenameShadows(g: Graph, src: Path, tgt: Path, from: Slot, x: nat, to: Slot)
    requires Ready(g, src, tgt, from, x, to) && tgt == [SNAPSHOT_ENTRY]
    ensures !Tree(GRename(g, from, x, to))
  {
    var g2 := GRename(g, from, x, to);
    assert Front(tgt) == [] && to.dir == ROOT;
    NoSnapshotEntry(g, src);
    RenameEdges(g, src, tgt, from, x, to);
    SlotsDiffer(g, src, tgt, from, x, to);
    assert Edge(g2, to.dir, Dentry(to.name, x)) by { hide Edge, NamesOk; }
    assert !EdgeOk(g2, to.dir, Dentry(to.name, x));
  }

  /** A rename keeps the tree exactly when the target is not below the source and does not shadow the snapshot entry. */
  lemma RenameKeepsTree(g: Graph, src: Path, tgt: Path, from: Slot, x: nat, to: Slot)
    requires Ready(g, src, tgt, from, x, to) && ValidName(to.name)
    ensures Tree(GRename(g, from, x, to)) <==> !(src < tgt) && tgt != [SNAPSHOT_ENTRY]
  {
    hide Ready, GRename, Tree, ValidName;
    if src < tgt {
      RenameCycle(g, src, tgt, from, x, to);
    } else if tgt == [SNAPSHOT_ENTRY] {
      RenameShadows(g, src, tgt, from, x, to);
    } else if src == tgt {
      RenameInPlace(g, src, from, x, to);
    } else {
      RootSlot(g, src, tgt, from, x, to);
      MoveKeepsTree(g, src, tgt, from, x, to);
    }
  }

  lemma RootSlot(g: Graph, src: Path, tgt: Path, from: Slot, x: nat, to: Slot)
    requires Ready(g, src, tgt, from, x, to) && tgt != [SNAPSHOT_ENTRY]
    ensures to.dir == ROOT ==> to.name != SNAPSHOT_ENTRY
  {
    if to.dir == ROOT {
      SamePath(g, Front(tgt), []);
      FrontLast(tgt);
    }
  }
}
