// The directory tree of one version, by inode ids and entry lists.
module Namespaces {
  import opened ByteStrings
  import opened Directories
  import opened Inodes

  datatype GNode = File | Dir(entries: seq<Dentry>)

  type Graph = map<nat, GNode>
  type Path = seq<Bytes>

  function Entries(g: Graph, i: nat): seq<Dentry> {
    if i in g && g[i].Dir? then g[i].entries else []
  }

  /** Path lookup, component by component, from directory `i`. */
  function Resolve(g: Graph, i: nat, path: Path): Result<nat>
    decreases |path|
  {
    if path == [] then Ok(i)
    else if i !in g then Err(InodeNotFound)
    else if g[i].File? then Err(NotADirectory)
    else
      match Find(g[i].entries, path[0])
      case None => Err(NoSuchFileOrDir)
      case Some(child) => Resolve(g, child, path[1..])
  }

  // ---- Trees ----

  /** The names that handlers pass on and that survive storage next to any id. */
  predicate ValidName(name: Bytes) {
    1 <= |name| < NAME_FIELD && '\0' !in name && SEPARATOR !in name
  }

  ghost predicate UniqueNames(es: seq<Dentry>) {
    forall k, l :: 0 <= k < l < |es| ==> es[k].name != es[l].name
  }

  /** Directory `i` holds entry `e`. */
  ghost predicate Edge(g: Graph, i: nat, e: Dentry) {
    e in Entries(g, i)
  }

  ghost predicate EdgeOk(g: Graph, i: nat, e: Dentry) {
    ValidName(e.name) && e.id in g && e.id != ROOT && (i == ROOT ==> e.name != SNAPSHOT_ENTRY)
  }

  ghost predicate NamesOk(g: Graph) {
    forall i :: UniqueNames(Entries(g, i))
  }

  ghost predicate EdgesOk(g: Graph) {
    forall i, e :: Edge(g, i, e) ==> EdgeOk(g, i, e)
  }

  ghost predicate OneParent(g: Graph) {
    forall i, j, e, f :: Edge(g, i, e) && Edge(g, j, f) && e.id == f.id ==> i == j && e == f
  }

  ghost predicate HasParent(g: Graph, j: nat) {
    exists i, e :: Edge(g, i, e) && e.id == j
  }

  /** A closed, tree-shaped namespace but for cycles. */
  ghost predicate Local(g: Graph)
    ensures Local(g) ==> NamesOk(g) && EdgesOk(g) && ROOT in g && g[ROOT].Dir?
  {
    && ROOT in g && g[ROOT].Dir?
    && NamesOk(g)
    && EdgesOk(g)
    && OneParent(g)
    && (forall j {:trigger HasParent(g, j)} :: j in g && j != ROOT ==> HasParent(g, j))
  }

  /** Ranks grow downwards, so there is no cycle. */
  ghost predicate Ranked(g: Graph, rank: map<nat, nat>, bound: nat) {
    && (forall i :: i in g ==> i in rank && rank[i] <= bound)
    && (forall i, e :: Edge(g, i, e) ==> i in g && i in rank && e.id in rank && rank[i] < rank[e.id])
  }

  ghost predicate Tree(g: Graph)
    ensures Tree(g) ==> Local(g)
  {
    Local(g) && exists rank, bound :: Ranked(g, rank, bound)
  }

  // ---- Entry lists ----

  lemma {:induction false} FindUnique(es: seq<Dentry>, e: Dentry)
    requires UniqueNames(es) && e in es
    ensures Find(es, e.name) == Some(e.id)
  {
    if es[0] != e {
      var k :| 0 <= k < |es| && es[k] == e;
      assert es[1..][k - 1] == e;
      FindUnique(es[1..], e);
    }
  }

  lemma {:induction false} RemoveNameIs(es: seq<Dentry>, name: Bytes)
    requires UniqueNames(es)
    ensures var r := RemoveName(es, name);
            && UniqueNames(r) && |r| <= |es|
            && (forall e :: e in r <==> e in es && e.name != name)
            && (forall n :: n != name ==> Find(r, n) == Find(es, n))
            && Find(r, name) == None
  {
    if es != [] {
      var rest := es[1..];
      RemoveNameIs(rest, name);
      assert es == [es[0]] + rest;
      assert forall e :: e in rest ==> e.name != es[0].name;
      if es[0].name != name {
        assert RemoveName(es, name)[1..] == RemoveName(rest, name);
      } else {
        assert RemoveName(rest, name) == rest by { RemoveAbsent(rest, name); }
      }
    }
  }

  lemma {:induction false} RemoveAbsent(es: seq<Dentry>, name: Bytes)
    requires forall e :: e in es ==> e.name != name
    ensures RemoveName(es, name) == es
  {
    if es != [] {
      RemoveAbsent(es[1..], name);
    }
  }

  lemma {:induction false} FindAppend(es: seq<Dentry>, e: Dentry, name: Bytes)
    ensures Find(es + [e], name) ==
            if Find(es, name).Some? then Find(es, name) else if e.name == name then Some(e.id) else None
  {
    if es != [] {
      FindAppend(es[1..], e, name);
      assert (es + [e])[1..] == es[1..] + [e];
    }
  }

  lemma UniqueAppend(es: seq<Dentry>, e: Dentry)
    requires UniqueNames(es) && Find(es, e.name) == None
    ensures UniqueNames(es + [e])
  {
  }

  // ---- Creating and removing ----

  function GMake(g: Graph, parent: nat, name: Bytes, id: nat, isDir: bool): Graph {
    g[parent := Dir(Entries(g, parent) + [Dentry(name, id)])][id := if isDir then Dir([]) else File]
  }

  function GRemove(g: Graph, parent: nat, name: Bytes, target: nat): Graph {
    g[parent := Dir(RemoveName(Entries(g, parent), name))] - {target}
  }

  /** A directory and a name in it. */
  datatype Slot = Slot(dir: nat, name: Bytes)

  ghost predicate InSlot(i: nat, e: Dentry, a: Slot) {
    i == a.dir && e.name == a.name
  }

  /** The edges after an edit: those of `g` outside two slots, and one added edge. */
  ghost predicate Edited(g: Graph, g2: Graph, a: Slot, b: Slot, i0: nat, e0: Dentry, add: bool) {
    && NamesOk(g2)
    && forall i: nat, e: Dentry ::
         Edge(g2, i, e) <==> (Edge(g, i, e) && !InSlot(i, e, a) && !InSlot(i, e, b)) || (add && i == i0 && e == e0)
  }

  /** Some directory still holds `j` after the two slots are emptied. */
  ghost predicate KeepsParent(g: Graph, a: Slot, b: Slot, j: nat) {
    exists i: nat, e: Dentry :: Edge(g, i, e) && !InSlot(i, e, a) && !InSlot(i, e, b) && e.id == j
  }

  /** An edit that loses only nodes it empties the slot of, and adds an edge only to a node that has no other. */
  lemma EditedLocal(g: Graph, g2: Graph, a: Slot, b: Slot, i0: nat, e0: Dentry, add: bool)
    requires Local(g) && Edited(g, g2, a, b, i0, e0, add)
    requires ROOT in g2 && g2[ROOT].Dir?
    requires forall i: nat, e: Dentry :: Edge(g, i, e) && !InSlot(i, e, a) && !InSlot(i, e, b) ==>
             e.id in g2 && !(add && e.id == e0.id)
    requires add ==> EdgeOk(g2, i0, e0)
    requires forall j :: j in g2 && j != ROOT ==> (add && e0.id == j) || KeepsParent(g, a, b, j)
    ensures Local(g2)
  {
    hide Edge, NamesOk, InSlot;
    forall i: nat, e: Dentry | Edge(g2, i, e)
      ensures EdgeOk(g2, i, e)
    {
      assert Edge(g, i, e) ==> EdgeOk(g, i, e);
    }
    forall j | j in g2 && j != ROOT
      ensures HasParent(g2, j)
    {
      if add && e0.id == j {
        assert Edge(g2, i0, e0);
      } else {
        var i: nat, e: Dentry :| Edge(g, i, e) && !InSlot(i, e, a) && !InSlot(i, e, b) && e.id == j;
        assert Edge(g2, i, e);
      }
    }
  }

  lemma KeptParent(g: Graph, a: Slot, b: Slot, j: nat)
    requires Local(g) && j in g && j != ROOT
    requires forall i: nat, e: Dentry :: Edge(g, i, e) && (InSlot(i, e, a) || InSlot(i, e, b)) ==> e.id != j
    ensures KeepsParent(g, a, b, j)
  {
    hide Edge, NamesOk, InSlot;
    assert HasParent(g, j);
    var i, e :| Edge(g, i, e) && e.id == j;
  }

  lemma EdgeSource(g: Graph)
    ensures forall i: nat, e: Dentry :: Edge(g, i, e) ==> i in g && g[i].Dir?
  {
  }

  lemma FindEdge(g: Graph, i: nat, name: Bytes)
    requires NamesOk(g)
    ensures forall e :: Edge(g, i, e) && e.name == name ==> Find(Entries(g, i), name) == Some(e.id)
    ensures forall e, f :: Edge(g, i, e) && Edge(g, i, f) && e.name == name && f.name == name ==> e == f
    ensures Find(Entries(g, i), name).Some? ==>
            Edge(g, i, Dentry(name, Find(Entries(g, i), name).value)) && i in g && g[i].Dir?
  {
    assert UniqueNames(Entries(g, i));
    forall e | Edge(g, i, e) && e.name == name
      ensures Find(Entries(g, i), name) == Some(e.id)
    {
      FindUnique(Entries(g, i), e);
    }
  }

  lemma MakeEdited(g: Graph, parent: nat, name: Bytes, id: nat, isDir: bool)
    requires NamesOk(g) && parent in g && g[parent].Dir? && id !in g && Find(Entries(g, parent), name) == None
    ensures var a := Slot(parent, name);
            Edited(g, GMake(g, parent, name, id, isDir), a, a, parent, Dentry(name, id), true)
  {
    var g2 := GMake(g, parent, name, id, isDir);
    UniqueAppend(Entries(g, parent), Dentry(name, id));
    forall i
      ensures i != parent ==> Entries(g2, i) == Entries(g, i)
      ensures UniqueNames(Entries(g2, i))
    {
      assert UniqueNames(Entries(g, i));
    }
  }

  /** Creating a child under a free name with an unused id keeps the tree. */
  lemma MakeKeepsTree(g: Graph, parent: nat, name: Bytes, id: nat, isDir: bool)
    requires Tree(g) && parent in g && g[parent].Dir? && id !in g
    requires ValidName(name) && Find(Entries(g, parent), name) == None && (parent == ROOT ==> name != SNAPSHOT_ENTRY)
    ensures Tree(GMake(g, parent, name, id, isDir))
  {
    MakeLocal(g, parent, name, id, isDir);
    MakeEdited(g, parent, name, id, isDir);
    var rank, bound :| Ranked(g, rank, bound);
    hide Edge, NamesOk, OneParent, HasParent, Edited;
    MakeRanked(g, parent, name, id, isDir, rank, bound);
  }

  lemma MakeLocal(g: Graph, parent: nat, name: Bytes, id: nat, isDir: bool)
    requires Local(g) && parent in g && g[parent].Dir? && id !in g
    requires ValidName(name) && Find(Entries(g, parent), name) == None && (parent == ROOT ==> name != SNAPSHOT_ENTRY)
    ensures Local(GMake(g, parent, name, id, isDir))
  {
    hide Edge, NamesOk, OneParent, HasParent, KeepsParent;
    var g2 := GMake(g, parent, name, id, isDir);
    var a := Slot(parent, name);
    MakeEdited(g, parent, name, id, isDir);
    FindEdge(g, parent, name);
    forall j | j in g && j != ROOT
      ensures KeepsParent(g, a, a, j)
    {
      KeptParent(g, a, a, j);
    }
    assert forall i: nat, e: Dentry :: Edge(g, i, e) ==> EdgeOk(g, i, e);
    hide Edited, EdgesOk, Local;
    EditedLocal(g, g2, a, a, parent, Dentry(name, id), true);
  }

  lemma MakeRanked(g: Graph, parent: nat, name: Bytes, id: nat, isDir: bool, rank: map<nat, nat>, bound: nat)
    requires EdgesOk(g) && Ranked(g, rank, bound) && parent in g && id !in g
    requires var a := Slot(parent, name);
             Edited(g, GMake(g, parent, name, id, isDir), a, a, parent, Dentry(name, id), true)
    ensures Ranked(GMake(g, parent, name, id, isDir), rank[id := rank[parent] + 1], bound + 1)
  {
    hide Edge, NamesOk;
    assert forall i: nat, e: Dentry :: Edge(g, i, e) ==> EdgeOk(g, i, e);
  }

  lemma RemoveEdited(g: Graph, parent: nat, name: Bytes, target: nat)
    requires NamesOk(g) && Entries(g, target) == [] && parent in g && parent != target
    ensures var a := Slot(parent, name);
            Edited(g, GRemove(g, parent, name, target), a, a, parent, Dentry(name, target), false)
  {
    var g2 := GRemove(g, parent, name, target);
    assert UniqueNames(Entries(g, parent));
    RemoveNameIs(Entries(g, parent), name);
    forall i
      ensures i != parent ==> Entries(g2, i) == Entries(g, i)
      ensures UniqueNames(Entries(g2, i))
    {
      assert UniqueNames(Entries(g, i));
    }
    assert Entries(g2, parent) == RemoveName(Entries(g, parent), name);
    hide UniqueNames, RemoveName, GRemove, Entries;
  }

  /** Removing a file or an empty directory keeps the tree. */
  lemma RemoveKeepsTree(g: Graph, parent: nat, name: Bytes, target: nat)
    requires Tree(g) && Find(Entries(g, parent), name) == Some(target) && Entries(g, target) == []
    ensures Tree(GRemove(g, parent, name, target))
  {
    var g2 := GRemove(g, parent, name, target);
    RemoveLocal(g, parent, name, target);
    FindEdge(g, parent, name);
    RemoveEdited(g, parent, name, target);
    EdgeSource(g2);
    var rank, bound :| Ranked(g, rank, bound);
    hide Edge, NamesOk, OneParent, HasParent, InSlot, Local;
    FewerRanked(g, g2, rank, bound);
  }

  lemma FewerRanked(g: Graph, g2: Graph, rank: map<nat, nat>, bound: nat)
    requires Ranked(g, rank, bound) && g2.Keys <= g.Keys
    requires forall i: nat, e: Dentry :: Edge(g2, i, e) ==> Edge(g, i, e) && i in g2
    ensures Ranked(g2, rank, bound)
  {
    hide Edge;
  }

  lemma RemoveLocal(g: Graph, parent: nat, name: Bytes, target: nat)
    requires Local(g) && Find(Entries(g, parent), name) == Some(target) && Entries(g, target) == []
    ensures Local(GRemove(g, parent, name, target))
    ensures parent != target
  {
    hide Edge, NamesOk, HasParent, KeepsParent;
    var g2 := GRemove(g, parent, name, target);
    var a := Slot(parent, name);
    var gone := Dentry(name, target);
    FindEdge(g, parent, name);
    assert EdgeOk(g, parent, gone);
    RemoveEdited(g, parent, name, target);
    forall j | j in g2 && j != ROOT
      ensures KeepsParent(g, a, a, j)
    {
      KeptParent(g, a, a, j);
    }
    forall i: nat, e: Dentry | Edge(g, i, e) && !InSlot(i, e, a)
      ensures e.id in g2
    {
      assert EdgeOk(g, i, e);
      assert e.id == target ==> e == gone;
    }
    hide Edited, EdgesOk, Local;
    EditedLocal(g, g2, a, a, parent, gone, false);
  }
}
