// Path strings: lookup by full path, the exported map of a version, and what snapshots keep of both.
module Lookups {
  import opened ByteStrings
  import opened Blocks
  import opened Inodes
  import opened Stores
  import opened Directories
  import opened Namespaces
  import opened TreePaths
  import opened PathStrings
  import opened Images
  import opened Histories
  import opened Filesystems
  import opened Refinement
  import opened Runs
  import opened Exports

  /** What a version has at a path, given the version and path that a string addresses. */
  ghost function Found(s: Store, addressed: Result<(Version, Path)>): Result<nat> {
    match addressed
    case Err(e) => Err(e)
    case Ok((v, p)) => if v in s.versions then Lookup(View(s, v), p) else Err(NoSuchSnapshot)
  }

  /** Lookup of any string: the empty one is the root, relative ones are refused, all others find what they address. */
  lemma LookupByPath(s: Store, path: Bytes)
    requires Inv(s)
    ensures InodeIdByPath(s, path) ==
            if path == [] then Ok(ROOT)
            else if path[0] != SEPARATOR then Err(InvalidDentryName)
            else Found(s, Addressed(Components(path)))
  {
    IfSnapshotAddresses(path);
    hide Inv, View, Components, StoreResolve, Resolve, IfSnapshot;
    InvStore(s);
    var a := Addressed(Components(path));
    if a.Ok? {
      var (v, p) := a.value;
      LookupRoot(s, v);
      if v in s.versions { ResolveRefines(s, v, p); } else { NoVersion(s, v, p); }
    }
  }

  lemma NoVersion(s: Store, v: Version, p: Path)
    requires StoreInv(s) && v !in s.versions
    ensures v != CURRENT && (p != [] ==> StoreResolve(s, v, ROOT, p) == Err(NoSuchSnapshot))
  {
    hide BlocksInv;
    assert ListOk(s, CURRENT) && CountOk(s, ROOT);
    assert v !in Listing(s, ROOT);
  }

  /** An absolute path that can be given a version: the current version has no way to name its own snapshot entry. */
  ghost predicate Addressable(v: Version, p: Bytes) {
    && p != [] && p[0] == SEPARATOR
    && (v == CURRENT ==> Components(p) == [] || Components(p)[0] != SNAPSHOT_ENTRY)
  }

  /** Lookup of a path under a version finds what the namespace of that version has there. */
  lemma LookupUnder(s: Store, v: Version, p: Bytes)
    requires Inv(s) && v in s.versions && Proper(v) && Addressable(v, p)
    ensures InodeIdByPath(s, MakePathWithVersion(p, v)) == Lookup(View(s, v), Components(p))
  {
    hide Inv, View, Components, StoreResolve, Resolve;
    ResolveRefines(s, v, Components(p));
    if v == CURRENT { CurrentPathRoundTrip(p); } else { SnapshotPathRoundTrip(p, v); }
    hide IfSnapshot;
    assert Addresses(IfSnapshot(MakePathWithVersion(p, v)), v, p);
    assert Components(p) == [] ==> Lookup(View(s, v), Components(p)) == Ok(ROOT) by { LookupRoot(s, v); }
  }

  lemma LookupRoot(s: Store, v: Version)
    ensures v in s.versions ==> Lookup(View(s, v), []) == Ok(ROOT)
  {
    hide View;
  }

  // ---- The exported map ----

  /** export_as_filesystem_map. */
  ghost function StoreExport(s: Store, v: Version): (r: seq<Bytes>)
    requires v in s.versions && Tree(Names(View(s, v)))
  {
    PrintAll(ExportPaths(Names(View(s, v))))
  }

  function PrintAll(ps: seq<Path>): (r: seq<Bytes>)
    ensures |r| == |ps|
    ensures forall k :: 0 <= k < |ps| ==> r[k] == Print(ps[k])
  {
    seq(|ps|, k requires 0 <= k < |ps| => Print(ps[k]))
  }

  /** A path as path_t prints it, but for the root. */
  ghost predicate Normalised(t: Bytes) {
    t != [] && Print(Components(t)) == t
  }

  lemma {:induction false} ResolvedProper(g: Graph, i: nat, p: Path)
    requires Local(g) && Resolve(g, i, p).Ok?
    ensures AllProper(p)
    decreases |p|
  {
    hide Local;
    if p != [] {
      FindEdge(g, i, p[0]);
      var e := Dentry(p[0], Find(Entries(g, i), p[0]).value);
      assert Edge(g, i, e) && EdgeOk(g, i, e);
      ResolvedProper(g, e.id, p[1..]);
      assert Proper(p[0]);
    }
  }

  lemma NormalisedStarts(t: Bytes)
    requires Normalised(t)
    ensures Components(t) != [] && t[0] == SEPARATOR && AllProper(Components(t))
  {
    ComponentsProper(t, []);
    PrintStarts(Components(t));
  }

  lemma PrintNormalised(p: Path)
    requires AllProper(p) && p != []
    ensures Normalised(Print(p)) && Components(Print(p)) == p
  {
    ParsePrint(p);
    assert Proper(p[0]);
  }

  /**
    * The exported map lists every normalised path that lookup resolves under the version exactly once, and nothing
    * else.
    */
  lemma ExportListsLookups(s: Store, v: Version)
    requires Reachable(s) && v in s.versions && Proper(v)
    ensures Tree(Names(View(s, v)))
    ensures Distinct(StoreExport(s, v))
    ensures forall t :: t in StoreExport(s, v) <==>
              && Normalised(t) && (v == CURRENT ==> Components(t)[0] != SNAPSHOT_ENTRY)
              && InodeIdByPath(s, MakePathWithVersion(t, v)).Ok?
  {
    ReachableInv(s);
    hide Reachable;
    var g := Names(View(s, v));
    InvImage(s, v);
    hide Inv, View, Tree, Local, ExportPaths, Resolve;
    ExportIsComplete(g);
    var ps := ExportPaths(g);
    forall p | p in ps
      ensures AllProper(p) && p != [] && Resolve(g, ROOT, p).Ok? && p[0] != SNAPSHOT_ENTRY
    {
      ResolvedProper(g, ROOT, p);
      NoSnapshotEntry(g, p);
    }
    ExportOnce(ps);
    forall t
      ensures t in StoreExport(s, v) <==>
                && Normalised(t) && (v == CURRENT ==> Components(t)[0] != SNAPSHOT_ENTRY)
                && InodeIdByPath(s, MakePathWithVersion(t, v)).Ok?
    {
      ExportedText(s, v, ps, t);
    }
  }

  lemma ExportOnce(ps: seq<Path>)
    requires Distinct(ps) && forall p :: p in ps ==> AllProper(p)
    ensures Distinct(PrintAll(ps))
  {
    forall a, b | 0 <= a < b < |ps|
      ensures Print(ps[a]) != Print(ps[b])
    {
      assert ps[a] in ps && ps[b] in ps;
      if Print(ps[a]) == Print(ps[b]) { PrintInjective(ps[a], ps[b]); }
    }
  }

  lemma ExportedText(s: Store, v: Version, ps: seq<Path>, t: Bytes)
    requires Inv(s) && v in s.versions && Proper(v)
    requires forall p :: p in ps <==> p != [] && Lookup(View(s, v), p).Ok?
    requires forall p :: p in ps ==> AllProper(p) && p != [] && p[0] != SNAPSHOT_ENTRY
    ensures t in PrintAll(ps) <==>
              && Normalised(t) && (v == CURRENT ==> Components(t)[0] != SNAPSHOT_ENTRY)
              && InodeIdByPath(s, MakePathWithVersion(t, v)).Ok?
  {
    hide Inv, View, Resolve, InodeIdByPath, Components, Print;
    if t in PrintAll(ps) {
      var k :| 0 <= k < |ps| && t == Print(ps[k]);
      assert ps[k] in ps;
      PrintNormalised(ps[k]);
    }
    if Normalised(t) {
      NormalisedStarts(t);
      if v == CURRENT ==> Components(t)[0] != SNAPSHOT_ENTRY {
        LookupUnder(s, v, t);
        if Components(t) in ps {
          var k :| 0 <= k < |ps| && Components(t) == ps[k];
          assert PrintAll(ps)[k] == t;
        }
      }
    }
  }

  // ---- Snapshots keep the namespace ----

  /**
    * Whatever happens after its creation, a snapshot exports the same map, and lookups under it find the same inodes.
    */
  lemma NamespaceIsolation(s: Store, ops: seq<Op>, v: Version, p: Bytes)
    requires Reachable(s) && v !in s.versions && Proper(v)
    requires LegalRun(s.bs, Abs(s), [CreateVolume(v)] + ops) && DeleteVolume(v) !in ops
    requires Addressable(CURRENT, p)
    ensures var s2 := Run(s, [CreateVolume(v)] + ops);
            && v in s2.versions && Tree(Names(View(s2, v))) && Tree(Names(View(s, CURRENT)))
            && StoreExport(s2, v) == StoreExport(s, CURRENT)
            && InodeIdByPath(s2, MakePathWithVersion(p, v)) == InodeIdByPath(s, p)
  {
    hide *;
    ReachableInv(s);
    SnapshotForever(s, ops, v);
    RunRefines(s, [CreateVolume(v)] + ops);
    ProperCurrent();
    SameView(s, CURRENT, Run(s, [CreateVolume(v)] + ops), v, p);
    CurrentPath(p);
  }

  lemma ProperCurrent()
    ensures Proper(CURRENT)
  {
  }

  lemma CurrentPath(p: Bytes)
    ensures MakePathWithVersion(p, CURRENT) == p
  {
  }

  lemma AddressableAnywhere(p: Bytes, v: Version)
    requires Addressable(CURRENT, p)
    ensures Addressable(v, p)
  {
  }

  /** Versions that show the same image export the same map and find the same inodes. */
  lemma SameView(s: Store, v: Version, s2: Store, w: Version, p: Bytes)
    requires Inv(s) && v in s.versions && Proper(v) && Inv(s2) && w in s2.versions && Proper(w)
    requires View(s, v) == View(s2, w) && Addressable(CURRENT, p)
    ensures Tree(Names(View(s, v))) && StoreExport(s, v) == StoreExport(s2, w)
    ensures InodeIdByPath(s, MakePathWithVersion(p, v)) == InodeIdByPath(s2, MakePathWithVersion(p, w))
  {
    InvImage(s, v);
    AddressableAnywhere(p, v);
    AddressableAnywhere(p, w);
    hide Inv, View, InodeIdByPath, Tree, Components, Resolve, ExportPaths, Names, PrintAll, Addressable;
    LookupUnder(s, v, p);
    LookupUnder(s2, w, p);
  }
}
