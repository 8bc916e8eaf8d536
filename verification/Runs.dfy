// Whole runs of the store: refinement of the history of full copies, and what follows for snapshots.
module Runs {
  import opened ByteStrings
  import opened Blocks
  import opened Stores
  import opened Snapshots
  import opened SnapshotInv
  import opened Directories
  import opened Namespaces
  import opened Images
  import opened Histories
  import opened Filesystems
  import opened Refinement
  import opened StoreRenames
  import opened PathStrings

  // ---- Snapshots ----

  lemma CreateRefines(s: Store, v: Version)
    requires StoreInv(s)
    ensures Matches(s.bs, Returning(CreateSnapshot(s, v)), AbsApply(s.bs, Abs(s), CreateVolume(v)))
  {
    hide BlocksInv, ListsInv, View, CreateSnapshot;
    CreateSnapshotRefines(s, v);
    if v !in s.versions {
      assert Abs(CreateSnapshot(s, v).value) == Abs(s)[v := View(s, CURRENT)];
    }
  }

  lemma DeleteRefines(s: Store, v: Version)
    requires StoreInv(s)
    ensures Matches(s.bs, Returning(DeleteSnapshot(s, v)), AbsApply(s.bs, Abs(s), DeleteVolume(v)))
  {
    hide BlocksInv, ListsInv, View, DeleteSnapshot;
    DeleteSnapshotRefines(s, v);
    if v in s.versions && v != CURRENT {
      assert Abs(DeleteSnapshot(s, v).value) == Abs(s) - {v};
    }
  }

  // ---- One step ----

  /** Every operation does to the store what it does to the history of full copies: same errors, same results. */
  lemma ApplyRefines(s: Store, op: Op)
    requires Inv(s) && Legal(Abs(s), op) && !Hidden(Abs(s), op)
    ensures Follows(s, Apply(s, op), AbsApply(s.bs, Abs(s), op))
  {
    hide StoreInv, GoodHistory, View, Matches, Follows, OnlyInSnapshots, StoreWrite, StorePWrite, StoreTruncate,
         StoreMake, StoreRemove,
         RenameByPath, CreateSnapshot, DeleteSnapshot, AbsWrite, ImgMake, ImgRemove, ImgRenameByPath, ValidName,
           FreshId, PosixWrite,
         CheckReadOnly, Effective, Components;
    AbsCurrent(s);
    var a := AbsApply(s.bs, Abs(s), op);
    match op
    case Write(i, offset, d, resize) =>
      WriteRefines(s, i, offset, d, resize);
      MatchesFollows(s, StoreWrite(s, i, offset, d, resize), a);
    case PWrite(i, offset, d) =>
      PWriteRefines(s, i, offset, d);
      MatchesFollows(s, StorePWrite(s, i, offset, d), a);
    case Truncate(i, n) =>
      TruncateRefinesStore(s, i, n);
      MatchesFollows(s, StoreTruncate(s, i, n), a);
    case MakeChild(parent, name, isDir) =>
      MakeRefinesStore(s, parent, name, isDir);
      MatchesFollows(s, StoreMake(s, parent, name, isDir), a);
    case RemoveChild(parent, name) =>
      RemoveRefinesStore(s, parent, name);
      MatchesFollows(s, StoreRemove(s, parent, name), a);
    case Rename(path, name) => RenameByPathRefines(s, path, name);
    case CreateVolume(v) =>
      CreateRefines(s, v);
      MatchesFollows(s, Returning(CreateSnapshot(s, v)), a);
    case DeleteVolume(v) =>
      DeleteRefines(s, v);
      MatchesFollows(s, Returning(DeleteSnapshot(s, v)), a);
  }

  /** The store after an operation. */
  ghost function Next(s: Store, op: Op): Store
    requires s.bs > 0 && CURRENT in s.versions
  {
    Apply(s, op).state
  }

  ghost function AbsNext(bs: nat, h: History, op: Op): History
    requires bs > 0 && CURRENT in h
  {
    match AbsApply(bs, h, op)
    case Err(_) => h
    case Ok(done) => done.state
  }

  /** Changing the current bytes of a removed inode is seen by no version. */
  lemma HiddenKeeps(s: Store, op: Op)
    requires StoreInv(s) && Hidden(Abs(s), op)
    ensures StoreInv(Next(s, op)) && Abs(Next(s, op)) == Abs(s) && Next(s, op).bs == s.bs
    ensures AbsNext(s.bs, Abs(s), op) == Abs(s)
  {
    hide StoreInv, View, OnlyInSnapshots, StoreWrite, StorePWrite, StoreTruncate, WriteBytes, PosixWrite;
    AbsCurrent(s);
    ListedIffShown(s, op.i);
    match op
    case Write(i, offset, d, resize) => WriteRefines(s, i, offset, d, resize);
    case PWrite(i, offset, d) => PWriteRefines(s, i, offset, d);
    case Truncate(i, n) => TruncateRefinesStore(s, i, n);
  }

  lemma NextInv(s: Store, op: Op)
    requires Inv(s) && Legal(Abs(s), op)
    ensures Inv(Next(s, op)) && Abs(Next(s, op)) == AbsNext(s.bs, Abs(s), op)
    ensures Next(s, op).bs == s.bs
  {
    hide StoreInv, AbsApply, Apply, GoodHistory, Legal, Hidden, Next, AbsNext;
    if Hidden(Abs(s), op) { HiddenKeeps(s, op); } else { ShownNext(s, op); }
  }

  lemma ShownNext(s: Store, op: Op)
    requires Inv(s) && Legal(Abs(s), op) && !Hidden(Abs(s), op)
    ensures Inv(Next(s, op)) && Abs(Next(s, op)) == AbsNext(s.bs, Abs(s), op)
    ensures Next(s, op).bs == s.bs
  {
    hide StoreInv, AbsApply, Apply, GoodHistory, Legal, Hidden;
    ApplyRefines(s, op);
    if AbsApply(s.bs, Abs(s), op).Ok? {
      StepKeepsGood(s.bs, Abs(s), op);
    }
  }

  // ---- Runs ----

  ghost function Run(s: Store, ops: seq<Op>): Store
    decreases |ops|
  {
    if ops == [] || s.bs == 0 || CURRENT !in s.versions then s else Run(Next(s, ops[0]), ops[1..])
  }

  ghost function AbsRun(bs: nat, h: History, ops: seq<Op>): History
    decreases |ops|
  {
    if ops == [] || bs == 0 || CURRENT !in h then h else AbsRun(bs, AbsNext(bs, h, ops[0]), ops[1..])
  }

  /** Every operation of the run meets what the source's callers guarantee at that point. */
  ghost predicate LegalRun(bs: nat, h: History, ops: seq<Op>)
    decreases |ops|
  {
    ops != [] ==> bs > 0 && CURRENT in h && Legal(h, ops[0]) && LegalRun(bs, AbsNext(bs, h, ops[0]), ops[1..])
  }

  lemma InitInv(bs: nat)
    requires bs > 0
    ensures Inv(Init(bs))
    ensures Abs(Init(bs)) == map[CURRENT := map[ROOT := Node(true, [])]]
  {
    hide StoreInv, GoodImage;
    InitStoreInv(bs);
    var s := Init(bs);
    var img: Image := map[ROOT := Node(true, [])];
    assert ChunksOf(s.pool, []) == [];
    assert View(s, CURRENT) == img;
    InitTree(img);
    assert Abs(s) == map[CURRENT := img];
    OneId(img);
  }

  lemma OneId(img: Image)
    requires img == map[ROOT := Node(true, [])]
    ensures AllIds(map[CURRENT := img]) == {ROOT} && |AllIds(map[CURRENT := img])| == 1
  {
    var h: History := map[CURRENT := img];
    assert CURRENT in h && ROOT in h[CURRENT];
    forall i | i in AllIds(h)
      ensures i == ROOT
    {
      var v :| v in h && i in h[v];
      assert h[v] == img;
    }
    assert AllIds(h) == {ROOT};
  }

  lemma InitTree(img: Image)
    requires img == map[ROOT := Node(true, [])]
    ensures GoodImage(img)
  {
    var g := Names(img);
    assert g == map[ROOT := Dir([])];
    assert forall i: nat, e: Dentry :: !Edge(g, i, e);
    assert Ranked(g, map[ROOT := 0], 0);
  }

  lemma InitStoreInv(bs: nat)
    requires bs > 0
    ensures StoreInv(Init(bs))
  {
    var s := Init(bs);
    EmptyIds(s.pool, bs);
    assert Listing(s, ROOT) == {CURRENT};
    assert ListOk(s, CURRENT);
    hide InodeOk, Ids;
  }

  /** Over any run the invariant holds, and the store stays equal to the history of full copies. */
  lemma {:induction false} RunRefines(s: Store, ops: seq<Op>)
    requires Inv(s) && LegalRun(s.bs, Abs(s), ops)
    ensures Inv(Run(s, ops)) && Run(s, ops).bs == s.bs
    ensures Abs(Run(s, ops)) == AbsRun(s.bs, Abs(s), ops)
    decreases |ops|
  {
    hide Inv, Legal, Next, AbsNext;
    if ops != [] {
      NextInv(s, ops[0]);
      RunRefines(Next(s, ops[0]), ops[1..]);
    }
  }

  /** `s` is where a legal run takes a fresh filesystem. */
  ghost predicate FromRun(s: Store, bs: nat, ops: seq<Op>) {
    bs > 0 && LegalRun(bs, Abs(Init(bs)), ops) && s == Run(Init(bs), ops)
  }

  lemma FromRunInv(s: Store, bs: nat, ops: seq<Op>)
    requires FromRun(s, bs, ops)
    ensures Inv(s)
  {
    hide Inv, LegalRun, Run, Abs;
    InitInv(bs);
    RunRefines(Init(bs), ops);
  }

  /** Every state that the operations can reach from a fresh filesystem. */
  ghost predicate Reachable(s: Store)
    ensures Reachable(s) ==> s.bs > 0 && CURRENT in s.versions
  {
    assert (exists bs: nat, ops :: FromRun(s, bs, ops)) ==> s.bs > 0 && CURRENT in s.versions by {
      hide FromRun;
      if bs: nat, ops :| FromRun(s, bs, ops) { FromRunInv(s, bs, ops); }
    }
    exists bs: nat, ops :: FromRun(s, bs, ops)
  }

  lemma ReachableInv(s: Store)
    requires Reachable(s)
    ensures Inv(s)
  {
    hide FromRun, Inv;
    var bs: nat, ops :| FromRun(s, bs, ops);
    FromRunInv(s, bs, ops);
  }

  lemma {:induction false} RunAppend(s: Store, ops: seq<Op>, op: Op)
    requires Inv(s) && LegalRun(s.bs, Abs(s), ops) && Inv(Run(s, ops)) && Legal(Abs(Run(s, ops)), op)
    ensures LegalRun(s.bs, Abs(s), ops + [op]) && Run(s, ops + [op]) == Next(Run(s, ops), op)
    decreases |ops|
  {
    hide Inv, Legal, Next, AbsNext, Abs;
    var all := ops + [op];
    if ops == [] {
      assert all == [op] && all[1..] == [];
    } else {
      assert all[0] == ops[0] && all[1..] == ops[1..] + [op];
      NextInv(s, ops[0]);
      RunAppend(Next(s, ops[0]), ops[1..], op);
    }
  }

  lemma InitReachable(bs: nat)
    requires bs > 0
    ensures Reachable(Init(bs))
  {
    hide Inv, Abs;
    InitInv(bs);
    assert FromRun(Init(bs), bs, []);
  }

  lemma ReachableNext(s: Store, op: Op)
    requires Reachable(s) && Legal(Abs(s), op)
    ensures Reachable(Next(s, op))
  {
    hide FromRun, Inv, Legal, Next, Abs;
    var bs: nat, ops :| FromRun(s, bs, ops);
    FromRunInv(s, bs, ops);
    RunLonger(s, bs, ops, op);
  }

  lemma RunLonger(s: Store, bs: nat, ops: seq<Op>, op: Op)
    requires FromRun(s, bs, ops) && Inv(s) && Legal(Abs(s), op)
    ensures FromRun(Next(s, op), bs, ops + [op])
  {
    hide Inv, Legal, Next, Abs, LegalRun, Run;
    InitInv(bs);
    RunAppend(Init(bs), ops, op);
  }

  /** A run from a fresh filesystem does to it what it does to the history that starts with an empty root. */
  lemma FreshRunRefines(bs: nat, ops: seq<Op>)
    requires bs > 0 && LegalRun(bs, map[CURRENT := map[ROOT := Node(true, [])]], ops)
    ensures Abs(Run(Init(bs), ops)) == AbsRun(bs, map[CURRENT := map[ROOT := Node(true, [])]], ops)
  {
    hide Inv, LegalRun, Run, AbsRun;
    InitInv(bs);
    RunRefines(Init(bs), ops);
  }

  // ---- Snapshots over whole runs ----

  lemma {:induction false} AbsRunIsolation(bs: nat, h: History, ops: seq<Op>, v: Version)
    requires bs > 0 && CURRENT in h && v in h && v != CURRENT
    requires DeleteVolume(v) !in ops
    ensures var h2 := AbsRun(bs, h, ops); v in h2 && h2[v] == h[v]
    decreases |ops|
  {
    if ops != [] {
      assert ops[0] in ops;
      hide AbsApply;
      if AbsApply(bs, h, ops[0]).Ok? { AbsIsolation(bs, h, ops[0], v); }
      AbsRunIsolation(bs, AbsNext(bs, h, ops[0]), ops[1..], v);
    }
  }

  /** Until it is deleted, a snapshot shows the same image, whatever else happens. */
  lemma SnapshotIsolation(s: Store, ops: seq<Op>, v: Version)
    requires Inv(s) && LegalRun(s.bs, Abs(s), ops)
    requires v in s.versions && v != CURRENT && DeleteVolume(v) !in ops
    ensures v in Run(s, ops).versions && View(Run(s, ops), v) == View(s, v)
  {
    hide LegalRun, View, StoreInv, GoodHistory;
    RunRefines(s, ops);
    AbsRunIsolation(s.bs, Abs(s), ops, v);
    assert Abs(Run(s, ops))[v] == View(Run(s, ops), v);
  }

  /** From its creation until its deletion a snapshot shows the image that was current when it was made. */
  lemma SnapshotForever(s: Store, ops: seq<Op>, v: Version)
    requires Inv(s) && v !in s.versions
    requires LegalRun(s.bs, Abs(s), [CreateVolume(v)] + ops) && DeleteVolume(v) !in ops
    ensures var s2 := Run(s, [CreateVolume(v)] + ops);
            v in s2.versions && View(s2, v) == View(s, CURRENT)
  {
    hide View, StoreInv, GoodHistory, Apply;
    var all := [CreateVolume(v)] + ops;
    assert all[1..] == ops;
    NextInv(s, all[0]);
    var s1 := Next(s, all[0]);
    AbsCurrent(s);
    assert Abs(s1) == Abs(s)[v := View(s, CURRENT)];
    assert View(s1, v) == Abs(s1)[v];
    SnapshotIsolation(s1, ops, v);
  }
}
