// Path names: the parser and printer, and the /.snapshot/<version> prefix.
module PathStrings {
  import opened ByteStrings
  import opened Inodes

  type Component = Bytes

  const SNAPSHOT_PREFIX: Bytes := "/.snapshot/"

  /** The current version, named as a snapshot. */
  const DETOUR: Bytes := "/.snapshot/current"

  lemma DetourText()
    ensures DETOUR == [SEPARATOR] + SNAPSHOT_ENTRY + [SEPARATOR] + CURRENT
  {
  }

  // ---- Parsing and printing as functions ----

  /** The nonempty runs between slashes, given the run `cur` read so far. */
  function ComponentsFrom(s: Bytes, cur: Bytes): seq<Component> {
    if s == [] then (if cur == [] then [] else [cur])
    else if s[0] == SEPARATOR
      then (if cur == [] then ComponentsFrom(s[1..], []) else [cur] + ComponentsFrom(s[1..], []))
    else ComponentsFrom(s[1..], cur + [s[0]])
  }

  function Components(s: Bytes): seq<Component> {
    ComponentsFrom(s, [])
  }

  function Print(cs: seq<Component>): Bytes {
    if cs == [] then []
    else (if cs[0] == [] then [] else [SEPARATOR] + cs[0]) + Print(cs[1..])
  }

  predicate Proper(c: Component) {
    c != [] && SEPARATOR !in c
  }

  ghost predicate AllProper(cs: seq<Component>) {
    forall c :: c in cs ==> Proper(c)
  }

  lemma {:induction false} ComponentsProper(s: Bytes, cur: Bytes)
    requires SEPARATOR !in cur
    ensures AllProper(ComponentsFrom(s, cur))
  {
    if s != [] {
      if s[0] == SEPARATOR { ComponentsProper(s[1..], []); } else { ComponentsProper(s[1..], cur + [s[0]]); }
    }
  }

  /** A run without slashes is only collected. */
  lemma {:induction false} ComponentsRun(c: Bytes, s: Bytes, cur: Bytes)
    requires SEPARATOR !in c
    ensures ComponentsFrom(c + s, cur) == ComponentsFrom(s, cur + c)
  {
    if c == [] {
      assert c + s == s && cur + c == cur;
    } else {
      assert (c + s)[1..] == c[1..] + s;
      ComponentsRun(c[1..], s, cur + [c[0]]);
      assert cur + [c[0]] + c[1..] == cur + c;
    }
  }

  /** Text up to a slash and text from it on are parsed apart. */
  lemma {:induction false} ComponentsSplit(a: Bytes, b: Bytes, cur: Bytes)
    requires b == [] || b[0] == SEPARATOR
    ensures ComponentsFrom(a + b, cur) == ComponentsFrom(a, cur) + ComponentsFrom(b, [])
  {
    if a == [] {
      assert a + b == b;
    } else {
      assert (a + b)[1..] == a[1..] + b;
      if a[0] == SEPARATOR {
        ComponentsSplit(a[1..], b, []);
      } else {
        ComponentsSplit(a[1..], b, cur + [a[0]]);
      }
    }
  }

  lemma PrintStarts(cs: seq<Component>)
    requires AllProper(cs)
    ensures Print(cs) == [] || Print(cs)[0] == SEPARATOR
  {
  }

  /** Parsing a printed list of components gives the list back. */
  lemma {:induction false} ParsePrint(cs: seq<Component>)
    requires AllProper(cs)
    ensures Components(Print(cs)) == cs
  {
    if cs != [] {
      var head := [SEPARATOR] + cs[0];
      assert Proper(cs[0]);
      assert AllProper(cs[1..]);
      PrintStarts(cs[1..]);
      ComponentsSplit(head, Print(cs[1..]), []);
      ParsePrint(cs[1..]);
      assert head[1..] == cs[0] + [] && [] + cs[0] == cs[0];
      ComponentsRun(cs[0], [], []);
      assert [cs[0]] + cs[1..] == cs;
    }
  }

  /** Printing what was parsed normalises a path, once and for all. */
  lemma PrintParseIdempotent(s: Bytes)
    ensures Print(Components(Print(Components(s)))) == Print(Components(s))
    ensures Components(Print(Components(s))) == Components(s)
  {
    ComponentsProper(s, []);
    ParsePrint(Components(s));
  }

  lemma PrintInjective(a: seq<Component>, b: seq<Component>)
    requires AllProper(a) && AllProper(b) && Print(a) == Print(b)
    ensures a == b
  {
    ParsePrint(a);
    ParsePrint(b);
  }

  lemma {:induction false} PrintAppend(a: seq<Component>, b: seq<Component>)
    ensures Print(a + b) == Print(a) + Print(b)
  {
    if a == [] {
      assert a + b == b;
    } else {
      assert (a + b)[1..] == a[1..] + b;
      PrintAppend(a[1..], b);
    }
  }

  /** The components of any text: slashes separate, and what stands between them is kept. */
  lemma ComponentsExactly(c: Bytes, p: Bytes)
    requires c != [] && '/' !in c
    ensures Components("") == []
    ensures Components("/" + p) == Components(p)
    ensures Components(c) == [c] && Components(c + "/" + p) == [c] + Components(p)
  {
    assert ("/" + p)[1..] == p;
    ComponentsRun(c, [], []);
    assert c + [] == c && [] + c == c;
    assert Components(c) == [c];
    assert c + "/" + p == c + ("/" + p);
    hide ComponentsFrom;
    ComponentsSplit(c, "/" + p, []);
  }

  // ---- Snapshot prefixes ----

  function MakePathWithVersion(path: Bytes, version: Bytes): Bytes {
    if version == CURRENT then path else SNAPSHOT_PREFIX + version + path
  }

  /** The version a path addresses, and the rest of the path. */
  function IfSnapshot(path: Bytes): Result<(Bytes, Bytes)> {
    if path == [SEPARATOR] then Ok((CURRENT, path))
    else
      var cs := Components(path);
      if cs == [] then Ok((CURRENT, []))
      else if cs[0] != SNAPSHOT_ENTRY then Ok((CURRENT, path))
      else if |cs| == 1 then Err(InvalidDentryName)
      else Ok((cs[1], Print(cs[2..])))
  }

  /** The same on components: the version that they address, and the path inside it. */
  function Addressed(cs: seq<Component>): Result<(Bytes, seq<Component>)> {
    if cs == [] || cs[0] != SNAPSHOT_ENTRY then Ok((CURRENT, cs))
    else if |cs| == 1 then Err(InvalidDentryName)
    else Ok((cs[1], cs[2..]))
  }

  /** Cutting the text of a path is cutting its components. */
  lemma IfSnapshotAddresses(path: Bytes)
    ensures match IfSnapshot(path)
            case Err(e) => Addressed(Components(path)) == Err(e)
            case Ok((v, rest)) => Addressed(Components(path)) == Ok((v, Components(rest)))
  {
    RootHasNoComponents();
    var cs := Components(path);
    ComponentsProper(path, []);
    if cs != [] && cs[0] == SNAPSHOT_ENTRY && |cs| > 1 { ParsePrint(cs[2..]); }
  }

  /** CHECK_RDONLY_FS: paths under a snapshot cannot be changed. */
  function CheckReadOnly(path: Bytes): Result<()> {
    match IfSnapshot(path)
    case Err(e) => Err(e)
    case Ok((v, _)) => if v != CURRENT then Err(ReadOnlyFilesystem) else Ok(())
  }

  /** Where a path leads in the version that it addresses; `/.snapshot/current` is a detour to the current version. */
  function Effective(path: Bytes): seq<Component> {
    match Addressed(Components(path))
    case Err(_) => []
    case Ok((_, cs)) => cs
  }

  lemma CheckedAddress(path: Bytes)
    ensures CheckReadOnly(path).Ok? <==> Addressed(Components(path)) == Ok((CURRENT, Effective(path)))
  {
    IfSnapshotAddresses(path);
    hide Components;
  }

  /** Which paths a change is refused for, and what the others address in the current version. */
  lemma CheckReadOnlyExactly(path: Bytes)
    ensures var cs, r := Components(path), CheckReadOnly(path);
            if cs == [] || cs[0] != ".snapshot" then r == Ok(()) && Effective(path) == cs
            else if |cs| == 1 then r == Err(InvalidDentryName)
            else if cs[1] != "current" then r == Err(ReadOnlyFilesystem)
            else r == Ok(()) && Effective(path) == cs[2..]
  {
    IfSnapshotAddresses(path);
    hide Components;
  }

  /** The result of IfSnapshot names version `v` and a path with the components of `p`. */
  ghost predicate Addresses(r: Result<(Bytes, Bytes)>, v: Bytes, p: Bytes) {
    r.Ok? && r.value.0 == v && Components(r.value.1) == Components(p)
  }

  lemma VersionedHead(p: Bytes, v: Bytes)
    requires SEPARATOR !in v
    ensures Components(SNAPSHOT_PREFIX + v + p) == [SNAPSHOT_ENTRY] + ComponentsFrom(p, v)
  {
    var prefix := [SEPARATOR] + SNAPSHOT_ENTRY;
    var tail := [SEPARATOR] + (v + p);
    assert SNAPSHOT_PREFIX + v + p == prefix + tail;
    PrefixComponent();
    assert ComponentsFrom(tail, []) == ComponentsFrom(v + p, []) by { assert tail[1..] == v + p; }
    hide ComponentsFrom;
    ComponentsSplit(prefix, tail, []);
    ComponentsRun(v, p, []);
    assert [] + v == v;
  }

  lemma PrefixComponent()
    ensures Components([SEPARATOR] + SNAPSHOT_ENTRY) == [SNAPSHOT_ENTRY]
  {
    assert [SEPARATOR] + SNAPSHOT_ENTRY == Print([SNAPSHOT_ENTRY]);
    hide Components;
    ParsePrint([SNAPSHOT_ENTRY]);
  }

  lemma VersionedComponents(p: Bytes, v: Bytes)
    requires Proper(v)
    ensures p == [] || p[0] == SEPARATOR ==>
              Components(SNAPSHOT_PREFIX + v + p) == [SNAPSHOT_ENTRY, v] + Components(p)
    ensures !(p == [] || p[0] == SEPARATOR) ==>
              exists w, rest :: Components(SNAPSHOT_PREFIX + v + p) == [SNAPSHOT_ENTRY, w] + rest && w != v
  {
    VersionedHead(p, v);
    if p == [] || p[0] == SEPARATOR {
      ComponentsSplit([], p, v);
      assert [] + p == p;
      assert ComponentsFrom([], v) == [v];
      hide ComponentsFrom;
    } else {
      FirstRun(p, v);
      hide ComponentsFrom, Components;
      var cs := ComponentsFrom(p, v);
      assert [SNAPSHOT_ENTRY] + cs == [SNAPSHOT_ENTRY, cs[0]] + cs[1..];
    }
  }

  /** A run that goes on yields a longer first component. */
  lemma {:induction false} FirstRun(p: Bytes, cur: Bytes)
    requires cur != [] && p != [] && p[0] != SEPARATOR
    ensures var cs := ComponentsFrom(p, cur); cs != [] && |cs[0]| > |cur|
    decreases |p|
  {
    if |p| > 1 && p[1] != SEPARATOR {
      FirstRun(p[1..], cur + [p[0]]);
    }
  }

  /** if_snapshot inverts make_path_with_version for a snapshot version exactly when the path is absolute or empty. */
  lemma SnapshotPathRoundTrip(p: Bytes, v: Bytes)
    requires Proper(v) && v != CURRENT
    ensures Addresses(IfSnapshot(MakePathWithVersion(p, v)), v, p) <==> p == [] || p[0] == SEPARATOR
  {
    VersionedComponents(p, v);
    var path := MakePathWithVersion(p, v);
    assert |path| > 1;
    PrintParseIdempotent(p);
    if p == [] || p[0] == SEPARATOR {
      assert Components(path)[2..] == Components(p);
    } else {
      var w, rest :| Components(path) == [SNAPSHOT_ENTRY, w] + rest && w != v;
      assert Components(path)[1] == w;
    }
  }

  lemma RootHasNoComponents()
    ensures Components([SEPARATOR]) == []
  {
    var p: Bytes := [SEPARATOR];
    assert p[1..] == [];
    assert ComponentsFrom(p, []) == ComponentsFrom(p[1..], []);
  }

  /** For the current version it does so exactly when the path does not itself start with the snapshot entry. */
  lemma CurrentPathRoundTrip(p: Bytes)
    ensures Addresses(IfSnapshot(MakePathWithVersion(p, CURRENT)), CURRENT, p) <==>
            Components(p) == [] || Components(p)[0] != SNAPSHOT_ENTRY
  {
    var cs := Components(p);
    ComponentsProper(p, []);
    RootHasNoComponents();
    if cs != [] && cs[0] == SNAPSHOT_ENTRY && |cs| > 1 {
      ParsePrint(cs[2..]);
      assert Components(Print(cs[2..])) == cs[2..] && |cs[2..]| != |cs|;
    }
  }

  // ---- The parser and printer as the source runs them ----

  lemma PrintStart(cs: seq<Component>)
    ensures [] + Print(cs[0..]) == Print(cs)
  {
    assert cs[0..] == cs;
  }

  lemma PrintNext(cs: seq<Component>, i: nat, before: Bytes)
    requires i < |cs|
    ensures before + Print(cs[i..]) ==
            (if cs[i] == [] then before else before + ([SEPARATOR] + cs[i])) + Print(cs[i + 1..])
  {
    assert cs[i..][1..] == cs[i + 1..];
    Joins(before, if cs[i] == [] then [] else [SEPARATOR] + cs[i], Print(cs[i + 1..]));
    hide Print;
  }

  lemma Joins(a: Bytes, b: Bytes, c: Bytes)
    ensures a + (b + c) == a + b + c && a + [] == a
  {
  }

  lemma PrintEnd(cs: seq<Component>, before: Bytes)
    ensures before + Print(cs[|cs|..]) == before
  {
    assert cs[|cs|..] == [];
  }

  class PathT {
    var pathname: seq<Component>

    constructor (givenPath: Bytes)
      ensures pathname == [[]] + Components(givenPath)
    {
      pathname := [[]];
      new;
      var cur: Bytes := [];
      for i := 0 to |givenPath|
        invariant pathname + ComponentsFrom(givenPath[i..], cur) == [[]] + Components(givenPath)
      {
        assert givenPath[i..][1..] == givenPath[i + 1..];
        if givenPath[i] == SEPARATOR {
          if cur != [] {
            pathname := pathname + [cur];
            cur := [];
          }
        } else {
          cur := cur + [givenPath[i]];
        }
      }
      if cur != [] {
        pathname := pathname + [cur];
      }
    }

    method ToString() returns (ret: Bytes)
      ensures ret == Print(pathname)
    {
      hide Print;
      ret := [];
      PrintStart(pathname);
      for i := 0 to |pathname|
        invariant ret + Print(pathname[i..]) == Print(pathname)
      {
        PrintNext(pathname, i, ret);
        if pathname[i] != [] {
          ret := ret + ([SEPARATOR] + pathname[i]);
        }
      }
      PrintEnd(pathname, ret);
    }

    /** Removes and returns the last element; the source requires that there is one. */
    method PopEnd() returns (last: Component)
      requires pathname != []
      modifies this
      ensures old(pathname) == pathname + [last]
    {
      last := pathname[|pathname| - 1];
      pathname := pathname[..|pathname| - 1];
    }
  }

  lemma RestOfPath(cs: seq<Component>, pathname: seq<Component>)
    requires AllProper(cs) && pathname == [[]] + cs && |cs| >= 2
    ensures pathname[3..] == cs[2..] && pathname[2] == cs[1]
    ensures forall k :: 3 <= k < |pathname| ==> pathname[k] != []
  {
    forall k | 3 <= k < |pathname|
      ensures pathname[k] != []
    {
      assert pathname[k] == cs[k - 1] && cs[k - 1] in cs;
    }
  }

  /** The loop of if_snapshot over what follows the version. */
  method PrintRest(pathname: seq<Component>, head: nat) returns (output: Bytes)
    requires head <= |pathname| && forall k :: head <= k < |pathname| ==> pathname[k] != []
    ensures output == Print(pathname[head..])
  {
    hide Print;
    output := [];
    for i := head to |pathname|
      invariant output + Print(pathname[i..]) == Print(pathname[head..])
    {
      PrintNext(pathname, i, output);
      output := output + ([SEPARATOR] + pathname[i]);
    }
    PrintEnd(pathname, output);
  }

  method IfSnapshotMethod(path: Bytes) returns (r: Result<(Bytes, Bytes)>)
    ensures r == IfSnapshot(path)
  {
    if path == [SEPARATOR] {
      return Ok((CURRENT, path));
    }
    var vecPath := new PathT(path);
    if |vecPath.pathname| == 1 {
      return Ok((CURRENT, []));
    }
    if vecPath.pathname[1] != SNAPSHOT_ENTRY {
      return Ok((CURRENT, path));
    }
    if |vecPath.pathname| == 2 {
      return Err(InvalidDentryName);
    }
    ghost var cs := Components(path);
    ComponentsProper(path, []);
    RestOfPath(cs, vecPath.pathname);
    var output := PrintRest(vecPath.pathname, 3);
    return Ok((vecPath.pathname[2], output));
  }
}
