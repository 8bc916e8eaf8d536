// The packed directory format: an 8-byte little-endian count, then one 136-byte record per entry.
module Directories {
  import opened ByteStrings

  datatype Dentry = Dentry(name: Bytes, id: nat)

  const NAME_FIELD: nat := 128
  const RECORD: nat := 136
  const U64: nat := 0x1_0000_0000_0000_0000

  // ---- Integers ----

  function Le(n: nat, width: nat): (r: Bytes)
    ensures |r| == width
  {
    if width == 0 then [] else [(n % 256) as char] + Le(n / 256, width - 1)
  }

  function FromLe(b: Bytes): nat {
    if b == [] then 0 else b[0] as int + 256 * FromLe(b[1..])
  }

  function Pow256(width: nat): (p: nat)
    ensures p > 0
  {
    if width == 0 then 1 else 256 * Pow256(width - 1)
  }

  lemma {:induction false} LeRoundTrip(n: nat, width: nat)
    requires n < Pow256(width)
    ensures FromLe(Le(n, width)) == n
  {
    if width > 0 {
      LeRoundTrip(n / 256, width - 1);
      assert Le(n, width)[1..] == Le(n / 256, width - 1);
    }
  }

  lemma U64Bytes()
    ensures Pow256(8) == U64
  {
    assert Pow256(2) == 0x1_0000;
    assert Pow256(4) == 0x1_0000_0000;
    assert Pow256(6) == 0x1_0000_0000_0000;
  }

  // ---- Records ----

  /** A name of 128 bytes or more fills its field without a terminating NUL, and a longer one is cut. */
  function EncodeEntry(e: Dentry): (r: Bytes)
    ensures |r| == RECORD
  {
    Resize(e.name, NAME_FIELD) + Le(e.id, 8)
  }

  function EncodeAll(es: seq<Dentry>): (r: Bytes)
    ensures |r| == RECORD * |es|
  {
    if es == [] then [] else EncodeEntry(es[0]) + EncodeAll(es[1..])
  }

  function Encode(es: seq<Dentry>): (r: Bytes)
    ensures |r| == 8 + RECORD * |es|
  {
    Le(|es|, 8) + EncodeAll(es)
  }

  /** strlen(): the number of bytes before the first NUL. */
  function CStringLength(b: Bytes): (n: nat)
    ensures n <= |b|
    ensures forall k :: 0 <= k < n ==> b[k] != '\0'
    ensures n < |b| ==> b[n] == '\0'
  {
    if b == [] || b[0] == '\0' then 0 else 1 + CStringLength(b[1..])
  }

  /** The copy of the name stops at the first NUL of the record and must fit a buffer of 129 bytes with its NUL. */
  function DecodeEntry(record: Bytes): Option<Dentry>
    requires |record| == RECORD
  {
    var n := CStringLength(record);
    if n > NAME_FIELD then None else Some(Dentry(record[..n], FromLe(record[NAME_FIELD..])))
  }

  function DecodeAll(b: Bytes, count: nat): Option<seq<Dentry>>
    decreases count
  {
    if count == 0 then Some([])
    else if |b| < RECORD then None
    else
      match DecodeEntry(b[..RECORD])
      case None => None
      case Some(e) =>
        match DecodeAll(b[RECORD..], count - 1)
        case None => None
        case Some(rest) => Some([e] + rest)
  }

  /** None stands for bytes whose reading is undefined in the source. */
  function Decode(b: Bytes): Option<seq<Dentry>> {
    if b == [] then Some([])
    else if |b| < 8 then None
    else DecodeAll(b[8..], FromLe(b[..8]))
  }

  // ---- Round trip ----

  /** The names that survive storage. */
  predicate Storable(e: Dentry) {
    && '\0' !in e.name
    && (|e.name| < NAME_FIELD || (|e.name| == NAME_FIELD && e.id % 256 == 0))
  }

  lemma CStringIs(b: Bytes, n: nat)
    requires n <= |b| && (forall k :: 0 <= k < n ==> b[k] != '\0') && (n < |b| ==> b[n] == '\0')
    ensures CStringLength(b) == n
  {
  }

  lemma EntryRoundTrip(e: Dentry)
    requires e.id < U64
    ensures DecodeEntry(EncodeEntry(e)) == Some(e) <==> Storable(e)
  {
    var r := EncodeEntry(e);
    var field, number := Resize(e.name, NAME_FIELD), Le(e.id, 8);
    assert r[..NAME_FIELD] == field && r[NAME_FIELD..] == number;
    U64Bytes();
    LeRoundTrip(e.id, 8);
    assert number[0] as int == e.id % 256;
    assert r[NAME_FIELD] == number[0];
    if Storable(e) {
      StorableLength(e);
      assert r[..|e.name|] == e.name;
    }
    if DecodeEntry(r) == Some(e) { SurvivorStorable(e); }
  }

  lemma SurvivorStorable(e: Dentry)
    requires DecodeEntry(EncodeEntry(e)) == Some(e)
    ensures Storable(e)
  {
    var r := EncodeEntry(e);
    var n := CStringLength(r);
    assert e.name == r[..n];
    forall k | 0 <= k < |e.name|
      ensures e.name[k] != '\0'
    {
      assert e.name[k] == r[k];
    }
    if n == NAME_FIELD {
      assert r[n] == Le(e.id, 8)[0];
    }
  }

  lemma StorableLength(e: Dentry)
    requires Storable(e)
    ensures CStringLength(EncodeEntry(e)) == |e.name|
  {
    var r := EncodeEntry(e);
    var n := |e.name|;
    assert forall k :: 0 <= k < n ==> r[k] == e.name[k];
    if n < NAME_FIELD {
      assert r[n] == Zeros(NAME_FIELD - n)[0];
    } else {
      assert r[n] == Le(e.id, 8)[0];
    }
    CStringIs(r, n);
  }

  lemma {:induction false} AllRoundTrip(es: seq<Dentry>)
    requires forall e :: e in es ==> e.id < U64
    ensures DecodeAll(EncodeAll(es), |es|) == Some(es) <==> forall e :: e in es ==> Storable(e)
  {
    if es != [] {
      var b := EncodeAll(es);
      var rest := es[1..];
      assert b[..RECORD] == EncodeEntry(es[0]) && b[RECORD..] == EncodeAll(rest);
      EntryRoundTrip(es[0]);
      AllRoundTrip(rest);
      var head, tail := DecodeEntry(b[..RECORD]), DecodeAll(b[RECORD..], |rest|);
      assert es == [es[0]] + rest;
      if head.Some? && tail.Some? {
        assert [head.value] + tail.value == es <==> head.value == es[0] && tail.value == rest by {
          if [head.value] + tail.value == es {
            assert ([head.value] + tail.value)[0] == head.value && ([head.value] + tail.value)[1..] == tail.value;
          }
        }
      }
      assert forall e :: e in es <==> e == es[0] || e in rest;
    }
  }

  /** Saving a directory and reading it back gives the same list exactly when every name is storable. */
  lemma DirectoryRoundTrip(es: seq<Dentry>)
    requires |es| < U64 && forall e :: e in es ==> e.id < U64
    ensures Decode(Encode(es)) == Some(es) <==> forall e :: e in es ==> Storable(e)
  {
    var b := Encode(es);
    assert b[..8] == Le(|es|, 8) && b[8..] == EncodeAll(es);
    U64Bytes();
    LeRoundTrip(|es|, 8);
    AllRoundTrip(es);
  }

  /** A name that does not survive: 128 bytes in front of an id whose low byte is not zero. */
  lemma LongNameLost()
    ensures var name := seq(NAME_FIELD, _ => 'a'); Decode(Encode([Dentry(name, 1)])) != Some([Dentry(name, 1)])
  {
    hide Encode, Decode;
    var name := seq(NAME_FIELD, _ => 'a');
    var e := Dentry(name, 1);
    DirectoryRoundTrip([e]);
    assert e in [e] && !Storable(e);
  }

  /** The size of a stored directory, and the names that come back from it, in numbers. */
  lemma StoredExactly(es: seq<Dentry>)
    requires |es| < 0x1_0000_0000_0000_0000 && forall e :: e in es ==> e.id < 0x1_0000_0000_0000_0000
    ensures |Encode(es)| == 8 + 136 * |es|
    ensures Decode(Encode(es)) == Some(es) <==>
              forall e :: e in es ==> '\0' !in e.name && (|e.name| <= 127 || (|e.name| == 128 && e.id % 256 == 0))
  {
    hide Encode, Decode;
    DirectoryRoundTrip(es);
    assert forall e :: e in es ==>
           (Storable(e) <==> '\0' !in e.name && (|e.name| <= 127 || (|e.name| == 128 && e.id % 256 == 0)));
  }

  /** Byte `j` of a number, the lowest first. */
  function ByteOf(n: nat, j: nat): nat {
    if j == 0 then n % 256 else ByteOf(n / 256, j - 1)
  }

  lemma {:induction false} LeByte(n: nat, width: nat, j: nat)
    requires j < width
    ensures Le(n, width)[j] as int == ByteOf(n, j)
    decreases j
  {
    if j > 0 { LeByte(n / 256, width - 1, j - 1); }
  }

  lemma {:induction false} EncodeAllAt(es: seq<Dentry>, k: nat)
    requires k < |es|
    ensures 136 * k + 136 <= |EncodeAll(es)| && EncodeAll(es)[136 * k..136 * k + 136] == EncodeEntry(es[k])
    decreases k
  {
    var b := EncodeAll(es);
    if k == 0 {
      assert b[..136] == EncodeEntry(es[0]);
    } else {
      EncodeAllAt(es[1..], k - 1);
      assert b[136..] == EncodeAll(es[1..]);
      assert b[136 * k..136 * k + 136] == b[136..][136 * (k - 1)..136 * (k - 1) + 136];
    }
  }

  /** Where things are: the count in 8 bytes, then per entry 128 bytes of name, padded with NULs, and 8 bytes of id. */
  lemma LayoutExactly(es: seq<Dentry>, k: nat, j: nat)
    requires k < |es|
    ensures var b, e, at := Encode(es), es[k], 8 + 136 * k;
            && at + 136 <= |b|
            && (j < 8 ==> b[j] as int == ByteOf(|es|, j))
            && (j < 128 ==> b[at + j] == if j < |e.name| then e.name[j] else '\0')
            && (j < 8 ==> b[at + 128 + j] as int == ByteOf(e.id, j))
  {
    var b, e, at := Encode(es), es[k], 8 + 136 * k;
    EncodeAllAt(es, k);
    assert b[8..] == EncodeAll(es);
    assert b[at..at + 136] == EncodeEntry(e);
    if j < 8 {
      LeByte(|es|, 8, j);
      LeByte(e.id, 8, j);
      assert b[at + 128 + j] == EncodeEntry(e)[128 + j];
    }
    if j < 128 { assert b[at + j] == EncodeEntry(e)[j]; }
  }

  lemma LongEntry(e: Dentry)
    requires |e.name| >= NAME_FIELD && '\0' !in e.name
    ensures var d := DecodeEntry(EncodeEntry(e)); d.Some? ==> |d.value.name| == NAME_FIELD
  {
    var r := EncodeEntry(e);
    forall k | 0 <= k < NAME_FIELD
      ensures r[k] != '\0'
    {
      assert r[k] == e.name[k];
    }
    assert CStringLength(r) >= NAME_FIELD;
  }

  lemma {:induction false} LongNameDecoded(es: seq<Dentry>, e: Dentry)
    requires |e.name| >= NAME_FIELD && '\0' !in e.name
    ensures var d := DecodeAll(EncodeAll(es + [e]), |es| + 1);
            d.Some? ==> |d.value| == |es| + 1 && |d.value[|es|].name| == NAME_FIELD
  {
    hide EncodeEntry, DecodeEntry;
    var all := es + [e];
    var b := EncodeAll(all);
    assert b[..RECORD] == EncodeEntry(all[0]) && b[RECORD..] == EncodeAll(all[1..]);
    if es == [] {
      LongEntry(e);
      assert DecodeAll(b[RECORD..], 0) == Some([]);
    } else {
      assert all[1..] == es[1..] + [e];
      LongNameDecoded(es[1..], e);
    }
  }

  /** A directory with a name of 128 bytes or more cannot be read back, or shows a name that fills its field. */
  lemma LongNameShows(es: seq<Dentry>, e: Dentry)
    requires |es| + 1 < U64 && |e.name| >= NAME_FIELD && '\0' !in e.name
    ensures var d := Decode(Encode(es + [e])); d.Some? ==> exists x :: x in d.value && |x.name| == NAME_FIELD
  {
    var b := Encode(es + [e]);
    assert b[..8] == Le(|es| + 1, 8) && b[8..] == EncodeAll(es + [e]);
    U64Bytes();
    LeRoundTrip(|es| + 1, 8);
    LongNameDecoded(es, e);
    if Decode(b).Some? { assert Decode(b).value[|es|] in Decode(b).value; }
  }

  // ---- The entry list ----

  /** namei(): the id of the first entry with this name. */
  function Find(es: seq<Dentry>, name: Bytes): (r: Option<nat>)
    ensures r.None? <==> forall e :: e in es ==> e.name != name
    ensures r.Some? ==> exists e :: e in es && e.name == name && e.id == r.value
  {
    if es == [] then None else if es[0].name == name then Some(es[0].id) else Find(es[1..], name)
  }

  /** remove_path(): the list without the first entry of this name. */
  function RemoveName(es: seq<Dentry>, name: Bytes): seq<Dentry> {
    if es == [] then [] else if es[0].name == name then es[1..] else [es[0]] + RemoveName(es[1..], name)
  }
}
