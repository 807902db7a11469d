/** The NKV archive header writer and the partial `.npy` header reader of
    src/serial.rs.

    An archive maps string keys to arrays; it is iterated in ascending key
    order, which for strings is the lexicographic order of their UTF-8
    bytes. Its header is the magic `\\x93NUMKV`, the version bytes 2 and 0,
    a little-endian u32 header length, a u32 entry count, one directory
    entry per key (u32 key length, key bytes, u64 data offset, u64 data
    length) and zero padding up to the header length, chosen so that the
    header ends on a multiple of 16. The data of the entries is laid out
    from there, each entry's region rounded up to 16 bytes. */
module NkvFormat {
  import opened Bytes

  /** The UTF-8 bytes of a key. */
  type Key = seq<byte>

  /** `\\x93NUMKV`. */
  const NkvMagic: seq<byte> := [0x93, 0x4E, 0x55, 0x4D, 0x4B, 0x56]

  /** The moduli of the casts to u32 and to u64. */
  const U32Mod: nat := 0x1_0000_0000
  const U64Mod: nat := 0x1_0000_0000_0000_0000

  lemma Moduli()
    ensures Pow256(4) == U32Mod && Pow256(8) == U64Mod
  {
  }

  /** Strict lexicographic order of byte strings, the order of `String`. */
  predicate KeyBelow(a: Key, b: Key)
    decreases |a|
  {
    if a == [] then b != []
    else b != [] && (a[0] < b[0] || (a[0] == b[0] && KeyBelow(a[1..], b[1..])))
  }

  /** No key is below itself. */
  lemma {:induction false} KeyBelowIrreflexive(a: Key)
    ensures !KeyBelow(a, a)
    decreases |a|
  {
    if a != [] {
      KeyBelowIrreflexive(a[1..]);
    }
  }

  /** The entries of a `BTreeMap` in iteration order: strictly ascending
      keys. */
  predicate Ascending<V>(kvs: seq<(Key, V)>)
  {
    forall i, j :: 0 <= i < j < |kvs| ==> KeyBelow(kvs[i].0, kvs[j].0)
  }

  /** Ascending keys are distinct. */
  lemma AscendingDistinct<V>(kvs: seq<(Key, V)>)
    requires Ascending(kvs)
    ensures forall i, j :: 0 <= i < |kvs| && 0 <= j < |kvs| && i != j ==> kvs[i].0 != kvs[j].0
  {
    forall i, j | 0 <= i < |kvs| && 0 <= j < |kvs| && i != j
      ensures kvs[i].0 != kvs[j].0
    {
      if i < j {
        KeyBelowIrreflexive(kvs[i].0);
      } else {
        KeyBelowIrreflexive(kvs[j].0);
      }
    }
  }

  /** Each key with the flat length of its value. */
  function Entries<V>(kvs: seq<(Key, V)>, flatLen: V -> nat): (es: seq<(Key, nat)>)
    ensures |es| == |kvs|
  {
    seq(|kvs|, i requires 0 <= i < |kvs| => (kvs[i].0, flatLen(kvs[i].1)))
  }

  /** The directory's byte count before padding: 4 for the entry count,
      then 20 bytes of lengths and offset per entry besides its key. */
  function Unpadded(es: seq<(Key, nat)>): (u: nat)
    ensures u >= 4
  {
    UnpaddedTo(es, |es|)
  }

  /** The count of the entry count and the first `i` entries. */
  function UnpaddedTo(es: seq<(Key, nat)>, i: nat): (u: nat)
    requires i <= |es|
    ensures u >= 4
  {
    if i == 0 then 4 else UnpaddedTo(es, i - 1) + |es[i - 1].0| + 20
  }

  /** `(x + 16 - 1) / 16 * 16`. */
  function Ceil16(x: nat): nat
  {
    (x + 16 - 1) / 16 * 16
  }

  /** x rounded up to 16 is the least multiple of 16 that is at least x. */
  lemma Ceil16Bounds(x: nat)
    ensures Ceil16(x) % 16 == 0 && x <= Ceil16(x) < x + 16
  {
  }

  /** The header length after the 12 fixed bytes: the directory rounded so
      that the header ends on a multiple of 16, with fewer than 16 bytes of
      padding. */
  function HeaderLen(unpadded: nat): (h: nat)
    ensures unpadded <= h < unpadded + 16
    ensures (12 + h) % 16 == 0
  {
    Ceil16Bounds(12 + unpadded);
    Ceil16(12 + unpadded) - 12
  }

  /** The header length covers the directory with fewer than 16 bytes of
      padding, and the data that follows starts on a multiple of 16. */
  lemma HeaderLenAligned(unpadded: nat)
    ensures (12 + HeaderLen(unpadded)) % 16 == 0
    ensures unpadded <= HeaderLen(unpadded) < unpadded + 16
  {
    Ceil16Bounds(12 + unpadded);
  }

  /** Where entry i's data starts in the archive: after the header, every
      earlier entry's region rounded up to 16 bytes. */
  function DataOffset(es: seq<(Key, nat)>, i: nat): nat
    requires i <= |es|
  {
    OffsetOf(es, 12 + HeaderLen(Unpadded(es)), i)
  }

  /** The bytes the data regions of the first `i` entries take. */
  function Skip(es: seq<(Key, nat)>, i: nat): nat
    requires i <= |es|
  {
    if i == 0 then 0 else Skip(es, i - 1) + Ceil16(es[i - 1].1)
  }

  /** The data offset of entry i when the first starts at `base`. */
  function OffsetOf(es: seq<(Key, nat)>, base: nat, i: nat): nat
    requires i <= |es|
  {
    base + Skip(es, i)
  }

  /** One directory entry. */
  function EntryBytes(key: Key, offset: nat, len: nat): (b: seq<byte>)
    ensures |b| == |key| + 20
  {
    LeBytes(|key|, 4) + key + LeBytes(offset, 8) + LeBytes(len, 8)
  }

  /** Directory entry k, the data starting at `base`. */
  function EntryAt(es: seq<(Key, nat)>, base: nat, k: nat): (b: seq<byte>)
    requires k < |es|
    ensures |b| == |es[k].0| + 20
  {
    EntryBytes(es[k].0, OffsetOf(es, base, k), es[k].1)
  }

  /** Directory entries i .. j-1 in order. */
  function DirRange(es: seq<(Key, nat)>, base: nat, i: nat, j: nat): seq<byte>
    requires i <= j <= |es|
    decreases j - i
  {
    if i == j then [] else DirRange(es, base, i, j - 1) + EntryAt(es, base, j - 1)
  }

  /** The directory entries in order, the data starting at `base`. */
  function Directory(es: seq<(Key, nat)>, base: nat): seq<byte>
  {
    DirRange(es, base, 0, |es|)
  }

  /** The offsets and lengths recorded for the first `n` keys, cast to u64. */
  function KvMap(es: seq<(Key, nat)>, base: nat, n: nat): map<Key, (nat, nat)>
    requires n <= |es|
  {
    if n == 0 then map[]
    else KvMap(es, base, n - 1)[es[n - 1].0 := (OffsetOf(es, base, n - 1) % U64Mod, es[n - 1].1 % U64Mod)]
  }

  datatype NkvHeader = NkvHeader(hlen: nat, kvs: map<Key, (nat, nat)>)

  /** The 16 bytes before the directory: magic, version, header length and
      entry count. The header length counts from the entry count on. */
  function Fields(hlen: nat, count: nat): (b: seq<byte>)
    ensures |b| == 16
  {
    assert |NkvMagic| == 6;
    NkvMagic + [2, 0] + LeBytes(hlen, 4) + LeBytes(count, 4)
  }

  /** A header of length `hlen`: the fields, the directory with the data
      starting right after the header, and `pad` bytes of padding. */
  function Layout(es: seq<(Key, nat)>, hlen: nat, pad: nat): seq<byte>
  {
    Fields(hlen, |es|) + (Directory(es, 12 + hlen) + ZeroBytes(pad))
  }

  /** The bytes `write_nkv_header` emits for the entries `es`. */
  function NkvHeaderBytes(es: seq<(Key, nat)>): seq<byte>
  {
    var u := Unpadded(es);
    var h := HeaderLen(u);
    Layout(es, h, h - u)
  }

  /** The header `write_nkv_header` returns for the entries `es`. */
  function NkvHeaderOf(es: seq<(Key, nat)>): NkvHeader
  {
    var h := HeaderLen(Unpadded(es));
    NkvHeader(h % U32Mod, KvMap(es, 12 + h, |es|))
  }
}

/** `write_nkv_header` and the partial `read_npy_header` of src/serial.rs,
    proved against the layout of NkvFormat. */
module Serial {
  import opened Outcomes
  import opened Bytes
  import opened Text
  import opened NkvFormat
  import Npy

  /** `write_nkv_header`: writes the header of an archive to the writer,
      whose bytes so far are `w`, and returns its length and the offset and
      length of every key's data. `flatLen` gives the byte length of a
      value. */
  method WriteNkvHeader<V>(kvs: seq<(Key, V)>, flatLen: V -> nat, w: seq<byte>)
    returns (out: seq<byte>, hdr: NkvHeader)
    ensures out == w + NkvHeaderBytes(Entries(kvs, flatLen))
    ensures hdr == NkvHeaderOf(Entries(kvs, flatLen))
  {
    ghost var es := Entries(kvs, flatLen);
    out := w + NkvMagic;
    out := out + [2];
    out := out + [0];
    var unpadded := UnpaddedHeaderLen(kvs, flatLen);
    var headerLen := HeaderLen(unpadded);
    out := out + LeBytes(headerLen, 4);
    out := out + LeBytes(|kvs|, 4);
    ghost var fixed := out;
    assert fixed == w + Fields(headerLen, |es|);
    var kvoffsets;
    out, kvoffsets := WriteDirectory(kvs, flatLen, 12 + headerLen, out);
    out := WritePadding(out, headerLen - unpadded);
    assert out == fixed + (Directory(es, 12 + headerLen) + ZeroBytes(headerLen - unpadded));
    AppendAssoc(w, Fields(headerLen, |es|), Directory(es, 12 + headerLen) + ZeroBytes(headerLen - unpadded));
    hdr := NkvHeader(headerLen % U32Mod, kvoffsets);
  }

  /** The first loop of `write_nkv_header`: 4 bytes for the entry count and
      each key's length plus 20. */
  method UnpaddedHeaderLen<V>(kvs: seq<(Key, V)>, flatLen: V -> nat) returns (unpadded: nat)
    ensures unpadded == Unpadded(Entries(kvs, flatLen))
  {
    ghost var es := Entries(kvs, flatLen);
    unpadded := 4;
    var i := 0;
    while i < |kvs|
      invariant 0 <= i <= |kvs|
      invariant unpadded == UnpaddedTo(es, i)
    {
      unpadded := unpadded + |kvs[i].0| + 20;
      i := i + 1;
    }
  }

  /** The second loop of `write_nkv_header`: one directory entry per key,
      the running offset starting at `base` and advancing by each length
      rounded up to 16, and each key's offset and length recorded. */
  method WriteDirectory<V>(kvs: seq<(Key, V)>, flatLen: V -> nat, base: nat, w: seq<byte>)
    returns (out: seq<byte>, kvoffsets: map<Key, (nat, nat)>)
    ensures out == w + Directory(Entries(kvs, flatLen), base)
    ensures kvoffsets == KvMap(Entries(kvs, flatLen), base, |kvs|)
  {
    ghost var es := Entries(kvs, flatLen);
    out := w;
    var offset := base;
    kvoffsets := map[];
    var i := 0;
    while i < |kvs|
      invariant 0 <= i <= |kvs|
      invariant offset == OffsetOf(es, base, i)
      invariant out == w + DirRange(es, base, 0, i)
      invariant kvoffsets == KvMap(es, base, i)
    {
      var key := kvs[i].0;
      var valueLen := flatLen(kvs[i].1);
      assert es[i] == (key, valueLen);
      ghost var before := out;
      out := out + LeBytes(|key|, 4);
      out := out + key;
      out := out + LeBytes(offset, 8);
      out := out + LeBytes(valueLen, 8);
      assert out == before + EntryAt(es, base, i);
      AppendAssoc(w, DirRange(es, base, 0, i), EntryAt(es, base, i));
      kvoffsets := kvoffsets[key := (offset % U64Mod, valueLen % U64Mod)];
      assert OffsetOf(es, base, i + 1) == offset + Ceil16(valueLen);
      assert DirRange(es, base, 0, i + 1) == DirRange(es, base, 0, i) + EntryAt(es, base, i);
      offset := offset + (valueLen + 16 - 1) / 16 * 16;
      i := i + 1;
    }
  }

  /** The last loop of `write_nkv_header`: `n` zero bytes. */
  method WritePadding(w: seq<byte>, n: nat) returns (out: seq<byte>)
    ensures out == w + ZeroBytes(n)
  {
    out := w;
    var k := 0;
    while k < n
      invariant 0 <= k <= n
      invariant out == w + ZeroBytes(k)
    {
      out := out + [0];
      k := k + 1;
    }
  }

  /** Each directory entry takes its key's length plus 20 bytes. */
  lemma DirectoryLength(es: seq<(Key, nat)>, base: nat)
    ensures |Directory(es, base)| + 4 == Unpadded(es)
  {
    DirRangeLength(es, base, |es|);
  }

  /** The first `i` entries take their keys' lengths plus 20 bytes each. */
  lemma {:induction false} DirRangeLength(es: seq<(Key, nat)>, base: nat, i: nat)
    requires i <= |es|
    ensures |DirRange(es, base, 0, i)| + 4 == UnpaddedTo(es, i)
  {
    if i > 0 {
      DirRangeLength(es, base, i - 1);
    }
  }

  /** The header starts with the magic and version 2.0, is 12 bytes before
      the entry count and the header length from there, and so it ends on a
      multiple of 16 exactly where the first entry's data begins. */
  lemma NkvHeaderLength(es: seq<(Key, nat)>)
    ensures |NkvHeaderBytes(es)| == 12 + HeaderLen(Unpadded(es))
    ensures |NkvHeaderBytes(es)| % 16 == 0
    ensures |es| > 0 ==> OffsetOf(es, 12 + HeaderLen(Unpadded(es)), 0) == |NkvHeaderBytes(es)|
    ensures NkvHeaderBytes(es)[..8] == NkvMagic + [2, 0]
  {
    var u := Unpadded(es);
    var h := HeaderLen(u);
    HeaderLenAligned(u);
    DirectoryLength(es, 12 + h);
    LayoutShape(es, h, h - u);
  }

  /** A layout is the 16 fixed bytes, the directory and the padding, and
      starts with the magic and version 2.0. */
  lemma LayoutShape(es: seq<(Key, nat)>, hlen: nat, pad: nat)
    ensures |Layout(es, hlen, pad)| == 16 + |Directory(es, 12 + hlen)| + pad
    ensures Layout(es, hlen, pad)[..8] == NkvMagic + [2, 0]
  {
    assert Layout(es, hlen, pad)[..8] == Fields(hlen, |es|)[..8];
  }

  /** Every entry's data starts on a multiple of 16 in the archive. */
  lemma DataOffsetsAligned(es: seq<(Key, nat)>, i: nat)
    requires i <= |es|
    ensures DataOffset(es, i) % 16 == 0
  {
    HeaderLenAligned(Unpadded(es));
    OffsetsAligned(es, 12 + HeaderLen(Unpadded(es)), i);
  }

  /** An empty archive has a 16-byte header: header length 4, entry count 0,
      no padding and no entries. */
  lemma EmptyArchive()
    ensures NkvHeaderBytes([]) == NkvMagic + [2, 0, 4, 0, 0, 0, 0, 0, 0, 0]
    ensures NkvHeaderOf([]) == NkvHeader(4, map[])
  {
    var es: seq<(Key, nat)> := [];
    assert Unpadded(es) == 4;
    assert HeaderLen(4) == 4 by {
      assert Ceil16(16) == 16;
    }
    assert NkvHeaderBytes(es) == Layout(es, 4, 0);
    assert Directory(es, 16) == [] && ZeroBytes(0) == [];
    assert Layout(es, 4, 0) == Fields(4, 0) + [];
    EmptyFields();
  }

  /** The fields of a header of length 4 with no entries. */
  lemma EmptyFields()
    ensures Fields(4, 0) == NkvMagic + [2, 0, 4, 0, 0, 0, 0, 0, 0, 0]
  {
    var v, h, c: seq<byte> := [2, 0], [4, 0, 0, 0], [0, 0, 0, 0];
    assert LeBytes(4, 4) == h;
    assert LeBytes(0, 4) == c;
    assert v + h + c == [2, 0, 4, 0, 0, 0, 0, 0, 0, 0];
    AppendAssoc(NkvMagic, v, h);
    AppendAssoc(NkvMagic, v + h, c);
  }

  /** Every data offset is a multiple of 16 when the first is. */
  lemma {:induction false} OffsetsAligned(es: seq<(Key, nat)>, base: nat, i: nat)
    requires i <= |es| && base % 16 == 0
    ensures OffsetOf(es, base, i) % 16 == 0
  {
    if i > 0 {
      OffsetsAligned(es, base, i - 1);
      Ceil16Bounds(es[i - 1].1);
    }
  }

  /** Entry i's data region, [offset, offset + length), ends at or before
      the start of every later entry's region: the regions are increasing
      and disjoint. */
  lemma {:induction false} RegionsDisjoint(es: seq<(Key, nat)>, base: nat, i: nat, j: nat)
    requires i < j <= |es|
    ensures OffsetOf(es, base, i) + es[i].1 <= OffsetOf(es, base, j)
    decreases j - i
  {
    if j == i + 1 {
      Ceil16Bounds(es[i].1);
    } else {
      RegionsDisjoint(es, base, i, j - 1);
    }
  }

  /** The returned map holds exactly the archive's keys, each with the
      offset and length written for it in the directory, as u64 values. */
  lemma KvMapEntries(es: seq<(Key, nat)>, base: nat)
    requires forall i, j :: 0 <= i < |es| && 0 <= j < |es| && i != j ==> es[i].0 != es[j].0
    ensures KvMap(es, base, |es|).Keys == set i | 0 <= i < |es| :: es[i].0
    ensures forall i :: 0 <= i < |es| ==>
      KvMap(es, base, |es|)[es[i].0] == (OffsetOf(es, base, i) % U64Mod, es[i].1 % U64Mod)
  {
    KvMapKeys(es, base, |es|);
    forall i | 0 <= i < |es|
      ensures KvMap(es, base, |es|)[es[i].0] == (OffsetOf(es, base, i) % U64Mod, es[i].1 % U64Mod)
    {
      KvMapAt(es, base, i, |es|);
    }
  }

  /** The map of the first `n` entries has their keys. */
  lemma {:induction false} KvMapKeys(es: seq<(Key, nat)>, base: nat, n: nat)
    requires n <= |es|
    ensures KvMap(es, base, n).Keys == set k | 0 <= k < n :: es[k].0
  {
    if n > 0 {
      KvMapKeys(es, base, n - 1);
      var all, front := set k | 0 <= k < n :: es[k].0, set k | 0 <= k < n - 1 :: es[k].0;
      forall x | x in all
        ensures x in front + {es[n - 1].0}
      {
        var k :| 0 <= k < n && es[k].0 == x;
        if k < n - 1 {
          assert x in front;
        }
      }
      assert es[n - 1].0 in all;
      assert all == front + {es[n - 1].0};
    }
  }

  /** With distinct keys, entry i's key maps to entry i's offset and length
      once the first `n` entries, i among them, are recorded. */
  lemma {:induction false} KvMapAt(es: seq<(Key, nat)>, base: nat, i: nat, n: nat)
    requires forall i, j :: 0 <= i < |es| && 0 <= j < |es| && i != j ==> es[i].0 != es[j].0
    requires i < n <= |es|
    ensures es[i].0 in KvMap(es, base, n)
    ensures KvMap(es, base, n)[es[i].0] == (OffsetOf(es, base, i) % U64Mod, es[i].1 % U64Mod)
  {
    if i < n - 1 {
      KvMapAt(es, base, i, n - 1);
      assert es[i].0 != es[n - 1].0;
    }
  }

  /** For an archive, the header the writer returns maps exactly its keys
      to the (offset, length) pairs of the directory. */
  lemma NkvHeaderKeys<V>(kvs: seq<(Key, V)>, flatLen: V -> nat)
    requires Ascending(kvs)
    ensures NkvHeaderOf(Entries(kvs, flatLen)).kvs.Keys == set i | 0 <= i < |kvs| :: kvs[i].0
    ensures forall i :: 0 <= i < |kvs| ==>
      NkvHeaderOf(Entries(kvs, flatLen)).kvs[kvs[i].0] ==
        (DataOffset(Entries(kvs, flatLen), i) % U64Mod, flatLen(kvs[i].1) % U64Mod)
  {
    var es := Entries(kvs, flatLen);
    var base := 12 + HeaderLen(Unpadded(es));
    assert NkvHeaderOf(es).kvs == KvMap(es, base, |es|);
    assert forall i :: 0 <= i < |kvs| ==> es[i].0 == kvs[i].0 && es[i].1 == flatLen(kvs[i].1);
    AscendingDistinct(kvs);
    KvMapKeys(es, base, |es|);
    assert (set i | 0 <= i < |es| :: es[i].0) == (set i | 0 <= i < |kvs| :: kvs[i].0);
    forall i | 0 <= i < |kvs|
      ensures NkvHeaderOf(es).kvs[kvs[i].0] == (DataOffset(es, i) % U64Mod, flatLen(kvs[i].1) % U64Mod)
    {
      KvMapAt(es, base, i, |es|);
    }
  }

  /** A reference reader of the directory: `count` entries, each a u32 key
      length, the key, a u64 offset and a u64 length. */
  function ReadEntries(b: seq<byte>, count: nat): Option<seq<(Key, nat, nat)>>
    decreases count
  {
    if count == 0 then Some([])
    else if |b| < 4 then None
    else
      var k := LeValue(b[..4]);
      if |b| < k + 20 then None
      else match ReadEntries(b[k + 20..], count - 1)
        case None => None
        case Some(rest) =>
          Some([(b[4..4 + k], LeValue(b[4 + k..12 + k]), LeValue(b[12 + k..20 + k]))] + rest)
  }

  /** A reference reader of the whole header: the header length and the
      directory. */
  function ReadNkvHeader(b: seq<byte>): Option<(nat, seq<(Key, nat, nat)>)>
  {
    if |b| < 16 || b[..6] != NkvMagic || b[6] != 2 || b[7] != 0 then None
    else match ReadEntries(b[16..], LeValue(b[12..16]))
      case None => None
      case Some(dir) => Some((LeValue(b[8..12]), dir))
  }

  /** Entries i .. j-1: the first of them, then the others. */
  lemma {:induction false} DirRangeFront(es: seq<(Key, nat)>, base: nat, i: nat, j: nat)
    requires i < j <= |es|
    ensures DirRange(es, base, i, j) == EntryAt(es, base, i) + DirRange(es, base, i + 1, j)
    decreases j - i
  {
    var e, last := EntryAt(es, base, i), EntryAt(es, base, j - 1);
    if j == i + 1 {
      assert DirRange(es, base, i, j) == [] + e;
      assert [] + e == e + [];
    } else {
      var mid := DirRange(es, base, i + 1, j - 1);
      assert DirRange(es, base, i + 1, j) == mid + last;
      assert DirRange(es, base, i, j) == DirRange(es, base, i, j - 1) + last;
      DirRangeFront(es, base, i, j - 1);
      AppendAssoc(e, mid, last);
    }
  }

  /** The directory as a reader sees it: key, offset and length per entry. */
  function Listing(es: seq<(Key, nat)>, base: nat): (l: seq<(Key, nat, nat)>)
    ensures |l| == |es|
  {
    seq(|es|, i requires 0 <= i < |es| => (es[i].0, OffsetOf(es, base, i), es[i].1))
  }

  /** Every key length, offset and length fits its field. */
  predicate Fits(es: seq<(Key, nat)>, base: nat)
  {
    forall i :: 0 <= i < |es| ==> EntryFits(es, base, i)
  }

  /** Entry i's key length fits a u32, its offset and length a u64. */
  predicate EntryFits(es: seq<(Key, nat)>, base: nat, i: nat)
    requires i < |es|
  {
    |es[i].0| < Pow256(4) && OffsetOf(es, base, i) < Pow256(8) && es[i].1 < Pow256(8)
  }

  /** One entry's bytes read back field by field. */
  lemma ReadEntry(key: Key, offset: nat, len: nat, tail: seq<byte>)
    requires |key| < Pow256(4) && offset < Pow256(8) && len < Pow256(8)
    ensures var b := EntryBytes(key, offset, len) + tail; var k := |key|;
      |b| >= k + 20 && LeValue(b[..4]) == k && b[4..4 + k] == key &&
      LeValue(b[4 + k..12 + k]) == offset && LeValue(b[12 + k..20 + k]) == len &&
      b[k + 20..] == tail
  {
    var b := EntryBytes(key, offset, len) + tail;
    var k := |key|;
    assert b[..4] == LeBytes(k, 4);
    LeRoundTrip(k, 4);
    assert b[4..4 + k] == key;
    assert b[4 + k..12 + k] == LeBytes(offset, 8);
    LeRoundTrip(offset, 8);
    assert b[12 + k..20 + k] == LeBytes(len, 8);
    LeRoundTrip(len, 8);
    assert b[k + 20..] == tail;
  }

  /** The entries' bytes read back with their keys, offsets and lengths
      when the fields hold them. */
  lemma ReadDirectory(es: seq<(Key, nat)>, base: nat, rest: seq<byte>)
    requires Fits(es, base)
    ensures ReadEntries(Directory(es, base) + rest, |es|) == Some(Listing(es, base))
  {
    ReadDirectoryFrom(es, base, 0, rest);
    ListingFromIsSuffix(es, base, 0);
    assert Listing(es, base)[0..] == Listing(es, base);
  }

  /** The listing from entry i on, entry by entry. */
  function ListingFrom(es: seq<(Key, nat)>, base: nat, i: nat): seq<(Key, nat, nat)>
    requires i <= |es|
    decreases |es| - i
  {
    if i == |es| then [] else [(es[i].0, OffsetOf(es, base, i), es[i].1)] + ListingFrom(es, base, i + 1)
  }

  /** Built entry by entry, the listing from entry i on is the listing's suffix. */
  lemma {:induction false} ListingFromIsSuffix(es: seq<(Key, nat)>, base: nat, i: nat)
    requires i <= |es|
    ensures ListingFrom(es, base, i) == Listing(es, base)[i..]
    decreases |es| - i
  {
    if i < |es| {
      ListingFromIsSuffix(es, base, i + 1);
      var l := Listing(es, base);
      assert l[i..] == [l[i]] + l[i + 1..];
    }
  }

  /** Entries i .. |es|-1 read back as the listing from entry i on. */
  lemma {:induction false} ReadDirectoryFrom(es: seq<(Key, nat)>, base: nat, i: nat, rest: seq<byte>)
    requires i <= |es| && Fits(es, base)
    ensures ReadEntries(DirRange(es, base, i, |es|) + rest, |es| - i) == Some(ListingFrom(es, base, i))
    decreases |es| - i, 1
  {
    if i < |es| {
      ReadDirectoryNext(es, base, i, rest);
    } else {
      assert DirRange(es, base, i, |es|) + rest == rest;
    }
  }

  /** Entry i read in front of the entries after it, which read back by
      induction. */
  lemma {:induction false} ReadDirectoryNext(es: seq<(Key, nat)>, base: nat, i: nat, rest: seq<byte>)
    requires i < |es| && Fits(es, base)
    ensures ReadEntries(DirRange(es, base, i, |es|) + rest, |es| - i) == Some(ListingFrom(es, base, i))
    decreases |es| - i, 0
  {
    ReadDirectoryFrom(es, base, i + 1, rest);
    ReadDirectoryStep(es, base, i, rest, ListingFrom(es, base, i + 1));
  }

  /** Entry i read back in front of the entries after it. */
  lemma ReadDirectoryStep(es: seq<(Key, nat)>, base: nat, i: nat, rest: seq<byte>, after: seq<(Key, nat, nat)>)
    requires i < |es| && EntryFits(es, base, i)
    requires ReadEntries(DirRange(es, base, i + 1, |es|) + rest, |es| - (i + 1)) == Some(after)
    ensures ReadEntries(DirRange(es, base, i, |es|) + rest, |es| - i) ==
      Some([(es[i].0, OffsetOf(es, base, i), es[i].1)] + after)
  {
    var n := |es|;
    var e := EntryAt(es, base, i);
    var tail := DirRange(es, base, i + 1, n) + rest;
    DirRangeFront(es, base, i, n);
    AppendAssoc(e, DirRange(es, base, i + 1, n), rest);
    ReadEntriesCons(es[i].0, OffsetOf(es, base, i), es[i].1, tail, n - i, after);
  }

  /** An entry's bytes in front of `count - 1` readable entries make
      `count` readable entries. */
  lemma ReadEntriesCons(key: Key, offset: nat, len: nat, tail: seq<byte>, count: nat,
                        entries: seq<(Key, nat, nat)>)
    requires |key| < Pow256(4) && offset < Pow256(8) && len < Pow256(8)
    requires count > 0 && ReadEntries(tail, count - 1) == Some(entries)
    ensures ReadEntries(EntryBytes(key, offset, len) + tail, count) == Some([(key, offset, len)] + entries)
  {
    ReadEntry(key, offset, len, tail);
  }

  /** The reference reader gives back the header length and every entry's
      key, offset and length, when the counts fit u32 and the offsets fit
      u64: the writer's bytes are a faithful directory. */
  lemma NkvHeaderRoundTrip(es: seq<(Key, nat)>, data: seq<byte>)
    requires |es| < Pow256(4) && HeaderLen(Unpadded(es)) < Pow256(4)
    requires Fits(es, 12 + HeaderLen(Unpadded(es)))
    ensures ReadNkvHeader(NkvHeaderBytes(es) + data) ==
      Some((HeaderLen(Unpadded(es)), Listing(es, 12 + HeaderLen(Unpadded(es)))))
  {
    LayoutRoundTrip(es, data, HeaderLen(Unpadded(es)), HeaderLen(Unpadded(es)) - Unpadded(es));
  }

  /** Any layout whose fields hold their values reads back as its header
      length and its directory, whatever the padding and the data after it. */
  lemma LayoutRoundTrip(es: seq<(Key, nat)>, data: seq<byte>, hlen: nat, pad: nat)
    requires |es| < Pow256(4) && hlen < Pow256(4)
    requires Fits(es, 12 + hlen)
    ensures ReadNkvHeader(Layout(es, hlen, pad) + data) == Some((hlen, Listing(es, 12 + hlen)))
  {
    var dir := Directory(es, 12 + hlen);
    ReadDirectory(es, 12 + hlen, ZeroBytes(pad) + data);
    Regroup(Fields(hlen, |es|), dir, ZeroBytes(pad), data);
    ReadHeaderFrom(hlen, |es|, dir + (ZeroBytes(pad) + data), Listing(es, 12 + hlen));
  }

  /** The 16 bytes before the directory, then `count` readable entries. */
  lemma ReadHeaderFrom(hlen: nat, count: nat, body: seq<byte>, entries: seq<(Key, nat, nat)>)
    requires hlen < Pow256(4) && count < Pow256(4)
    requires ReadEntries(body, count) == Some(entries)
    ensures ReadNkvHeader(Fields(hlen, count) + body) == Some((hlen, entries))
  {
    ReadFields(hlen, count, body);
  }

  /** Concatenation regrouped to the right. */
  lemma Regroup(a: seq<byte>, b: seq<byte>, c: seq<byte>, d: seq<byte>)
    ensures (a + (b + c)) + d == a + (b + (c + d))
  {
  }

  /** The 16 bytes before the directory read back field by field. */
  lemma ReadFields(hlen: nat, count: nat, body: seq<byte>)
    requires hlen < Pow256(4) && count < Pow256(4)
    ensures var b := Fields(hlen, count) + body;
      |b| >= 16 && b[..6] == NkvMagic && b[6] == 2 && b[7] == 0 &&
      LeValue(b[8..12]) == hlen && LeValue(b[12..16]) == count && b[16..] == body
  {
    var b := Fields(hlen, count) + body;
    assert b[8..12] == LeBytes(hlen, 4);
    LeRoundTrip(hlen, 4);
    assert b[12..16] == LeBytes(count, 4);
    LeRoundTrip(count, 4);
  }

  /** The header `read_npy_header` of this file would return; it is never
      built, since the reader ends in `unimplemented!`. */
  datatype NpyHeader = NpyHeader(dtypeDesc: (Npy.NpyEndianness, Npy.NpyDtype), colMajor: bool,
                                 cShape: seq<nat>, dataOffset: nat)

  /** What the `read_npy_header` of this file makes of a stream: `Err` for a
      wrong magic or version, and otherwise an abort, whether at a short
      read, at the 16-byte alignment check, at the token checks or at the
      final `unimplemented!`. */
  function PrefixHeaderOf(input: seq<byte>): (r: Outcome<NpyHeader>)
    ensures !r.Ok?
    ensures r == Err <==>
      (|input| >= 6 && input[..6] != Npy.NpyMagic) ||
      (|input| >= 8 && input[..6] == Npy.NpyMagic && (input[6] != 1 || input[7] != 0))
  {
    if |input| < 6 then Abort
    else if input[..6] != Npy.NpyMagic then Err
    else if |input| < 8 then Abort
    else if input[6] != 1 || input[7] != 0 then Err
    else Abort
  }

  /** The two header readers agree on which streams are format errors. */
  lemma ReadersAgreeOnErr(input: seq<byte>)
    ensures PrefixHeaderOf(input) == Err <==> Npy.HeaderOf(input) == Err
  {
  }

  /** `read_npy_header` of src/serial.rs, step by step over the stream. */
  method ReadNpyHeaderPrefix(input: seq<byte>) returns (res: Outcome<NpyHeader>)
    ensures res == PrefixHeaderOf(input)
  {
    var pos := 0;
    var magicnum := ZeroedVec(6);
    var read := ReadExact(input, pos, |magicnum|);
    if read.None? {
      return Abort;
    }
    magicnum, pos := read.value, pos + |magicnum|;
    if magicnum != Npy.NpyMagic {
      return Err;
    }
    var major := ReadExact(input, pos, 1);
    if major.None? {
      return Abort;
    }
    pos := pos + 1;
    var minor := ReadExact(input, pos, 1);
    if minor.None? {
      return Abort;
    }
    pos := pos + 1;
    if major.value[0] != 1 || minor.value[0] != 0 {
      return Err;
    }
    var lenBytes := ReadExact(input, pos, 2);
    if lenBytes.None? {
      return Abort;
    }
    pos := pos + 2;
    var headerLen := LeValue(lenBytes.value);
    var header := ZeroedVec(headerLen);
    read := ReadExact(input, pos, |header|);
    if read.None? {
      return Abort;
    }
    header, pos := read.value, pos + |header|;
    if (10 + headerLen) % 16 != 0 {
      return Abort;
    }
    var text := Utf8Decode(header);
    if text.None? {
      return Abort;
    }
    var toks := SplitWhitespace(text.value);
    if |toks| < 5 || toks[0] != "{'descr':" || toks[2] != "'fortran_order':" || toks[4] != "'shape':" {
      return Abort;
    }
    return Abort;
  }
}
