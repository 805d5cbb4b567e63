/** The buffer that answers FUSE_READDIR: a run of struct fuse_dirent records, each padded to eight bytes. */
module DirList {
  import opened Common
  import opened ByteOrder

  datatype Dirent = Dirent(name: Bytes, ino: UInt64, dtype: UInt32, off: Int64)

  /** The length of the name fits the field of struct fuse_dirent. */
  predicate Fits(e: Dirent) {
    |e.name| < TWO_32
  }

  predicate AllFit(es: seq<Dirent>) {
    forall i :: 0 <= i < |es| ==> Fits(es[i])
  }

  const NAME_OFFSET: nat := 24

  /** FUSE_DIRENT_ALIGN. */
  function Align(x: nat): (r: nat)
    ensures r % 8 == 0 && x <= r < x + 8
  {
    (x + 7) / 8 * 8
  }

  /** The macro's mask clears what division by eight would drop. */
  lemma AlignMask(x: bv64)
    ensures ((x + 7) & 0xFFFF_FFFF_FFFF_FFF8) == (x + 7) / 8 * 8
  {
  }

  function Zeros(n: nat): (s: Bytes)
    ensures |s| == n && forall i :: 0 <= i < n ==> s[i] == 0
  {
    seq(n, i => 0)
  }

  function FullSize(e: Dirent): nat {
    Align(NAME_OFFSET + |e.name|)
  }

  /** The fixed part of a record; of the length of the name the lower 32 bits are stored. */
  function Fields(e: Dirent): (s: Bytes)
    ensures |s| == NAME_OFFSET
  {
    LittleEndian(e.ino, 8) + LittleEndian(Unsigned(e.off), 8) + LittleEndian(|e.name|, 4) + LittleEndian(e.dtype, 4)
  }

  function Encode(e: Dirent): (s: Bytes)
    ensures |s| == FullSize(e)
  {
    Fields(e) + e.name + Zeros(FullSize(e) - NAME_OFFSET - |e.name|)
  }

  function EncodeAll(es: seq<Dirent>): Bytes {
    if es == [] then [] else Encode(es[0]) + EncodeAll(es[1..])
  }

  // ---------------------------------------------------------------- reading

  function ReadUInt64(s: Bytes): UInt64
    requires |s| == 8
  {
    LittleEndianBound(s);
    Widths();
    FromLittleEndian(s)
  }

  function ReadUInt32(s: Bytes): UInt32
    requires |s| == 4
  {
    LittleEndianBound(s);
    Widths();
    FromLittleEndian(s)
  }

  /** The record at the start of s, as extract() reads it; None if that would go beyond the end of s. */
  function Decode(s: Bytes): (r: Option<Dirent>)
    ensures r.Some? ==> Fits(r.value) && NAME_OFFSET + |r.value.name| <= |s|
  {
    if |s| < NAME_OFFSET then None
    else
      var namelen := ReadUInt32(s[16..20]);
      if NAME_OFFSET + namelen > |s| then None
      else Some(Dirent(s[NAME_OFFSET..NAME_OFFSET + namelen], ReadUInt64(s[0..8]), ReadUInt32(s[20..24]), Signed(ReadUInt64(s[8..16]))))
  }

  /** All records up to the end of s; None if a step does not end there exactly. */
  function DecodeAll(s: Bytes): Option<seq<Dirent>>
    decreases |s|
  {
    if s == [] then Some([])
    else
      match Decode(s)
      case None => None
      case Some(e) => if FullSize(e) > |s| then None else Before(e, DecodeAll(s[FullSize(e)..]))
  }

  function Before(e: Dirent, r: Option<seq<Dirent>>): Option<seq<Dirent>> {
    match r
    case None => None
    case Some(es) => Some([e] + es)
  }

  lemma ReadBack64(n: UInt64)
    ensures ReadUInt64(LittleEndian(n, 8)) == n
  {
    hide LittleEndian, FromLittleEndian, Pow256;
    Widths();
    LittleEndianInverts(n, 8);
  }

  lemma ReadBack32(n: nat)
    ensures ReadUInt32(LittleEndian(n, 4)) == n <==> n < TWO_32
  {
    hide LittleEndian, FromLittleEndian, Pow256;
    Widths();
    if n < TWO_32 {
      LittleEndianInverts(n, 4);
    }
  }

  lemma FieldSlices(a: Bytes, b: Bytes, c: Bytes, d: Bytes)
    requires |a| == 8 && |b| == 8 && |c| == 4 && |d| == 4
    ensures var s := a + b + c + d; s[0..8] == a && s[8..16] == b && s[16..20] == c && s[20..24] == d
  {
  }

  lemma FieldsInvert(e: Dirent)
    ensures var s := Fields(e);
            && ReadUInt64(s[0..8]) == e.ino && ReadUInt64(s[8..16]) == Unsigned(e.off) && ReadUInt32(s[20..24]) == e.dtype
            && (ReadUInt32(s[16..20]) == |e.name| <==> Fits(e))
  {
    hide LittleEndian, ReadUInt64, ReadUInt32, Unsigned;
    FieldSlices(LittleEndian(e.ino, 8), LittleEndian(Unsigned(e.off), 8), LittleEndian(|e.name|, 4), LittleEndian(e.dtype, 4));
    ReadBack64(e.ino);
    ReadBack64(Unsigned(e.off));
    ReadBack32(|e.name|);
    ReadBack32(e.dtype);
  }

  /**
   The bytes of a record: inode number, offset and length of the name and type in the byte order of the machine, the name
   from byte 24 on, and zeros up to a multiple of eight, which are less than eight.
   */
  lemma Layout(e: Dirent)
    ensures var s := Encode(e);
            && |s| % 8 == 0 && 24 + |e.name| <= |s| < 32 + |e.name|
            && s[0..8] == LittleEndian(e.ino, 8) && s[8..16] == LittleEndian(Unsigned(e.off), 8)
            && s[16..20] == LittleEndian(|e.name|, 4) && s[20..24] == LittleEndian(e.dtype, 4)
            && s[24..24 + |e.name|] == e.name && (forall i :: 24 + |e.name| <= i < |s| ==> s[i] == 0)
  {
    hide LittleEndian, Unsigned;
    FieldSlices(LittleEndian(e.ino, 8), LittleEndian(Unsigned(e.off), 8), LittleEndian(|e.name|, 4), LittleEndian(e.dtype, 4));
    var s, f := Encode(e), Fields(e);
    hide Fields;
    assert s[0..8] == f[0..8] && s[8..16] == f[8..16] && s[16..20] == f[16..20] && s[20..24] == f[20..24];
  }

  /** A record is read back with every field intact, whatever follows it, exactly if the length of its name fits. */
  lemma DecodeInvertsEncode(e: Dirent, rest: Bytes)
    ensures Decode(Encode(e) + rest) == Some(e) <==> Fits(e)
  {
    FieldsInvert(e);
    hide Fields, ReadUInt64, ReadUInt32, Zeros;
    var s, f := Encode(e) + rest, Fields(e);
    assert s[0..8] == f[0..8] && s[8..16] == f[8..16] && s[16..20] == f[16..20] && s[20..24] == f[20..24];
    assert s[NAME_OFFSET..NAME_OFFSET + |e.name|] == e.name;
  }

  /** Reading the records gives back the entries exactly if the length of every name fits. */
  lemma {:induction false} DecodeInvertsEncodeAll(es: seq<Dirent>)
    ensures DecodeAll(EncodeAll(es)) == Some(es) <==> AllFit(es)
  {
    hide Encode, Decode, Fits;
    if es == [] {
    } else {
      var rest := EncodeAll(es[1..]);
      var s := Encode(es[0]) + rest;
      DecodeInvertsEncodeAll(es[1..]);
      DecodeInvertsEncode(es[0], rest);
      assert s != [] && s[FullSize(es[0])..] == rest;
      assert es == [es[0]] + es[1..];
      FirstOrNot(s, es[0]);
      FirstOfBefore(es[0], DecodeAll(rest), es);
    }
  }

  lemma FirstOrNot(s: Bytes, e: Dirent)
    requires s != [] && FullSize(e) <= |s|
    ensures Decode(s) == Some(e) ==> DecodeAll(s) == Before(e, DecodeAll(s[FullSize(e)..]))
    ensures Decode(s) != Some(e) ==> DecodeAll(s).None? || (DecodeAll(s).value != [] && DecodeAll(s).value[0] != e)
  {
    hide Decode, FullSize;
  }

  lemma FirstOfBefore(e: Dirent, r: Option<seq<Dirent>>, es: seq<Dirent>)
    requires es != [] && es[0] == e
    ensures Before(e, r) == Some(es) <==> r == Some(es[1..])
  {
    if r.Some? {
      assert ([e] + r.value)[1..] == r.value;
      assert es == [e] + es[1..];
    }
  }

  lemma {:induction false} EncodeAllSnoc(es: seq<Dirent>, e: Dirent)
    ensures EncodeAll(es + [e]) == EncodeAll(es) + Encode(e)
  {
    hide Encode;
    if es == [] {
      assert es + [e] == [e] && [e][1..] == [];
      assert Encode(e) + [] == Encode(e) && [] + Encode(e) == Encode(e);
    } else {
      assert (es + [e])[0] == es[0] && (es + [e])[1..] == es[1..] + [e];
      EncodeAllSnoc(es[1..], e);
      assert Encode(es[0]) + (EncodeAll(es[1..]) + Encode(e)) == Encode(es[0]) + EncodeAll(es[1..]) + Encode(e);
    }
  }

  class List {
    const buf: array<Byte>
    var cur: nat
    ghost var entries: seq<Dirent>

    /** The bytes in use are the accepted entries, one record after the other. */
    ghost predicate Valid()
      reads this, buf
    {
      cur <= buf.Length && cur % 8 == 0 && buf[..cur] == EncodeAll(entries)
    }

    constructor (maxSize: nat)
      ensures Valid() && entries == [] && cur == 0 && buf.Length == maxSize && fresh(buf)
    {
      buf := new Byte[maxSize];
      cur, entries := 0, [];
    }

    method Put(at: nat, bytes: Bytes)
      requires at + |bytes| <= buf.Length
      modifies buf
      ensures buf[..at + |bytes|] == old(buf[..at]) + bytes
    {
      for i := 0 to |bytes|
        invariant buf[..at + i] == old(buf[..at]) + bytes[..i]
      {
        buf[at + i] := bytes[i];
      }
    }

    /** Appends a record, or changes nothing if it does not fit into the buffer. */
    method Add(e: Dirent) returns (ok: bool)
      requires Valid()
      modifies this, buf
      ensures Valid()
      ensures ok <==> FullSize(e) <= buf.Length - old(cur)
      ensures entries == if ok then old(entries) + [e] else old(entries)
      ensures cur == if ok then old(cur) + FullSize(e) else old(cur)
    {
      hide Fields, Zeros, Align, EncodeAll, Encode;
      var avail := buf.Length - cur;
      var entLength := NAME_OFFSET + |e.name|;
      var fullSize := Align(entLength);
      if fullSize > avail {
        return false;
      }
      Put(cur, Fields(e));
      Put(cur + NAME_OFFSET, e.name);
      if fullSize > entLength {
        Put(cur + entLength, Zeros(fullSize - entLength));
      }
      Appended(entries, e, buf[..cur + fullSize]);
      cur := cur + fullSize;
      entries := entries + [e];
      return true;
    }

    /** Walks the records up to the end of the used part; None where the pointer would leave it. */
    method Extract() returns (result: Option<seq<Dirent>>)
      requires Valid()
      ensures result == DecodeAll(buf[..cur])
      ensures result == Some(entries) <==> AllFit(entries)
    {
      DecodeInvertsEncodeAll(entries);
      hide Decode, DecodeAll, FullSize, EncodeAll, AllFit;
      var found: seq<Dirent> := [];
      var p := 0;
      assert buf[0..cur] == buf[..cur];
      NothingBefore(DecodeAll(buf[..cur]));
      while p != cur
        invariant p <= cur && DecodeAll(buf[..cur]) == AllBefore(found, DecodeAll(buf[p..cur]))
        decreases cur - p
      {
        ghost var s := buf[p..cur];
        OneRecord(s, found);
        var e := Decode(buf[p..cur]);
        if e.None? || FullSize(e.value) > cur - p {
          return None;
        }
        assert s[FullSize(e.value)..] == buf[p + FullSize(e.value)..cur];
        found := found + [e.value];
        p := p + FullSize(e.value);
      }
      NoRecord(buf[p..cur], found);
      return Some(found);
    }
  }

  function AllBefore(found: seq<Dirent>, r: Option<seq<Dirent>>): Option<seq<Dirent>> {
    match r
    case None => None
    case Some(es) => Some(found + es)
  }

  lemma NothingBefore(r: Option<seq<Dirent>>)
    ensures AllBefore([], r) == r
  {
    if r.Some? {
      assert [] + r.value == r.value;
    }
  }

  /** One turn of the loop. */
  lemma OneRecord(s: Bytes, found: seq<Dirent>)
    requires s != []
    ensures match Decode(s)
            case None => AllBefore(found, DecodeAll(s)) == None
            case Some(e) =>
              && FullSize(e) > 0
              && if FullSize(e) > |s| then AllBefore(found, DecodeAll(s)) == None
                 else AllBefore(found, DecodeAll(s)) == AllBefore(found + [e], DecodeAll(s[FullSize(e)..]))
  {
    hide Decode, FullSize;
    if Decode(s).Some? {
      var e := Decode(s).value;
      NameIsInside(e);
      if FullSize(e) <= |s| {
        BeforeAll(found, e, DecodeAll(s[FullSize(e)..]));
      }
    }
  }

  lemma BeforeAll(found: seq<Dirent>, e: Dirent, r: Option<seq<Dirent>>)
    ensures AllBefore(found, Before(e, r)) == AllBefore(found + [e], r)
  {
    if r.Some? {
      assert found + ([e] + r.value) == found + [e] + r.value;
    }
  }

  lemma NoRecord(s: Bytes, found: seq<Dirent>)
    requires s == []
    ensures AllBefore(found, DecodeAll(s)) == Some(found)
  {
    assert found + [] == found;
  }

  lemma Appended(es: seq<Dirent>, e: Dirent, s: Bytes)
    requires var padding := FullSize(e) - NAME_OFFSET - |e.name|;
             s == EncodeAll(es) + Fields(e) + e.name + (if padding > 0 then Zeros(padding) else [])
    ensures s == EncodeAll(es + [e])
  {
    hide Fields, Zeros, EncodeAll;
    var padding := FullSize(e) - NAME_OFFSET - |e.name|;
    assert padding == 0 ==> Zeros(padding) == [];
    EncodeAllSnoc(es, e);
    assert s == EncodeAll(es) + (Fields(e) + e.name + Zeros(padding));
  }

  // ---------------------------------------------------------------- a whole series of calls

  /** The entries that fit, each one tried in turn. */
  function Kept(es: seq<Dirent>, room: nat): seq<Dirent> {
    if es == [] then []
    else if FullSize(es[0]) <= room then [es[0]] + Kept(es[1..], room - FullSize(es[0]))
    else Kept(es[1..], room)
  }

  /**
   For any series of add calls the used part spells out exactly the entries that were accepted, with zero padding, and
   its length is a multiple of eight and never more than the buffer; extract returns those entries, in order and
   intact, exactly if no accepted name is too long for its length field.
   */
  method AddAllThenExtract(maxSize: nat, es: seq<Dirent>) returns (extracted: Option<seq<Dirent>>, used: Bytes)
    ensures used == EncodeAll(Kept(es, maxSize)) && |used| % 8 == 0 && |used| <= maxSize
    ensures extracted == Some(Kept(es, maxSize)) <==> AllFit(Kept(es, maxSize))
  {
    hide EncodeAll, DecodeAll, FullSize, AllFit, Kept, KeptSoFar;
    var list := new List(maxSize);
    NoneKept(es, maxSize);
    var i := 0;
    while i < |es|
      invariant i <= |es| && fresh(list) && fresh(list.buf) && list.Valid() && list.buf.Length == maxSize
      invariant KeptSoFar(es, maxSize, i, list.entries, list.cur)
    {
      KeptStep(es, maxSize, i, list.entries, list.cur);
      var ok := list.Add(es[i]);
      i := i + 1;
    }
    AllKept(es, maxSize, list.entries, list.cur);
    extracted := list.Extract();
    used := list.buf[..list.cur];
  }

  /** A buffer of less than 2^32 bytes accepts no name that is too long, so then extract always gives the entries back. */
  lemma {:induction false} SmallBufferFits(es: seq<Dirent>, room: nat)
    requires room < TWO_32
    ensures AllFit(Kept(es, room))
  {
    hide FullSize;
    if es == [] {
    } else {
      SmallBufferFits(es[1..], if FullSize(es[0]) <= room then room - FullSize(es[0]) else room);
      assert FullSize(es[0]) > |es[0].name| by { NameIsInside(es[0]); }
    }
  }

  lemma NameIsInside(e: Dirent)
    ensures FullSize(e) > |e.name|
  {
  }

  /** After i calls: these entries were kept, and the rest is decided by the room that is left. */
  ghost predicate KeptSoFar(es: seq<Dirent>, maxSize: nat, i: nat, entries: seq<Dirent>, cur: nat) {
    i <= |es| && cur <= maxSize && Kept(es, maxSize) == entries + Kept(es[i..], maxSize - cur)
  }

  lemma NoneKept(es: seq<Dirent>, maxSize: nat)
    ensures KeptSoFar(es, maxSize, 0, [], 0)
  {
    assert es[0..] == es && [] + Kept(es, maxSize) == Kept(es, maxSize);
  }

  lemma AllKept(es: seq<Dirent>, maxSize: nat, entries: seq<Dirent>, cur: nat)
    requires KeptSoFar(es, maxSize, |es|, entries, cur)
    ensures Kept(es, maxSize) == entries
  {
    assert entries + [] == entries;
  }

  lemma KeptStep(es: seq<Dirent>, maxSize: nat, i: nat, entries: seq<Dirent>, cur: nat)
    requires KeptSoFar(es, maxSize, i, entries, cur) && i < |es|
    ensures if FullSize(es[i]) <= maxSize - cur then KeptSoFar(es, maxSize, i + 1, entries + [es[i]], cur + FullSize(es[i]))
            else KeptSoFar(es, maxSize, i + 1, entries, cur)
  {
    hide FullSize;
    assert es[i..][1..] == es[i + 1..];
    if FullSize(es[i]) <= maxSize - cur {
      var rest := Kept(es[i + 1..], maxSize - cur - FullSize(es[i]));
      assert entries + ([es[i]] + rest) == entries + [es[i]] + rest;
    }
  }
}
