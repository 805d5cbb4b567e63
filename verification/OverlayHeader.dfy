/** The 64-byte header in front of every file of the overlay. */
module OverlayHeader {
  import opened Common
  import opened ByteOrder

  const LENGTH: nat := 64
  const VERSION_1: nat := 1
  const TYPE_DIR: Bytes := ['O' as int, 'V' as int, 'D' as int, 'R' as int]
  const TYPE_FILE: Bytes := ['O' as int, 'V' as int, 'F' as int, 'L' as int]

  /** times holds seconds and nanoseconds of access, change and modification, in that order. */
  datatype Header = Header(kind: Bytes, version: nat, times: seq<nat>, padding: Bytes)

  /** What struct.pack takes for its format; it raises for anything else. */
  predicate Packable(h: Header) {
    && |h.kind| == 4 && h.version < TWO_32
    && |h.times| == 6 && (forall i :: 0 <= i < 6 ==> h.times[i] < TWO_64)
    && |h.padding| == 8
  }

  function PackTimes(times: seq<nat>): (s: Bytes)
    ensures |s| == 8 * |times|
  {
    if times == [] then [] else BigEndian(times[0], 8) + PackTimes(times[1..])
  }

  function UnpackTimes(s: Bytes): (times: seq<nat>)
    ensures |times| == |s| / 8
  {
    if |s| < 8 then [] else [FromBigEndian(s[..8])] + UnpackTimes(s[8..])
  }

  const NO_PADDING: Bytes := [0, 0, 0, 0, 0, 0, 0, 0]

  function Serialize(h: Header): (s: Bytes)
    requires Packable(h)
    ensures |s| == LENGTH
  {
    h.kind + BigEndian(h.version, 4) + PackTimes(h.times) + h.padding
  }

  datatype Parsed = Parsed(header: Header) | InvalidOverlayFile | StructError

  /** A header read from a file starts out with zero padding. */
  function Parse(data: Bytes): (r: Parsed) {
    if |data| < LENGTH then InvalidOverlayFile
    else if |data| != LENGTH then StructError
    else if data[..4] != TYPE_DIR && data[..4] != TYPE_FILE then InvalidOverlayFile
    else if FromBigEndian(data[4..8]) != VERSION_1 then InvalidOverlayFile
    else Parsed(Header(data[..4], FromBigEndian(data[4..8]), UnpackTimes(data[8..56]), NO_PADDING))
  }

  lemma {:induction false} UnpackInvertsPack(times: seq<nat>)
    requires forall i :: 0 <= i < |times| ==> times[i] < TWO_64
    ensures UnpackTimes(PackTimes(times)) == times
  {
    if times == [] {
    } else {
      var s := PackTimes(times);
      Widths();
      BigEndianInverts(times[0], 8);
      UnpackInvertsPack(times[1..]);
      hide BigEndian, FromBigEndian;
      assert s[..8] == BigEndian(times[0], 8) && s[8..] == PackTimes(times[1..]);
    }
  }

  lemma {:induction false} PackInvertsUnpack(s: Bytes)
    requires |s| % 8 == 0
    ensures PackTimes(UnpackTimes(s)) == s
    ensures forall i :: 0 <= i < |s| / 8 ==> UnpackTimes(s)[i] < TWO_64
    decreases |s|
  {
    if s == [] {
    } else {
      Widths();
      BigEndianIsOnto(s[..8]);
      PackInvertsUnpack(s[8..]);
      hide BigEndian, FromBigEndian;
      assert UnpackTimes(s)[1..] == UnpackTimes(s[8..]);
      assert s == s[..8] + s[8..];
    }
  }

  /**
   A header that is written is read back exactly if it has one of the two types and version 1, and then with every
   field but the padding as it was.
   */
  lemma ParseInvertsSerialize(h: Header)
    requires Packable(h)
    ensures Parse(Serialize(h)) ==
            if (h.kind == TYPE_DIR || h.kind == TYPE_FILE) && h.version == VERSION_1 then Parsed(h.(padding := NO_PADDING))
            else InvalidOverlayFile
  {
    Widths();
    BigEndianInverts(h.version, 4);
    UnpackInvertsPack(h.times);
    hide BigEndian, FromBigEndian, PackTimes, UnpackTimes;
    var s := Serialize(h);
    assert s[..4] == h.kind;
    assert s[4..8] == BigEndian(h.version, 4);
    assert s[8..56] == PackTimes(h.times);
  }

  /** Conversely a header that is read can be written, and gives back the bytes before the padding. */
  lemma SerializeInvertsParse(data: Bytes)
    requires Parse(data).Parsed?
    ensures |data| == LENGTH && Packable(Parse(data).header)
    ensures Serialize(Parse(data).header) == data[..56] + NO_PADDING
  {
    Widths();
    BigEndianIsOnto(data[4..8]);
    PackInvertsUnpack(data[8..56]);
    hide BigEndian, FromBigEndian, PackTimes, UnpackTimes;
    assert data[..56] == data[..4] + data[4..8] + data[8..56];
  }

  lemma {:induction false} PackedTime(times: seq<nat>, i: nat)
    requires i < |times|
    ensures PackTimes(times)[8 * i..8 * i + 8] == BigEndian(times[i], 8)
  {
    hide BigEndian;
    var s := PackTimes(times);
    if i == 0 {
      assert s[0..8] == BigEndian(times[0], 8);
    } else {
      PackedTime(times[1..], i - 1);
      assert s[8..] == PackTimes(times[1..]);
      assert s[8 * i..8 * i + 8] == s[8..][8 * (i - 1)..8 * (i - 1) + 8];
    }
  }

  /** The bytes of a header: four for the type, the version, six times of eight bytes each, and the padding. */
  lemma HeaderBytes(h: Header, i: nat)
    requires Packable(h) && i < 6
    ensures var s := Serialize(h);
            && s[..4] == h.kind && s[4..8] == BigEndian(h.version, 4) && s[56..] == h.padding
            && s[8 + 8 * i..16 + 8 * i] == BigEndian(h.times[i], 8)
  {
    hide BigEndian, PackTimes;
    var s := Serialize(h);
    PackedTime(h.times, i);
    assert s[8..56] == PackTimes(h.times);
    assert s[8 + 8 * i..16 + 8 * i] == s[8..56][8 * i..8 * i + 8];
  }

  /** The two types are OVDR and OVFL. */
  lemma TypeBytes()
    ensures TYPE_DIR == [79, 86, 68, 82] && TYPE_FILE == [79, 86, 70, 76]
  {
  }

  /**
   What is read: too few bytes are an invalid file and too many an error of struct; otherwise the first eight bytes have
   to be one of the types and 0, 0, 0, 1, and the times are the six fields after them.
   */
  lemma ParseExactly(data: Bytes)
    ensures |data| < 64 ==> Parse(data) == InvalidOverlayFile
    ensures |data| > 64 ==> Parse(data) == StructError
    ensures |data| == 64 ==>
              if (data[..4] == [79, 86, 68, 82] || data[..4] == [79, 86, 70, 76]) && data[4..8] == [0, 0, 0, 1]
              then Parse(data) == Parsed(Header(data[..4], 1, UnpackTimes(data[8..56]), [0, 0, 0, 0, 0, 0, 0, 0]))
              else Parse(data) == InvalidOverlayFile
  {
    if |data| == 64 {
      hide UnpackTimes;
      VersionBytes();
      BigEndianIsOnto(data[4..8]);
    }
  }

  lemma VersionBytes()
    ensures BigEndian(1, 4) == [0, 0, 0, 1] && FromBigEndian([0, 0, 0, 1]) == 1
  {
    assert BigEndian(0, 1) == [0] && BigEndian(0, 2) == [0, 0] && BigEndian(0, 3) == [0, 0, 0];
    BigEndianInverts(1, 4);
  }
}
