/** The SNAPSHOT file with the parent commits of a checkout, as the daemon and the command line write and read it. */
module Snapshot {
  import opened Common
  import opened ByteOrder
  import opened Hexadecimal

  const RAW_SIZE: nat := 20
  const HEADER_SIZE: nat := 8

  type Hash = h: Bytes | |h| == RAW_SIZE witness seq(RAW_SIZE, i => 0)

  datatype Parents = Parents(parent1: Hash, parent2: Option<Hash>)

  const MAGIC: Bytes := ['e' as int, 'd' as int, 'e' as int, 'n' as int]
  const FORMAT_VERSION: nat := 1

  // ---------------------------------------------------------------- the daemon

  function Written(p: Parents): Bytes {
    MAGIC + BigEndian(FORMAT_VERSION, 4) + p.parent1 + (if p.parent2.Some? then p.parent2.value else [])
  }

  predicate IsSpace(c: Byte) {
    c == ' ' as int || c == '\n' as int || c == '\r' as int || c == '\t' as int
  }

  function TrimLeft(s: Bytes): Bytes {
    if s != [] && IsSpace(s[0]) then TrimLeft(s[1..]) else s
  }

  function TrimRight(s: Bytes): Bytes {
    if s != [] && IsSpace(Last(s)) then TrimRight(Init(s)) else s
  }

  /** An old file: one commit in hexadecimal, perhaps with white space around it. */
  function OldStyle(contents: Bytes): (r: Outcome<Parents>) {
    var id := TrimLeft(TrimRight(contents));
    if |id| != 2 * RAW_SIZE then Raised
    else
      match Unhexlify(id)
      case Ok(h) => Ok(Parents(h, None))
      case Raised => Raised
  }

  function ReadBack(contents: Bytes): (r: Outcome<Parents>) {
    if !(MAGIC <= contents) then OldStyle(contents)
    else if |contents| < HEADER_SIZE || FromBigEndian(contents[4..8]) != FORMAT_VERSION then Raised
    else if |contents| == HEADER_SIZE + RAW_SIZE then Ok(Parents(contents[8..28], None))
    else if |contents| == HEADER_SIZE + 2 * RAW_SIZE then Ok(Parents(contents[8..28], Some(contents[28..48])))
    else Raised
  }

  // ---------------------------------------------------------------- the command line

  const SNAPSHOT_MAGIC: Bytes := MAGIC + [0, 0, 0, 1]

  function SaveSnapshot(commit: Bytes): (r: Outcome<Bytes>) {
    if |commit| != 40 then Raised
    else
      match Unhexlify(commit)
      case Ok(h) => Ok(SNAPSHOT_MAGIC + h)
      case Raised => Raised
  }

  function UpTo(s: Bytes, n: nat): Bytes {
    if |s| <= n then s else s[..n]
  }

  /** Reading 20 bytes from a shorter file gives what there is. */
  function GetSnapshot(contents: Bytes): (r: Outcome<Bytes>) {
    if UpTo(contents, 8) != SNAPSHOT_MAGIC then Raised
    else Ok(Hexlify(UpTo(contents[8..], 20)))
  }

  // ---------------------------------------------------------------- what they promise each other

  lemma VersionBytes()
    ensures BigEndian(FORMAT_VERSION, 4) == [0, 0, 0, 1] && FromBigEndian([0, 0, 0, 1]) == FORMAT_VERSION
  {
    assert BigEndian(0, 1) == [0];
    assert BigEndian(0, 2) == [0, 0];
    assert BigEndian(0, 3) == [0, 0, 0];
    Widths();
    BigEndianInverts(FORMAT_VERSION, 4);
  }

  /** The header is the magic and the version, or the file is of the old style, or it is refused. */
  lemma HeaderIsMagic(contents: Bytes)
    ensures SNAPSHOT_MAGIC <= contents <==>
            MAGIC <= contents && |contents| >= HEADER_SIZE && FromBigEndian(contents[4..8]) == FORMAT_VERSION
  {
    hide BigEndian, FromBigEndian;
    VersionBytes();
    if |contents| >= HEADER_SIZE {
      BigEndianIsOnto(contents[4..8]);
      if MAGIC <= contents && contents[4..8] == [0, 0, 0, 1] {
        assert contents[..8] == contents[..4] + contents[4..8];
      }
      if SNAPSHOT_MAGIC <= contents {
        assert contents[4..8] == [0, 0, 0, 1];
        assert contents[..4] == MAGIC;
      }
    }
  }

  /** The bytes of the file: "eden", 0, 0, 0, 1, and 20 bytes for each parent. */
  lemma WrittenBytes(p: Parents)
    ensures Written(p) == [101, 100, 101, 110, 0, 0, 0, 1] + p.parent1 + (if p.parent2.Some? then p.parent2.value else [])
  {
    hide BigEndian;
    VersionBytes();
  }

  /** A byte that is neither white space nor a digit makes an old file unreadable. */
  lemma {:induction false} OldStyleNeedsDigits(contents: Bytes, i: nat)
    requires i < |contents| && Nibbled(contents[i]).None? && !(contents[i] in [32, 10, 13, 9])
    ensures OldStyle(contents) == Raised
  {
    TrimRightKeeps(contents, i);
    TrimLeftKeeps(TrimRight(contents), i);
    var id := TrimLeft(TrimRight(contents));
    var j :| 0 <= j < |id| && id[j] == contents[i];
    NotHexadecimal(id, j);
  }

  lemma {:induction false} TrimRightKeeps(s: Bytes, i: nat)
    requires i < |s| && !(s[i] in [32, 10, 13, 9])
    ensures i < |TrimRight(s)| && TrimRight(s)[i] == s[i]
  {
    if IsSpace(Last(s)) {
      TrimRightKeeps(Init(s), i);
    }
  }

  lemma {:induction false} TrimLeftKeeps(s: Bytes, i: nat)
    requires i < |s| && !(s[i] in [32, 10, 13, 9])
    ensures exists j :: 0 <= j < |TrimLeft(s)| && TrimLeft(s)[j] == s[i]
  {
    if IsSpace(s[0]) {
      TrimLeftKeeps(s[1..], i - 1);
      var j :| 0 <= j < |TrimLeft(s[1..])| && TrimLeft(s[1..])[j] == s[i];
      assert TrimLeft(s)[j] == s[i];
    } else {
      assert TrimLeft(s)[i] == s[i];
    }
  }

  lemma {:induction false} NotHexadecimal(s: Bytes, i: nat)
    requires i < |s| && Nibbled(s[i]).None?
    ensures Unhexlify(s) == Raised
  {
    if |s| > 1 && i > 1 {
      NotHexadecimal(s[2..], i - 2);
    }
  }

  /** One or two parents written by the daemon are read back by it. */
  lemma ReadBackInvertsWritten(p: Parents)
    ensures ReadBack(Written(p)) == Ok(p)
  {
    hide BigEndian, FromBigEndian;
    var s := Written(p);
    VersionBytes();
    HeaderIsMagic(s);
    assert s[..8] == SNAPSHOT_MAGIC;
    assert s[8..28] == p.parent1;
    if p.parent2.Some? {
      assert s[28..48] == p.parent2.value;
    }
  }

  /** A file with the magic is accepted exactly if it is what the daemon would write for the parents it yields. */
  lemma AcceptedExactlyIfWritten(contents: Bytes)
    requires MAGIC <= contents
    ensures ReadBack(contents).Ok? <==> exists p :: contents == Written(p)
    ensures ReadBack(contents).Ok? ==> contents == Written(ReadBack(contents).value)
  {
    hide BigEndian, FromBigEndian;
    if ReadBack(contents).Ok? {
      var p := ReadBack(contents).value;
      HeaderIsMagic(contents);
      VersionBytes();
      assert contents[..8] == SNAPSHOT_MAGIC;
      assert contents == contents[..8] + contents[8..28] + contents[28..];
      assert contents == Written(p);
    }
    forall p | contents == Written(p)
      ensures ReadBack(contents).Ok?
    {
      ReadBackInvertsWritten(p);
    }
  }

  /** What the command line saves, the daemon reads as that one parent and the command line reads in lower case. */
  lemma SavedIsReadByBoth(commit: Bytes)
    requires SaveSnapshot(commit).Ok?
    ensures |commit| == 40 && Unhexlify(commit).Ok?
    ensures ReadBack(SaveSnapshot(commit).value) == Ok(Parents(Unhexlify(commit).value, None))
    ensures GetSnapshot(SaveSnapshot(commit).value) == Ok(Lowered(commit))
  {
    hide BigEndian, FromBigEndian;
    var h := Unhexlify(commit).value;
    var s := SaveSnapshot(commit).value;
    HexlifyInvertsUnhexlify(commit);
    VersionBytes();
    assert s == Written(Parents(h, None));
    ReadBackInvertsWritten(Parents(h, None));
    assert s[..8] == SNAPSHOT_MAGIC && s[8..] == h;
  }

  /**
   The two readers: of a file the daemon accepts, the command line gives the first parent, unless it is of the old
   style, which it refuses; and with the new header the command line accepts every length, the daemon just two.
   */
  lemma ReadersAgree(contents: Bytes)
    ensures ReadBack(contents).Ok? ==>
              GetSnapshot(contents) == if MAGIC <= contents then Ok(Hexlify(ReadBack(contents).value.parent1)) else Raised
    ensures GetSnapshot(contents).Ok? ==> (ReadBack(contents).Ok? <==> |contents| == 28 || |contents| == 48)
  {
    hide BigEndian, FromBigEndian, OldStyle;
    HeaderIsMagic(contents);
    if SNAPSHOT_MAGIC <= contents {
      assert UpTo(contents, 8) == SNAPSHOT_MAGIC;
      if ReadBack(contents).Ok? {
        assert UpTo(contents[8..], 20) == contents[8..28];
      }
    } else {
      assert UpTo(contents, 8) == SNAPSHOT_MAGIC ==> SNAPSHOT_MAGIC <= contents;
      assert SNAPSHOT_MAGIC[..4] == MAGIC;
    }
  }

  lemma {:induction false} TrimsSpaces(before: Bytes, s: Bytes, after: Bytes)
    requires forall c :: c in before || c in after ==> IsSpace(c)
    requires s != [] && !IsSpace(s[0]) && !IsSpace(Last(s))
    ensures TrimLeft(TrimRight(before + s + after)) == s
    decreases |before| + |after|
  {
    if after != [] {
      assert Init(before + s + after) == before + s + Init(after);
      TrimsSpaces(before, s, Init(after));
    } else if before != [] {
      assert before + s + after == before + s;
      assert (before + s)[1..] == before[1..] + s + after;
      TrimsSpaces(before[1..], s, after);
      assert TrimRight(before[1..] + s + after) == before[1..] + s + after;
    } else {
      assert before + s + after == s;
    }
  }

  /** An old file is still read, whatever white space surrounds the commit: its digits cannot look like the magic. */
  lemma OldStyleIsRead(h: Hash, before: Bytes, after: Bytes)
    requires forall c :: c in before || c in after ==> c == 32 || c == 10 || c == 13 || c == 9
    ensures ReadBack(before + Hexlify(h) + after) == Ok(Parents(h, None))
  {
    var id := Hexlify(h);
    HexlifyDigits(h);
    UnhexlifyInvertsHexlify(h);
    hide Hexlify, Unhexlify;
    TrimsSpaces(before, id, after);
    var s := before + id + after;
    if before != [] {
      assert s[0] == before[0] && IsSpace(before[0]);
    } else {
      assert s[3] == id[3];
    }
  }

  // ---------------------------------------------------------------- with cursors

  /** A cursor that reads from a buffer, or writes into it, and moves on. */
  class Cursor {
    const buffer: array<Byte>
    var at: nat

    ghost predicate Valid()
      reads this
    {
      at <= buffer.Length
    }

    constructor (buffer: array<Byte>)
      ensures Valid() && this.buffer == buffer && at == 0
    {
      this.buffer := buffer;
      at := 0;
    }

    method Push(data: Bytes)
      requires Valid() && at + |data| <= buffer.Length
      modifies this, buffer
      ensures Valid() && at == old(at) + |data|
      ensures buffer[..at] == old(buffer[..at]) + data
    {
      for i := 0 to |data|
        invariant at == old(at) + i && at <= buffer.Length
        invariant buffer[..at] == old(buffer[..at]) + data[..i]
      {
        buffer[at] := data[i];
        at := at + 1;
        assert buffer[..at] == old(buffer[..at]) + data[..i] + [data[i]];
      }
    }

    method Pull(n: nat) returns (data: Bytes)
      requires Valid() && at + n <= buffer.Length
      modifies this
      ensures Valid() && at == old(at) + n && data == buffer[old(at)..at]
    {
      data := buffer[at..at + n];
      at := at + n;
    }

    method ReadBigEndian32() returns (value: nat)
      requires Valid() && at + 4 <= buffer.Length
      modifies this
      ensures Valid() && at == old(at) + 4 && value == FromBigEndian(buffer[old(at)..at])
    {
      var data := Pull(4);
      value := FromBigEndian(data);
    }
  }

  /** CheckoutConfig::setParentCommits, up to the write of the bytes to the file. */
  method SetParentCommits(parents: Parents) returns (data: Bytes)
    ensures data == Written(parents) && ReadBack(data) == Ok(parents)
  {
    var buffer := new Byte[HEADER_SIZE + 2 * RAW_SIZE];
    var cursor := new Cursor(buffer);
    cursor.Push(MAGIC);
    cursor.Push(BigEndian(FORMAT_VERSION, 4));
    cursor.Push(parents.parent1);
    if parents.parent2.Some? {
      cursor.Push(parents.parent2.value);
    }
    data := buffer[..cursor.at];
    ReadBackInvertsWritten(parents);
  }

  /** CheckoutConfig::getParentCommits, given the contents of the file. */
  method GetParentCommits(contents: Bytes) returns (r: Outcome<Parents>)
    ensures r == ReadBack(contents)
  {
    if !(MAGIC <= contents) {
      return OldStyle(contents);
    }
    if |contents| < HEADER_SIZE {
      return Raised;
    }
    var buffer := new Byte[|contents|](i requires 0 <= i < |contents| => contents[i]);
    assert buffer[..] == contents;
    var cursor := new Cursor(buffer);
    var magic := cursor.Pull(|MAGIC|);
    var version := cursor.ReadBigEndian32();
    assert buffer[4..8] == contents[4..8];
    if version != FORMAT_VERSION {
      return Raised;
    }
    var sizeLeft := |contents| - cursor.at;
    if sizeLeft != RAW_SIZE && sizeLeft != 2 * RAW_SIZE {
      return Raised;
    }
    var parent1 := cursor.Pull(RAW_SIZE);
    assert parent1 == contents[8..28];
    var parent2: Option<Hash> := None;
    if cursor.at != |contents| {
      var second := cursor.Pull(RAW_SIZE);
      assert second == contents[28..48];
      parent2 := Some(second);
    }
    return Ok(Parents(parent1, parent2));
  }
}
