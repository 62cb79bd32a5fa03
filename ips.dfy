/** The IPS (International Patching System) patch container: the file is the
    magic `PATCH`, then records of a 3-byte big-endian offset, a 2-byte
    big-endian length and that many payload bytes, then usually the footer
    `EOF`. Parsing it, the offsets a container writes, and whether two
    containers write a common byte. */
module Ips {
  import opened Bytes

  /** One record: `data` is to be written at absolute `offset`. */
  datatype BytesPatch = BytesPatch(offset: nat, data: seq<bv8>)

  /** A parsed container: its records in file order. It is not changed after
      parsing. */
  datatype Ips = Ips(patches: seq<BytesPatch>)

  /** `ValueError` for a wrong extension, `FileNotFoundError`, and
      `ValueError` for a wrong magic. */
  datatype IpsError = BadExtension | FileNotFound | InvalidFormat

  datatype Result<+T> = Ok(value: T) | Err(error: IpsError)

  /** The files the program can open, by path. */
  type FileSystem = map<string, seq<bv8>>

  const Magic: seq<bv8> := [0x50, 0x41, 0x54, 0x43, 0x48]  // "PATCH"
  const Footer: seq<bv8> := [0x45, 0x4F, 0x46]  // "EOF"

  /** The bytes a record writes: `[offset, offset + len(data))`. */
  predicate Covers(p: BytesPatch, x: int)
  {
    p.offset <= x < p.offset + |p.data|
  }

  function TotalLength(ps: seq<BytesPatch>): nat
  {
    if ps == [] then 0 else |ps[0].data| + TotalLength(ps[1..])
  }

  // ---------------------------------------------------------------------
  // Parsing

  /** One turn of the parse loop with the file position at `pos`: the
      record read and the position after it, or None where the loop stops.
      It stops, without error, when the position is three bytes before the
      end of the file (where the `EOF` footer sits), when fewer than three
      offset bytes remain, or when the length field reads 0. A length field
      or payload cut short by the end of the file is taken as far as it
      goes. A turn that reads a record consumes at least four bytes besides
      the data, and no more than the file holds, so the loop ends. */
  function Step(file: seq<bv8>, pos: nat): (r: Option<(BytesPatch, nat)>)
    requires pos <= |file|
    ensures r.Some? ==> pos + 4 + |r.value.0.data| <= r.value.1 <= |file|
  {
    if pos == |file| - 3 then None
    else
      var offsetBytes := ReadAt(file, pos, 3);
      if |offsetBytes| < 3 then None
      else
        var lengthBytes := ReadAt(file, pos + 3, 2);
        var length := BigEndian(lengthBytes);
        if length == 0 then None
        else
          var data := ReadAt(file, pos + 3 + |lengthBytes|, length);
          Some((BytesPatch(BigEndian(offsetBytes), data), pos + 3 + |lengthBytes| + |data|))
  }

  /** The records the parse loop reads from position `pos` on, in file
      order. Each record took at least four bytes of the file besides its
      data, so they fit in what follows `pos`. */
  function RecordsFrom(file: seq<bv8>, pos: nat): (rs: seq<BytesPatch>)
    requires pos <= |file|
    ensures 4 * |rs| + TotalLength(rs) <= |file| - pos
    decreases |file| - pos
  {
    match Step(file, pos)
    case None => []
    case Some((p, next)) =>
      var rest := RecordsFrom(file, next);
      assert ([p] + rest)[1..] == rest;
      [p] + rest
  }

  /** A file's contents as a container, or the format error: it is a
      container exactly when its first five bytes are `PATCH`. */
  function Parse(file: seq<bv8>): (r: Result<Ips>)
    ensures r.Ok? <==> |file| >= 5 && file[..5] == Magic
    ensures r.Err? ==> r.error == InvalidFormat
  {
    if ReadAt(file, 0, 5) != Magic then Err(InvalidFormat) else Ok(Ips(RecordsFrom(file, 5)))
  }

  /** What constructing an `IPS` from `path` gives: the extension is checked
      before the file is looked up, and the file before its magic. */
  function Open(path: string, fs: FileSystem): (r: Result<Ips>)
    ensures r == Err(BadExtension) <==> !EndsWith(path, ".ips")
    ensures r == Err(FileNotFound) <==> EndsWith(path, ".ips") && path !in fs
    ensures r.Ok? <==> EndsWith(path, ".ips") && path in fs && |fs[path]| >= 5 && fs[path][..5] == Magic
    ensures r.Ok? ==> r.value.patches == RecordsFrom(fs[path], 5)
  {
    if !EndsWith(path, ".ips") then Err(BadExtension)
    else if path !in fs then Err(FileNotFound)
    else Parse(fs[path])
  }

  /** The constructor of `IPS`: checks the extension, finds the file and
      checks the magic, then reads the records. */
  method Load(path: string, fs: FileSystem) returns (r: Result<Ips>)
    ensures r == Open(path, fs)
  {
    if !EndsWith(path, ".ips") {
      return Err(BadExtension);
    }
    if path !in fs {
      return Err(FileNotFound);
    }
    var file := fs[path];
    var header := ReadAt(file, 0, 5);
    if header != Magic {
      return Err(InvalidFormat);
    }
    var patches := ReadRecords(file, |header|);
    return Ok(Ips(patches));
  }

  /** The parse loop of the constructor: reads records while advancing the
      file position, until one of the stop conditions of `Step`. */
  method ReadRecords(file: seq<bv8>, start: nat) returns (patches: seq<BytesPatch>)
    requires start <= |file|
    ensures patches == RecordsFrom(file, start)
  {
    patches := [];
    var pos := start;
    while true
      invariant pos <= |file|
      invariant patches + RecordsFrom(file, pos) == RecordsFrom(file, start)
      decreases |file| - pos
    {
      var turn := ReadRecord(file, pos);
      if turn.None? {
        NoTurn(file, pos);
        break;
      }
      var p, next := turn.value.0, turn.value.1;
      NextTurn(file, pos, p, next);
      AppendRecord(patches, p, RecordsFrom(file, next));
      patches := patches + [p];
      pos := next;
    }
  }

  /** Where a turn reads nothing, no records follow. */
  lemma NoTurn(file: seq<bv8>, pos: nat)
    requires pos <= |file| && Step(file, pos).None?
    ensures RecordsFrom(file, pos) == []
  {
  }

  /** Where a turn reads record `p`, the records from `pos` on are `p`
      followed by the records from where the turn leaves the position. */
  lemma NextTurn(file: seq<bv8>, pos: nat, p: BytesPatch, next: nat)
    requires pos <= |file| && Step(file, pos) == Some((p, next))
    ensures pos < next <= |file|
    ensures RecordsFrom(file, pos) == [p] + RecordsFrom(file, next)
  {
  }

  lemma AppendRecord(patches: seq<BytesPatch>, p: BytesPatch, rest: seq<BytesPatch>)
    ensures (patches + [p]) + rest == patches + ([p] + rest)
  {
  }

  /** One turn of the parse loop: the record read at `pos` and the position
      after it, or None where the loop breaks. */
  method ReadRecord(file: seq<bv8>, pos: nat) returns (r: Option<(BytesPatch, nat)>)
    requires pos <= |file|
    ensures r == Step(file, pos)
  {
    if pos == |file| - 3 {
      return None;
    }
    var next := pos;
    var offsetBytes := ReadAt(file, next, 3);
    next := next + |offsetBytes|;
    if |offsetBytes| < 3 {
      return None;
    }
    var offset := BigEndian(offsetBytes);
    var lengthBytes := ReadAt(file, next, 2);
    next := next + |lengthBytes|;
    var length := BigEndian(lengthBytes);
    if length == 0 {
      return None;
    }
    var data := ReadAt(file, next, length);
    next := next + |data|;
    return Some((BytesPatch(offset, data), next));
  }

  /** A turn that reads record `p` and leaves the position at `next`. */
  lemma RecordTaken(file: seq<bv8>, pos: nat, p: BytesPatch, next: nat)
    requires pos <= |file| && pos != |file| - 3
    requires |ReadAt(file, pos, 3)| == 3 && p.offset == BigEndian(ReadAt(file, pos, 3))
    requires BigEndian(ReadAt(file, pos + 3, 2)) != 0
    requires p.data == ReadAt(file, pos + 3 + |ReadAt(file, pos + 3, 2)|, BigEndian(ReadAt(file, pos + 3, 2)))
    requires next == pos + 3 + |ReadAt(file, pos + 3, 2)| + |p.data|
    ensures next <= |file|
    ensures RecordsFrom(file, pos) == [p] + RecordsFrom(file, next)
  {
    assert Step(file, pos) == Some((p, next));
  }

  lemma StopHere(file: seq<bv8>, pos: nat)
    requires pos <= |file|
    requires pos == |file| - 3 || |ReadAt(file, pos, 3)| < 3
      || (|ReadAt(file, pos, 3)| == 3 && BigEndian(ReadAt(file, pos + 3, 2)) == 0)
    ensures RecordsFrom(file, pos) == []
  {
  }

  /** Every record has a 24-bit offset and at most 65535 bytes of data;
      every record but the last has at least one byte (its declared length
      was nonzero and the file held all of it); and each record used at
      least four bytes of the file besides its data, so the records and
      their data fit in what follows `pos`. */
  lemma {:induction false} RecordsShape(file: seq<bv8>, pos: nat)
    requires pos <= |file|
    ensures var rs := RecordsFrom(file, pos);
      && (forall k :: 0 <= k < |rs| ==> rs[k].offset < 0x100_0000 && |rs[k].data| <= 0xFFFF)
      && (forall k :: 0 <= k < |rs| - 1 ==> |rs[k].data| >= 1)
      && 4 * |rs| + TotalLength(rs) <= |file| - pos
    decreases |file| - pos
  {
    if Step(file, pos).Some? {
      var p, next := Step(file, pos).value.0, Step(file, pos).value.1;
      NextTurn(file, pos, p, next);
      StepShape(file, pos);
      RecordsShape(file, next);
      if |p.data| == 0 {
        EmptyDataEnds(file, pos);
      }
    }
  }

  /** A record read has a 24-bit offset and at most 65535 bytes of data. */
  lemma StepShape(file: seq<bv8>, pos: nat)
    requires pos <= |file| && Step(file, pos).Some?
    ensures Step(file, pos).value.0.offset < 0x100_0000 && |Step(file, pos).value.0.data| <= 0xFFFF
  {
    var lengthBytes := ReadAt(file, pos + 3, 2);
    Pow256Values();
    BigEndianBound(ReadAt(file, pos, 3));
    BigEndianBound(lengthBytes);
    assert |lengthBytes| <= 2 && BigEndian(lengthBytes) < Pow256(|lengthBytes|) <= 0x1_0000;
  }

  /** A record whose data the file cut short to nothing is the last one:
      the file has ended. */
  lemma EmptyDataEnds(file: seq<bv8>, pos: nat)
    requires pos <= |file| && Step(file, pos).Some? && Step(file, pos).value.0.data == []
    ensures RecordsFrom(file, Step(file, pos).value.1) == []
  {
    StopHere(file, Step(file, pos).value.1);
  }

  /** A file that ends right after the magic, or after the magic and at most
      three more bytes, has no records. */
  lemma ShortFileHasNoRecords(file: seq<bv8>)
    requires 5 <= |file| <= 8 && file[..5] == Magic
    ensures Parse(file) == Ok(Ips([]))
  {
    ReadAtSlice(file, 0, 5);
    assert file[0..0 + 5] == Magic;
  }

  /** `PATCH`, offset 0x000010, length 2, payload `AB`, then `000000`: one
      record writing `AB` at 16. */
  lemma OneRecordExample()
    ensures Parse(Magic + [0x00, 0x00, 0x10] + [0x00, 0x02] + [0x41, 0x42] + [0x00, 0x00, 0x00])
      == Ok(Ips([BytesPatch(16, [0x41, 0x42])]))
  {
    var file := Magic + [0x00, 0x00, 0x10] + [0x00, 0x02] + [0x41, 0x42] + [0x00, 0x00, 0x00];
    assert ReadAt(file, 0, 5) == Magic by {
      ReadAtSlice(file, 0, 5);
      assert file[0..0 + 5] == Magic;
    }
    assert RecordsFrom(file, 5) == [BytesPatch(16, [0x41, 0x42])] + RecordsFrom(file, 12) by {
      assert ReadAt(file, 5, 3) == [0x00, 0x00, 0x10] by {
        ReadAtSlice(file, 5, 3);
        assert file[5..5 + 3] == [0x00, 0x00, 0x10];
      }
      assert ReadAt(file, 8, 2) == [0x00, 0x02] by {
        ReadAtSlice(file, 8, 2);
        assert file[8..8 + 2] == [0x00, 0x02];
      }
      assert ReadAt(file, 10, 2) == [0x41, 0x42] by {
        ReadAtSlice(file, 10, 2);
        assert file[10..10 + 2] == [0x41, 0x42];
      }
      BigEndianSmall(0x00, 0x00, 0x10);
      BigEndianSmall(0x00, 0x02, 0x00);
      RecordTaken(file, 5, BytesPatch(16, [0x41, 0x42]), 12);
    }
    assert RecordsFrom(file, 12) == [] by {
      StopHere(file, 12);
    }
    assert RecordsFrom(file, 5) == [BytesPatch(16, [0x41, 0x42])];
  }

  /** A length field that promises more than the file holds gives a record
      with the bytes that are there: here `PATCH`, offset 1, length 5 and
      nothing after it gives one record with no data. */
  lemma TruncatedPayloadExample()
    ensures Parse(Magic + [0x00, 0x00, 0x01] + [0x00, 0x05]) == Ok(Ips([BytesPatch(1, [])]))
  {
    var file := Magic + [0x00, 0x00, 0x01] + [0x00, 0x05];
    assert ReadAt(file, 0, 5) == Magic by {
      ReadAtSlice(file, 0, 5);
      assert file[0..0 + 5] == Magic;
    }
    assert RecordsFrom(file, 5) == [BytesPatch(1, [])] + RecordsFrom(file, 10) by {
      assert ReadAt(file, 5, 3) == [0x00, 0x00, 0x01] by {
        ReadAtSlice(file, 5, 3);
        assert file[5..5 + 3] == [0x00, 0x00, 0x01];
      }
      assert ReadAt(file, 8, 2) == [0x00, 0x05] by {
        ReadAtSlice(file, 8, 2);
        assert file[8..8 + 2] == [0x00, 0x05];
      }
      BigEndianSmall(0x00, 0x00, 0x01);
      BigEndianSmall(0x00, 0x05, 0x00);
      assert ReadAt(file, 10, 5) == [];
      RecordTaken(file, 5, BytesPatch(1, []), 10);
    }
    assert RecordsFrom(file, 10) == [] by {
      StopHere(file, 10);
    }
    assert RecordsFrom(file, 5) == [BytesPatch(1, [])];
  }

  // ---------------------------------------------------------------------
  // Writing a container, for the round trip

  /** A record the format can hold: a 24-bit offset and 1 to 65535 bytes. */
  predicate Encodable(p: BytesPatch)
  {
    p.offset < 0x100_0000 && 0 < |p.data| < 0x1_0000
  }

  function EncodeRecords(ps: seq<BytesPatch>): (r: seq<bv8>)
    requires forall k :: 0 <= k < |ps| ==> Encodable(ps[k])
    ensures |r| == 5 * |ps| + TotalLength(ps)
  {
    if ps == [] then []
    else
      assert Encodable(ps[0]);
      EncodeRecord(ps[0]) + EncodeRecords(ps[1..])
  }

  /** The file an IPS writer produces for `ps`. */
  function Serialize(ps: seq<BytesPatch>): seq<bv8>
    requires forall k :: 0 <= k < |ps| ==> Encodable(ps[k])
  {
    Magic + EncodeRecords(ps) + Footer
  }

  /** The bytes a writer produces for one record. */
  function EncodeRecord(p: BytesPatch): (r: seq<bv8>)
    requires Encodable(p)
    ensures |r| == 5 + |p.data|
  {
    Pow256Values();
    ToBigEndian(p.offset, 3) + ToBigEndian(|p.data|, 2) + p.data
  }

  /** An encoded record followed by at least three more bytes is read back
      as that record. */
  lemma ReadEncodedRecord(file: seq<bv8>, pos: nat, p: BytesPatch, next: nat)
    requires Encodable(p) && next == pos + 5 + |p.data| && next + 3 <= |file|
    requires file[pos..next] == EncodeRecord(p)
    ensures RecordsFrom(file, pos) == [p] + RecordsFrom(file, next)
  {
    Pow256Values();
    var record := EncodeRecord(p);
    var n := pos + 5 + |p.data|;
    assert ReadAt(file, pos, 3) == ToBigEndian(p.offset, 3) by {
      ReadAtSlice(file, pos, 3);
      SubSlice(file, pos, n, 0, 3);
    }
    assert ReadAt(file, pos + 3, 2) == ToBigEndian(|p.data|, 2) by {
      ReadAtSlice(file, pos + 3, 2);
      SubSlice(file, pos, n, 3, 5);
    }
    assert ReadAt(file, pos + 5, |p.data|) == p.data by {
      ReadAtSlice(file, pos + 5, |p.data|);
      SubSlice(file, pos, n, 5, 5 + |p.data|);
    }
    BigEndianRoundTrip(p.offset, 3);
    BigEndianRoundTrip(|p.data|, 2);
    RecordTaken(file, pos, p, next);
  }

  lemma HeadTail<T>(s: seq<T>)
    requires s != []
    ensures s == [s[0]] + s[1..]
  {
  }

  lemma SubSlice(s: seq<bv8>, i: nat, j: nat, a: nat, b: nat)
    requires i <= j <= |s| && a <= b <= j - i
    ensures s[i..j][a..b] == s[i + a..i + b]
  {
    assert forall k :: 0 <= k < b - a ==> s[i..j][a..b][k] == s[i + a + k];
  }

  lemma SplitSuffix(file: seq<bv8>, pos: nat, a: seq<bv8>, b: seq<bv8>)
    requires pos <= |file| && file[pos..] == a + b
    ensures pos + |a| <= |file|
    ensures file[pos..pos + |a|] == a && file[pos + |a|..] == b
  {
    assert forall i :: 0 <= i < |a| ==> file[pos..pos + |a|][i] == (a + b)[i];
    forall i | 0 <= i < |b|
      ensures file[pos + |a|..][i] == b[i]
    {
      assert file[pos..][|a| + i] == (a + b)[|a| + i];
    }
  }

  /** The first encoded record and what follows it. */
  lemma EncodedSplit(file: seq<bv8>, pos: nat, ps: seq<BytesPatch>)
    requires forall k :: 0 <= k < |ps| ==> Encodable(ps[k])
    requires ps != [] && pos <= |file| && file[pos..] == EncodeRecords(ps) + Footer
    ensures Encodable(ps[0]) && pos + 5 + |ps[0].data| + 3 <= |file|
    ensures file[pos..pos + 5 + |ps[0].data|] == EncodeRecord(ps[0])
    ensures file[pos + 5 + |ps[0].data|..] == EncodeRecords(ps[1..]) + Footer
  {
    assert EncodeRecords(ps) + Footer == EncodeRecord(ps[0]) + (EncodeRecords(ps[1..]) + Footer);
    SplitSuffix(file, pos, EncodeRecord(ps[0]), EncodeRecords(ps[1..]) + Footer);
  }

  /** The records written from `pos` on, followed by the footer, are read
      back one by one. */
  lemma {:induction false} RecordsFromEncoded(file: seq<bv8>, pos: nat, ps: seq<BytesPatch>)
    requires forall k :: 0 <= k < |ps| ==> Encodable(ps[k])
    requires pos <= |file| && file[pos..] == EncodeRecords(ps) + Footer
    ensures RecordsFrom(file, pos) == ps
    decreases |ps|
  {
    if ps == [] {
      StopHere(file, pos);
    } else {
      var p, next := ps[0], pos + 5 + |ps[0].data|;
      EncodedSplit(file, pos, ps);
      ReadEncodedRecord(file, pos, p, next);
      RecordsFromEncoded(file, next, ps[1..]);
      HeadTail(ps);
    }
  }

  /** Parsing what a writer produced gives back its records. */
  lemma ParseSerialize(ps: seq<BytesPatch>)
    requires forall k :: 0 <= k < |ps| ==> Encodable(ps[k])
    ensures Parse(Serialize(ps)) == Ok(Ips(ps))
  {
    var file := Serialize(ps);
    assert file[0..] == Magic + (EncodeRecords(ps) + Footer);
    SplitSuffix(file, 0, Magic, EncodeRecords(ps) + Footer);
    ReadAtSlice(file, 0, 5);
    RecordsFromEncoded(file, 5, ps);
  }

  // ---------------------------------------------------------------------
  // Offsets and conflicts

  /** `extract_offsets`: `offset + i` for each byte `i` of each record, in
      record order. */
  function ExtractOffsets(ps: seq<BytesPatch>): (r: seq<nat>)
    ensures |r| == TotalLength(ps)
  {
    if ps == [] then [] else seq(|ps[0].data|, i => ps[0].offset + i) + ExtractOffsets(ps[1..])
  }

  /** Record `k`'s byte `i` comes after the bytes of records `0..k`. */
  lemma {:induction false} ExtractOffsetsAt(ps: seq<BytesPatch>, k: nat, i: nat)
    requires k < |ps| && i < |ps[k].data|
    ensures TotalLength(ps[..k]) + i < |ExtractOffsets(ps)|
    ensures ExtractOffsets(ps)[TotalLength(ps[..k]) + i] == ps[k].offset + i
  {
    if k == 0 {
      assert ps[..k] == [];
    } else {
      assert ps[1..][..k - 1] == ps[..k][1..];
      ExtractOffsetsAt(ps[1..], k - 1, i);
    }
  }

  /** An offset is extracted exactly when some record covers it. */
  lemma {:induction false} InExtractOffsets(ps: seq<BytesPatch>, x: nat)
    ensures x in ExtractOffsets(ps) <==> exists k :: 0 <= k < |ps| && Covers(ps[k], x)
  {
    if ps != [] {
      InExtractOffsets(ps[1..], x);
      var head := seq(|ps[0].data|, i => ps[0].offset + i);
      assert x in head <==> Covers(ps[0], x) by {
        if Covers(ps[0], x) {
          assert head[x - ps[0].offset] == x;
        }
      }
      if exists k :: 0 <= k < |ps[1..]| && Covers(ps[1..][k], x) {
        var k :| 0 <= k < |ps[1..]| && Covers(ps[1..][k], x);
        assert Covers(ps[k + 1], x);
      }
      if exists k :: 0 <= k < |ps| && Covers(ps[k], x) {
        var k :| 0 <= k < |ps| && Covers(ps[k], x);
        if k > 0 {
          assert Covers(ps[1..][k - 1], x);
        }
      }
    }
  }

  function OffsetSet(a: Ips): set<nat>
  {
    set x | x in ExtractOffsets(a.patches)
  }

  /** `has_conflict`: the two containers' offset sets intersect. */
  predicate HasConflict(a: Ips, b: Ips)
  {
    !(OffsetSet(a) !! OffsetSet(b))
  }

  /** Two records write a common byte: both are nonempty and their
      half-open ranges overlap. */
  predicate RangesOverlap(p: BytesPatch, q: BytesPatch)
  {
    0 < |p.data| && 0 < |q.data| && p.offset < q.offset + |q.data| && q.offset < p.offset + |p.data|
  }

  /** Two containers conflict exactly when a record of one overlaps a record
      of the other. */
  lemma ConflictIffOverlap(a: Ips, b: Ips)
    ensures HasConflict(a, b) <==>
      exists i, j :: 0 <= i < |a.patches| && 0 <= j < |b.patches| && RangesOverlap(a.patches[i], b.patches[j])
  {
    if HasConflict(a, b) {
      var x :| x in OffsetSet(a) && x in OffsetSet(b);
      InExtractOffsets(a.patches, x);
      InExtractOffsets(b.patches, x);
      var i :| 0 <= i < |a.patches| && Covers(a.patches[i], x);
      var j :| 0 <= j < |b.patches| && Covers(b.patches[j], x);
      assert RangesOverlap(a.patches[i], b.patches[j]);
    }
    if exists i, j :: 0 <= i < |a.patches| && 0 <= j < |b.patches| && RangesOverlap(a.patches[i], b.patches[j]) {
      var i, j :| 0 <= i < |a.patches| && 0 <= j < |b.patches| && RangesOverlap(a.patches[i], b.patches[j]);
      var x := Max(a.patches[i].offset, b.patches[j].offset);
      InExtractOffsets(a.patches, x);
      InExtractOffsets(b.patches, x);
      assert x in OffsetSet(a) && x in OffsetSet(b);
    }
  }

  lemma ConflictSymmetric(a: Ips, b: Ips)
    ensures HasConflict(a, b) == HasConflict(b, a)
  {
  }

  /** A container with a nonempty record conflicts with itself. */
  lemma SelfConflict(a: Ips, k: nat)
    requires k < |a.patches| && |a.patches[k].data| > 0
    ensures HasConflict(a, a)
  {
    ExtractOffsetsAt(a.patches, k, 0);
    var x := a.patches[k].offset;
    assert x in OffsetSet(a);
  }

  /** A container whose records are all empty (or which has none) writes
      nothing and so conflicts with no container. */
  lemma NoWritesNoConflict(a: Ips, b: Ips)
    requires forall k :: 0 <= k < |a.patches| ==> |a.patches[k].data| == 0
    ensures !HasConflict(a, b) && !HasConflict(b, a)
  {
    EmptyRecordsNoOffsets(a.patches);
    assert OffsetSet(a) == {};
  }

  lemma {:induction false} EmptyRecordsNoOffsets(ps: seq<BytesPatch>)
    requires forall k :: 0 <= k < |ps| ==> |ps[k].data| == 0
    ensures ExtractOffsets(ps) == []
  {
    if ps != [] {
      EmptyRecordsNoOffsets(ps[1..]);
    }
  }

  /** Ranges are half-open: [16,18) and [18,20) do not conflict, while
      [16,18) and [17,20) do. */
  lemma BoundaryExamples(d2: seq<bv8>, d3: seq<bv8>)
    requires |d2| == 2 && |d3| == 3
    ensures !HasConflict(Ips([BytesPatch(16, d2)]), Ips([BytesPatch(18, d2)]))
    ensures HasConflict(Ips([BytesPatch(16, d2)]), Ips([BytesPatch(17, d3)]))
  {
    ConflictIffOverlap(Ips([BytesPatch(16, d2)]), Ips([BytesPatch(18, d2)]));
    ConflictIffOverlap(Ips([BytesPatch(16, d2)]), Ips([BytesPatch(17, d3)]));
    assert RangesOverlap(BytesPatch(16, d2), BytesPatch(17, d3));
  }
}
