/** A number below 256 converts to a byte and back unchanged. */
module Octets {
  lemma ByteValue(x: nat)
    requires x < 256
    ensures (x as bv8) as nat == x
  {
  }
}

/** Byte sequences as the program sees them: the result of reading from and
    writing to a random-access binary file, and big-endian integers. */
module Bytes {
  import opened Octets

  datatype Option<+T> = None | Some(value: T)

  function Min(a: int, b: int): int { if a <= b then a else b }
  function Max(a: int, b: int): int { if a <= b then b else a }

  /** `bytearray(n)`: n zero bytes. */
  function Zeros(n: nat): (r: seq<bv8>)
    ensures |r| == n
    ensures forall i :: 0 <= i < n ==> r[i] == 0
  {
    seq(n, _ => 0)
  }

  /** Python's `str.endswith`. */
  predicate EndsWith(s: string, suffix: string)
  {
    |suffix| <= |s| && s[|s| - |suffix|..] == suffix
  }

  /** What `seek(pos); read(size)` returns on a file holding `s`: at most
      `size` bytes, cut short at the end of the file (empty past it). */
  function ReadAt(s: seq<bv8>, pos: nat, size: nat): (r: seq<bv8>)
    ensures |r| == if pos >= |s| then 0 else Min(size, |s| - pos)
  {
    s[Min(pos, |s|)..Min(pos + size, |s|)]
  }

  /** A read that the file can satisfy in full returns `size` bytes. */
  lemma ReadAtSlice(s: seq<bv8>, pos: nat, size: nat)
    requires pos + size <= |s|
    ensures ReadAt(s, pos, size) == s[pos..pos + size]
  {
  }

  /** The bytes read are the file's bytes from `pos` on. */
  lemma ReadAtBytes(s: seq<bv8>, pos: nat, size: nat)
    ensures forall i :: 0 <= i < |ReadAt(s, pos, size)| ==> ReadAt(s, pos, size)[i] == s[pos + i]
  {
  }

  /** What `seek(pos); write(data)` leaves in a file holding `s`: `data`
      replaces the bytes from `pos` on, the file grows when the write runs
      past its end, and a gap between the old end and `pos` reads as zeros.
      Writing no bytes changes nothing, wherever the position is. */
  function Overwrite(s: seq<bv8>, pos: nat, data: seq<bv8>): (r: seq<bv8>)
    ensures |r| == if data == [] then |s| else Max(|s|, pos + |data|)
    ensures forall i :: 0 <= i < |r| ==>
      r[i] == if pos <= i < pos + |data| then data[i - pos] else if i < |s| then s[i] else 0
  {
    if data == [] then s
    else
      var padded := if pos <= |s| then s else s + Zeros(pos - |s|);
      padded[..pos] + data + (if pos + |data| < |padded| then padded[pos + |data|..] else [])
  }

  /** Reading back what was just written gives the written bytes. */
  lemma ReadOverwrite(s: seq<bv8>, pos: nat, data: seq<bv8>)
    ensures ReadAt(Overwrite(s, pos, data), pos, |data|) == data
  {
    if data != [] {
      var r := Overwrite(s, pos, data);
      assert ReadAt(r, pos, |data|) == r[pos..pos + |data|];
    }
  }

  /** A write elsewhere leaves a read that the file could satisfy in full
      unchanged. */
  lemma ReadOverwriteElsewhere(s: seq<bv8>, pos: nat, data: seq<bv8>, at: nat, size: nat)
    requires at + size <= |s|
    requires at + size <= pos || pos + |data| <= at
    ensures ReadAt(Overwrite(s, pos, data), at, size) == ReadAt(s, at, size)
  {
    var r := Overwrite(s, pos, data);
    assert ReadAt(r, at, size) == r[at..at + size];
    assert ReadAt(s, at, size) == s[at..at + size];
  }

  /** Writing back the bytes just read changes nothing. */
  lemma OverwriteWithOwnBytes(s: seq<bv8>, pos: nat, size: nat)
    ensures Overwrite(s, pos, ReadAt(s, pos, size)) == s
  {
    var data := ReadAt(s, pos, size);
    if data != [] {
      var r := Overwrite(s, pos, data);
      assert |r| == |s|;
      forall i | 0 <= i < |s|
        ensures r[i] == s[i]
      {
        if pos <= i < pos + |data| {
          assert data[i - pos] == s[pos + (i - pos)];
        }
      }
    }
  }

  function Pow256(n: nat): (r: nat)
    ensures r >= 1
  {
    if n == 0 then 1 else 256 * Pow256(n - 1)
  }

  lemma Pow256Values()
    ensures Pow256(1) == 0x100 && Pow256(2) == 0x1_0000 && Pow256(3) == 0x100_0000
  {
    assert Pow256(1) == 256 * Pow256(0);
    assert Pow256(2) == 256 * Pow256(1);
    assert Pow256(3) == 256 * Pow256(2);
  }

  /** `int.from_bytes(s, 'big')`; an empty sequence reads as 0. */
  function BigEndian(s: seq<bv8>): nat
  {
    if s == [] then 0 else BigEndian(s[..|s| - 1]) * 256 + s[|s| - 1] as nat
  }

  lemma BigEndianSmall(a: bv8, b: bv8, c: bv8)
    ensures BigEndian([a]) == a as nat
    ensures BigEndian([a, b]) == a as nat * 256 + b as nat
    ensures BigEndian([a, b, c]) == a as nat * 0x1_0000 + b as nat * 256 + c as nat
  {
    assert [a, b][..1] == [a];
    assert [a, b, c][..2] == [a, b];
    assert [a][..0] == [];
  }

  /** An n-byte field holds a value below 256^n. */
  lemma {:induction false} BigEndianBound(s: seq<bv8>)
    ensures BigEndian(s) < Pow256(|s|)
  {
    if s != [] {
      BigEndianBound(s[..|s| - 1]);
    }
  }

  /** `v.to_bytes(n, 'big')` for a value that fits in n bytes. */
  function ToBigEndian(v: nat, n: nat): (r: seq<bv8>)
    requires v < Pow256(n)
    ensures |r| == n
  {
    if n == 0 then [] else
      DropLowByte(v, n);
      ToBigEndian(v / 256, n - 1) + [(v % 256) as bv8]
  }

  lemma DropLowByte(v: nat, n: nat)
    requires 0 < n && v < Pow256(n)
    ensures v / 256 < Pow256(n - 1)
  {
    assert v < 256 * Pow256(n - 1);
  }

  lemma {:induction false} BigEndianRoundTrip(v: nat, n: nat)
    requires v < Pow256(n)
    ensures BigEndian(ToBigEndian(v, n)) == v
  {
    if n > 0 {
      DropLowByte(v, n);
      var high, low := v / 256, v % 256;
      var s := ToBigEndian(v, n);
      assert s == ToBigEndian(high, n - 1) + [low as bv8];
      assert s[..n - 1] == ToBigEndian(high, n - 1);
      BigEndianRoundTrip(high, n - 1);
      ByteValue(low);
      assert BigEndian(s) == high * 256 + low;
    }
  }
}
