/** The patch manager: applying a parsed IPS container to a ROM, the
    pairwise conflict sweep over the selected patches, the interactive
    selection of patches by number, the validation of patch names given on
    the command line, and the run that ties them together. */
module Patch {
  import opened Bytes
  import opened GB
  import opened Ips

  // ---------------------------------------------------------------------
  // Applying records

  /** The bytes of a file holding `s` after each record's data has been
      written at its offset, in record order. Writes never shorten the
      file. */
  function ApplyRecords(s: seq<bv8>, ps: seq<BytesPatch>): (r: seq<bv8>)
    ensures |r| >= |s|
  {
    if ps == [] then s
    else Overwrite(ApplyRecords(s, ps[..|ps| - 1]), ps[|ps| - 1].offset, ps[|ps| - 1].data)
  }

  /** The last of the records that writes byte `x`, if any. */
  function LastCover(ps: seq<BytesPatch>, x: nat): (r: Option<nat>)
    ensures r.None? <==> forall k :: 0 <= k < |ps| ==> !Covers(ps[k], x)
    ensures r.Some? ==> r.value < |ps| && Covers(ps[r.value], x)
    ensures r.Some? ==> forall k :: r.value < k < |ps| ==> !Covers(ps[k], x)
  {
    if ps == [] then None
    else if Covers(ps[|ps| - 1], x) then Some(|ps| - 1)
    else LastCover(ps[..|ps| - 1], x)
  }

  /** The file ends where it ended before or at the end of the furthest
      nonempty record, whichever is later. */
  lemma {:induction false} ApplyRecordsLength(s: seq<bv8>, ps: seq<BytesPatch>, x: nat)
    ensures x < |ApplyRecords(s, ps)| <==>
      x < |s| || exists k :: 0 <= k < |ps| && ps[k].data != [] && x < ps[k].offset + |ps[k].data|
  {
    if ps != [] {
      var init := ps[..|ps| - 1];
      ApplyRecordsLength(s, init, x);
      if exists k :: 0 <= k < |ps| && ps[k].data != [] && x < ps[k].offset + |ps[k].data| {
        var k :| 0 <= k < |ps| && ps[k].data != [] && x < ps[k].offset + |ps[k].data|;
        if k < |ps| - 1 {
          assert init[k] == ps[k];
        }
      }
      if exists k :: 0 <= k < |init| && init[k].data != [] && x < init[k].offset + |init[k].data| {
        var k :| 0 <= k < |init| && init[k].data != [] && x < init[k].offset + |init[k].data|;
        assert ps[k] == init[k];
      }
    }
  }

  /** Each byte of the result is the byte the last record writing it put
      there; a byte no record writes keeps its old value, or reads as zero
      when it lies past the old end of the file. */
  lemma {:induction false} ApplyRecordsByte(s: seq<bv8>, ps: seq<BytesPatch>, x: nat)
    requires x < |ApplyRecords(s, ps)|
    ensures ApplyRecords(s, ps)[x] ==
      match LastCover(ps, x)
      case Some(k) => ps[k].data[x - ps[k].offset]
      case None => if x < |s| then s[x] else 0
  {
    if ps != [] {
      var init, last := ps[..|ps| - 1], ps[|ps| - 1];
      var t := ApplyRecords(s, init);
      if !Covers(last, x) {
        assert LastCover(ps, x) == LastCover(init, x);
        if x < |t| {
          ApplyRecordsByte(s, init, x);
        } else {
          ApplyRecordsLength(s, init, x);
          assert LastCover(init, x).None? by {
            forall k | 0 <= k < |init|
              ensures !Covers(init[k], x)
            {
            }
          }
        }
      }
    }
  }

  /** Writing `a` and then `b` is writing `a + b`. */
  lemma {:induction false} ApplyRecordsAppend(s: seq<bv8>, a: seq<BytesPatch>, b: seq<BytesPatch>)
    ensures ApplyRecords(ApplyRecords(s, a), b) == ApplyRecords(s, a + b)
  {
    if b == [] {
      assert a + b == a;
    } else {
      ApplyRecordsAppend(s, a, b[..|b| - 1]);
      assert (a + b)[..|a + b| - 1] == a + b[..|b| - 1];
    }
  }

  /** The last writer of byte `x` in `a + b` is the last one in `b`, or,
      when `b` does not write `x`, the last one in `a`. */
  lemma {:induction false} LastCoverAppend(a: seq<BytesPatch>, b: seq<BytesPatch>, x: nat)
    ensures LastCover(a + b, x) ==
      match LastCover(b, x)
      case Some(k) => Some(|a| + k)
      case None => LastCover(a, x)
  {
    if b == [] {
      assert a + b == a;
    } else {
      assert (a + b)[..|a + b| - 1] == a + b[..|b| - 1];
      LastCoverAppend(a, b[..|b| - 1], x);
    }
  }

  /** Two containers that write no common byte can be applied in either
      order with the same result: this is what the conflict check before
      applying guards. */
  lemma DisjointPatchesCommute(s: seq<bv8>, a: Ips, b: Ips)
    requires !HasConflict(a, b)
    ensures ApplyRecords(ApplyRecords(s, a.patches), b.patches) == ApplyRecords(ApplyRecords(s, b.patches), a.patches)
  {
    var ab, ba := a.patches + b.patches, b.patches + a.patches;
    ApplyRecordsAppend(s, a.patches, b.patches);
    ApplyRecordsAppend(s, b.patches, a.patches);
    SameRecordsSameLength(s, ab, ba);
    forall x | 0 <= x < |ApplyRecords(s, ab)|
      ensures ApplyRecords(s, ab)[x] == ApplyRecords(s, ba)[x]
    {
      CommonWriterConflicts(a, b, x);
      DisjointByte(s, a.patches, b.patches, x);
    }
  }

  /** Byte `x` comes out the same whichever of two record lists is
      written first, when at most one of them writes it. */
  lemma DisjointByte(s: seq<bv8>, pa: seq<BytesPatch>, pb: seq<BytesPatch>, x: nat)
    requires LastCover(pa, x).None? || LastCover(pb, x).None?
    requires x < |ApplyRecords(s, pa + pb)| && x < |ApplyRecords(s, pb + pa)|
    ensures ApplyRecords(s, pa + pb)[x] == ApplyRecords(s, pb + pa)[x]
  {
    if LastCover(pb, x).Some? {
      OnlyFirstWrites(s, pb, pa, x);
      LaterWrites(s, pa, pb, x);
    } else if LastCover(pa, x).Some? {
      OnlyFirstWrites(s, pa, pb, x);
      LaterWrites(s, pb, pa, x);
    } else {
      LastCoverAppend(pa, pb, x);
      LastCoverAppend(pb, pa, x);
      UnwrittenByte(s, pa + pb, x);
      UnwrittenByte(s, pb + pa, x);
    }
  }

  /** When the later list writes byte `x`, its last writer decides it. */
  lemma LaterWrites(s: seq<bv8>, first: seq<BytesPatch>, later: seq<BytesPatch>, x: nat)
    requires LastCover(later, x).Some?
    requires x < |ApplyRecords(s, first + later)|
    ensures var k := LastCover(later, x).value;
      ApplyRecords(s, first + later)[x] == later[k].data[x - later[k].offset]
  {
    var k := LastCover(later, x).value;
    LastCoverAppend(first, later, x);
    assert LastCover(first + later, x) == Some(|first| + k);
    assert (first + later)[|first| + k] == later[k];
    LastWriterByte(s, first + later, x, |first| + k, later[k]);
  }

  /** When only the earlier list writes byte `x`, its last writer decides
      it. */
  lemma OnlyFirstWrites(s: seq<bv8>, first: seq<BytesPatch>, later: seq<BytesPatch>, x: nat)
    requires LastCover(first, x).Some? && LastCover(later, x).None?
    requires x < |ApplyRecords(s, first + later)|
    ensures var k := LastCover(first, x).value;
      ApplyRecords(s, first + later)[x] == first[k].data[x - first[k].offset]
  {
    var k := LastCover(first, x).value;
    LastCoverAppend(first, later, x);
    assert LastCover(first + later, x) == Some(k);
    assert (first + later)[k] == first[k];
    LastWriterByte(s, first + later, x, k, first[k]);
  }

  /** A byte some record writes holds what its last writer put there. */
  lemma LastWriterByte(s: seq<bv8>, ps: seq<BytesPatch>, x: nat, k: nat, last: BytesPatch)
    requires LastCover(ps, x) == Some(k) && ps[k] == last
    requires x < |ApplyRecords(s, ps)|
    ensures Covers(last, x) && ApplyRecords(s, ps)[x] == last.data[x - last.offset]
  {
    ApplyRecordsByte(s, ps, x);
  }

  /** A byte no record writes keeps its old value, or is 0 past the old
      end. */
  lemma UnwrittenByte(s: seq<bv8>, ps: seq<BytesPatch>, x: nat)
    requires LastCover(ps, x).None?
    requires x < |ApplyRecords(s, ps)|
    ensures ApplyRecords(s, ps)[x] == if x < |s| then s[x] else 0
  {
    ApplyRecordsByte(s, ps, x);
  }

  /** A byte written by both containers is a conflict. */
  lemma CommonWriterConflicts(a: Ips, b: Ips, x: nat)
    ensures LastCover(a.patches, x).Some? && LastCover(b.patches, x).Some? ==> HasConflict(a, b)
  {
    if LastCover(a.patches, x).Some? && LastCover(b.patches, x).Some? {
      InExtractOffsets(a.patches, x);
      InExtractOffsets(b.patches, x);
      assert x in OffsetSet(a) && x in OffsetSet(b);
    }
  }

  /** The same records in another order leave a file of the same length. */
  lemma SameRecordsSameLength(s: seq<bv8>, ab: seq<BytesPatch>, ba: seq<BytesPatch>)
    requires multiset(ab) == multiset(ba)
    ensures |ApplyRecords(s, ab)| == |ApplyRecords(s, ba)|
  {
    SameRecordsCover(s, ab, ba, |ApplyRecords(s, ab)|);
    SameRecordsCover(s, ab, ba, |ApplyRecords(s, ba)|);
  }

  lemma SameRecordsCover(s: seq<bv8>, ab: seq<BytesPatch>, ba: seq<BytesPatch>, x: nat)
    requires multiset(ab) == multiset(ba)
    ensures x < |ApplyRecords(s, ab)| <==> x < |ApplyRecords(s, ba)|
  {
    ApplyRecordsLength(s, ab, x);
    ApplyRecordsLength(s, ba, x);
    if exists k :: 0 <= k < |ab| && ab[k].data != [] && x < ab[k].offset + |ab[k].data| {
      var k :| 0 <= k < |ab| && ab[k].data != [] && x < ab[k].offset + |ab[k].data|;
      assert ab[k] in multiset(ba);
    }
    if exists k :: 0 <= k < |ba| && ba[k].data != [] && x < ba[k].offset + |ba[k].data| {
      var k :| 0 <= k < |ba| && ba[k].data != [] && x < ba[k].offset + |ba[k].data|;
      assert ba[k] in multiset(ab);
    }
  }

  // ---------------------------------------------------------------------
  // apply_patch

  /** How many records are written when the write of record `fault` (if
      any) raises: the ones before it. */
  function WrittenCount(n: nat, fault: Option<nat>): (c: nat)
    ensures c <= n
    ensures c == n <==> fault.None? || fault.value >= n
  {
    if fault.Some? && fault.value < n then fault.value else n
  }

  /** Whether `apply_patch` reports success: the container loads and no
      write raises. */
  predicate PatchApplies(path: string, fs: FileSystem, fault: Option<nat>)
  {
    Open(path, fs).Ok? && WrittenCount(|Open(path, fs).value.patches|, fault) == |Open(path, fs).value.patches|
  }

  /** The ROM after `apply_patch`: unchanged when the container does not
      load; otherwise its records written in order up to the one whose write
      raised, with no rollback of the writes before it. */
  function PatchEffect(s: seq<bv8>, path: string, fs: FileSystem, fault: Option<nat>): (r: seq<bv8>)
    ensures Open(path, fs).Err? ==> r == s
    ensures PatchApplies(path, fs, fault) ==> r == ApplyRecords(s, Open(path, fs).value.patches)
    ensures |r| >= |s|
  {
    match Open(path, fs)
    case Err(_) => s
    case Ok(ips) =>
      assert ips.patches[..|ips.patches|] == ips.patches;
      ApplyRecords(s, ips.patches[..WrittenCount(|ips.patches|, fault)])
  }

  /** `apply_patch`: loads the container at `path` and writes each of its
      records into the ROM in record order. A load error, or an error raised
      by the write of record `fault`, is caught and reported as failure. */
  method ApplyPatch(path: string, fs: FileSystem, rom: GBFile, fault: Option<nat>) returns (ok: bool)
    modifies rom
    ensures ok <==> PatchApplies(path, fs, fault)
    ensures rom.contents == PatchEffect(old(rom.contents), path, fs, fault)
  {
    var loaded := Load(path, fs);
    if loaded.Err? {
      return false;
    }
    var ps := loaded.value.patches;
    for k := 0 to |ps|
      invariant rom.contents == ApplyRecords(old(rom.contents), ps[..k])
      invariant fault.None? || fault.value >= k
    {
      if fault == Some(k) {
        return false;
      }
      rom.Write(ps[k].offset, ps[k].data);
      assert ps[..k + 1][..k] == ps[..k];
    }
    assert ps[..|ps|] == ps;
    return true;
  }

  /** A patch that applies leaves each byte as its last record writing it
      left it, and every byte no record writes as it was. */
  lemma AppliedPatchBytes(s: seq<bv8>, path: string, fs: FileSystem, fault: Option<nat>, x: nat)
    requires PatchApplies(path, fs, fault)
    requires x < |PatchEffect(s, path, fs, fault)|
    ensures var ps := Open(path, fs).value.patches;
      PatchEffect(s, path, fs, fault)[x] ==
        match LastCover(ps, x)
        case Some(k) => ps[k].data[x - ps[k].offset]
        case None => if x < |s| then s[x] else 0
  {
    var ps := Open(path, fs).value.patches;
    assert ps[..|ps|] == ps;
    ApplyRecordsByte(s, ps, x);
  }

  // ---------------------------------------------------------------------
  // check_patch_conflicts

  /** The containers at `paths`, in order, or None when any of them fails
      to load. */
  function OpenAll(paths: seq<string>, fs: FileSystem): (r: Option<seq<Ips>>)
    ensures r.Some? <==> forall k :: 0 <= k < |paths| ==> Open(paths[k], fs).Ok?
    ensures r.Some? ==> |r.value| == |paths|
    ensures r.Some? ==> forall k :: 0 <= k < |paths| ==> r.value[k] == Open(paths[k], fs).value
  {
    if paths == [] then Some([])
    else
      match OpenAll(paths[..|paths| - 1], fs)
      case None => None
      case Some(init) =>
        match Open(paths[|paths| - 1], fs)
        case Err(_) => None
        case Ok(last) => Some(init + [last])
  }

  /** Pair `(i, j)` comes no later than pair `(a, b)` in the order the
      sweep visits pairs. */
  predicate NotAfter(i: nat, j: nat, a: nat, b: nat)
  {
    i < a || (i == a && j <= b)
  }

  /** The first pair `(a, b)` with `a < b`, at or after `(i, j)` in sweep
      order, whose containers conflict. */
  function FirstConflictFrom(ips: seq<Ips>, i: nat, j: nat): (r: Option<(nat, nat)>)
    requires i < j
    ensures r.Some? ==> var (a, b) := r.value;
      a < b < |ips| && NotAfter(i, j, a, b) && HasConflict(ips[a], ips[b])
    ensures forall a: nat, b: nat :: a < b < |ips| && NotAfter(i, j, a, b) && HasConflict(ips[a], ips[b]) ==>
      r.Some? && NotAfter(r.value.0, r.value.1, a, b)
    decreases |ips| - i, |ips| - j
  {
    if i >= |ips| then None
    else if j >= |ips| then FirstConflictFrom(ips, i + 1, i + 2)
    else if HasConflict(ips[i], ips[j]) then Some((i, j))
    else FirstConflictFrom(ips, i, j + 1)
  }

  /** The first conflicting pair in sweep order: `(0, 1), (0, 2), ...,
      (1, 2), ...`. */
  function FirstConflict(ips: seq<Ips>): (r: Option<(nat, nat)>)
    ensures r.None? <==> forall a: nat, b: nat :: a < b < |ips| ==> !HasConflict(ips[a], ips[b])
    ensures r.Some? ==> r.value.0 < r.value.1 < |ips| && HasConflict(ips[r.value.0], ips[r.value.1])
    ensures r.Some? ==> forall a: nat, b: nat :: a < b < |ips| && HasConflict(ips[a], ips[b]) ==>
      NotAfter(r.value.0, r.value.1, a, b)
  {
    FirstConflictFrom(ips, 0, 1)
  }

  /** What `check_patch_conflicts` finds: the pair it warns about, if any.
      Fewer than two paths are not checked, and a container that fails to
      load makes the check give up and report no conflict. */
  function ConflictWarning(paths: seq<string>, fs: FileSystem): (r: Option<(nat, nat)>)
    ensures r.Some? <==>
      2 <= |paths| && (forall k :: 0 <= k < |paths| ==> Open(paths[k], fs).Ok?) &&
      exists a: nat, b: nat :: a < b < |paths| && HasConflict(Open(paths[a], fs).value, Open(paths[b], fs).value)
    ensures r.Some? ==> r.value.0 < r.value.1 < |paths|
  {
    if |paths| < 2 then None
    else
      match OpenAll(paths, fs)
      case None => None
      case Some(ips) => FirstConflict(ips)
  }

  /** `check_patch_conflicts`: loads every container, then sweeps the pairs
      `i < j` in order and stops at the first that conflicts, returning the
      pair it warns about. */
  method CheckPatchConflicts(paths: seq<string>, fs: FileSystem) returns (conflict: bool, warning: Option<(nat, nat)>)
    ensures conflict <==> warning.Some?
    ensures warning == ConflictWarning(paths, fs)
  {
    if |paths| < 2 {
      return false, None;
    }
    var loaded := LoadAll(paths, fs);
    if loaded.None? {
      return false, None;
    }
    warning := Sweep(loaded.value);
    conflict := warning.Some?;
  }

  /** The loading loop of `check_patch_conflicts`: stops at the first
      container that fails to load. */
  method LoadAll(paths: seq<string>, fs: FileSystem) returns (r: Option<seq<Ips>>)
    ensures r == OpenAll(paths, fs)
  {
    var ips: seq<Ips> := [];
    for k := 0 to |paths|
      invariant OpenAll(paths[..k], fs) == Some(ips)
    {
      var loaded := Load(paths[k], fs);
      if loaded.Err? {
        LoadFailure(paths, fs, k);
        return None;
      }
      OpenAllStep(paths, fs, k, ips, loaded.value);
      ips := ips + [loaded.value];
    }
    assert paths[..|paths|] == paths;
    return Some(ips);
  }

  /** The pair loops of `check_patch_conflicts`. */
  method Sweep(ips: seq<Ips>) returns (warning: Option<(nat, nat)>)
    ensures warning == FirstConflict(ips)
  {
    for i := 0 to |ips|
      invariant FirstConflict(ips) == FirstConflictFrom(ips, i, i + 1)
    {
      for j := i + 1 to |ips|
        invariant FirstConflict(ips) == FirstConflictFrom(ips, i, j)
      {
        if HasConflict(ips[i], ips[j]) {
          return Some((i, j));
        }
      }
    }
    return None;
  }

  /** Loading one more container extends the list loaded so far. */
  lemma OpenAllStep(paths: seq<string>, fs: FileSystem, k: nat, ips: seq<Ips>, next: Ips)
    requires k < |paths| && OpenAll(paths[..k], fs) == Some(ips) && Open(paths[k], fs) == Ok(next)
    ensures OpenAll(paths[..k + 1], fs) == Some(ips + [next])
  {
    assert paths[..k + 1][..k] == paths[..k];
  }

  /** One container failing to load makes the whole list fail to load. */
  lemma LoadFailure(paths: seq<string>, fs: FileSystem, k: nat)
    requires k < |paths| && Open(paths[k], fs).Err?
    ensures OpenAll(paths, fs).None?
  {
  }

  // ---------------------------------------------------------------------
  // Sorting patch names

  /** Python's `<` on strings: lexicographic by code point, a proper prefix
      first. */
  predicate StrLess(a: string, b: string)
  {
    if a == [] then b != []
    else if b == [] then false
    else if a[0] != b[0] then a[0] < b[0]
    else StrLess(a[1..], b[1..])
  }

  lemma {:induction false} StrLessIrreflexive(a: string)
    ensures !StrLess(a, a)
  {
    if a != [] {
      StrLessIrreflexive(a[1..]);
    }
  }

  lemma {:induction false} StrLessTransitive(a: string, b: string, c: string)
    requires StrLess(a, b) && StrLess(b, c)
    ensures StrLess(a, c)
  {
    if a != [] && b != [] && c != [] && a[0] == b[0] && b[0] == c[0] {
      StrLessTransitive(a[1..], b[1..], c[1..]);
    }
  }

  /** Two different strings are ordered one way or the other. */
  lemma {:induction false} StrLessTotal(a: string, b: string)
    requires a != b
    ensures StrLess(a, b) || StrLess(b, a)
  {
    if a != [] && b != [] && a[0] == b[0] {
      assert a == [a[0]] + a[1..] && b == [b[0]] + b[1..];
      StrLessTotal(a[1..], b[1..]);
    }
  }

  predicate Distinct(s: seq<string>)
  {
    forall i, j :: 0 <= i < j < |s| ==> s[i] != s[j]
  }

  predicate SortedStrings(s: seq<string>)
  {
    forall i, j :: 0 <= i < j < |s| ==> StrLess(s[i], s[j])
  }

  /** `x` placed into sorted `s` before the first element above it. */
  function Insert(x: string, s: seq<string>): (r: seq<string>)
    requires SortedStrings(s) && x !in s
    ensures multiset(r) == multiset(s) + multiset{x}
    ensures SortedStrings(r)
  {
    if s == [] then [x]
    else if StrLess(x, s[0]) then
      InsertFront(x, s);
      [x] + s
    else
      StrLessTotal(x, s[0]);
      var rest := Insert(x, s[1..]);
      InsertBehind(x, s, rest);
      assert s == [s[0]] + s[1..];
      [s[0]] + rest
  }

  lemma InsertFront(x: string, s: seq<string>)
    requires SortedStrings(s) && s != [] && StrLess(x, s[0])
    ensures SortedStrings([x] + s)
  {
    var t := [x] + s;
    forall i, j | 0 <= i < j < |t|
      ensures StrLess(t[i], t[j])
    {
      if i == 0 && j > 1 {
        StrLessTransitive(x, s[0], s[j - 1]);
      }
    }
  }

  lemma InsertBehind(x: string, s: seq<string>, rest: seq<string>)
    requires SortedStrings(s) && s != [] && StrLess(s[0], x)
    requires SortedStrings(rest) && multiset(rest) == multiset(s[1..]) + multiset{x}
    ensures SortedStrings([s[0]] + rest)
  {
    forall j | 0 <= j < |rest|
      ensures StrLess(s[0], rest[j])
    {
      assert rest[j] in multiset(rest);
      if rest[j] != x {
        assert rest[j] in multiset(s[1..]);
        var k :| 0 <= k < |s[1..]| && s[1..][k] == rest[j];
        assert s[k + 1] == rest[j];
      }
    }
  }

  /** `sorted(names)` for distinct names. */
  function SortStrings(names: seq<string>): (r: seq<string>)
    requires Distinct(names)
    ensures multiset(r) == multiset(names) && |r| == |names|
    ensures SortedStrings(r)
  {
    if names == [] then []
    else
      var init, last := names[..|names| - 1], names[|names| - 1];
      DistinctSplit(names);
      var sortedInit := SortStrings(init);
      assert last !in sortedInit by {
        assert last in sortedInit ==> last in multiset(init);
      }
      var r := Insert(last, sortedInit);
      assert multiset(names) == multiset(init) + multiset{last} by {
        assert names == init + [last];
      }
      r
  }

  lemma DistinctSplit(names: seq<string>)
    requires Distinct(names) && names != []
    ensures Distinct(names[..|names| - 1]) && names[|names| - 1] !in names[..|names| - 1]
  {
  }

  // ---------------------------------------------------------------------
  // interactive_mode

  /** One line typed at the selection prompt, after `strip()`: `done` or
      `all` in any letter case, a comma-separated list of integers, any
      other non-blank text (on which `int()` raises `ValueError`), a blank
      line, or Ctrl-C (`KeyboardInterrupt`). */
  datatype Line = Done | All | Numbers(values: seq<int>) | NotNumbers | Blank | Interrupt

  /** A line that ends the prompt loop. */
  predicate Decisive(line: Line)
  {
    line.Done? || line.All? || line.Interrupt?
  }

  /** One number typed: the name it stands for in the sorted list is
      appended, unless it is out of range or already selected. */
  function AddNumber(list: seq<string>, selected: seq<string>, num: int): seq<string>
  {
    if 1 <= num <= |list| && list[num - 1] !in selected then selected + [list[num - 1]] else selected
  }

  /** The numbers of one line, in order. */
  function AddNumbers(list: seq<string>, selected: seq<string>, nums: seq<int>): seq<string>
  {
    if nums == [] then selected
    else AddNumber(list, AddNumbers(list, selected, nums[..|nums| - 1]), nums[|nums| - 1])
  }

  /** The prompt loop from `lines` on, with `selected` chosen so far: None
      when the input runs out (`input()` raises `EOFError`, which nothing
      catches). */
  function Interact(keys: seq<string>, list: seq<string>, selected: seq<string>, lines: seq<Line>): Option<seq<string>>
    decreases |lines|
  {
    if lines == [] then None
    else
      match lines[0]
      case Done => Some(selected)
      case All => Some(keys)
      case Interrupt => Some([])
      case Numbers(nums) => Interact(keys, list, AddNumbers(list, selected, nums), lines[1..])
      case NotNumbers => Interact(keys, list, selected, lines[1..])
      case Blank => Interact(keys, list, selected, lines[1..])
  }

  /** What `interactive_mode` returns for a catalog whose names, in
      insertion order, are `keys`: numbers refer to the sorted names. */
  function InteractiveSelection(keys: seq<string>, lines: seq<Line>): Option<seq<string>>
    requires Distinct(keys)
  {
    if keys == [] then Some([]) else Interact(keys, SortStrings(keys), [], lines)
  }

  /** `interactive_mode`: an empty catalog selects nothing; otherwise lines
      are read until `done`, `all` or Ctrl-C. */
  method InteractiveMode(keys: seq<string>, lines: seq<Line>) returns (r: Option<seq<string>>)
    requires Distinct(keys)
    ensures r == InteractiveSelection(keys, lines)
  {
    if keys == [] {
      return Some([]);
    }
    var selected: seq<string> := [];
    var patchList := SortStrings(keys);
    var k := 0;
    while true
      invariant k <= |lines|
      invariant InteractiveSelection(keys, lines) == Interact(keys, patchList, selected, lines[k..])
      decreases |lines| - k
    {
      if k == |lines| {
        return None;
      }
      var line := lines[k];
      assert lines[k..][1..] == lines[k + 1..];
      k := k + 1;
      match line
      case Done => return Some(selected);
      case All => return Some(keys);
      case Interrupt => return Some([]);
      case Numbers(numbers) =>
        selected := SelectNumbers(patchList, selected, numbers);
      case NotNumbers =>
      case Blank =>
    }
  }

  /** The loop over the numbers of one line. */
  method SelectNumbers(patchList: seq<string>, selected: seq<string>, numbers: seq<int>) returns (r: seq<string>)
    ensures r == AddNumbers(patchList, selected, numbers)
  {
    r := selected;
    for m := 0 to |numbers|
      invariant r == AddNumbers(patchList, selected, numbers[..m])
    {
      assert numbers[..m + 1][..m] == numbers[..m];
      var num := numbers[m];
      if 1 <= num <= |patchList| {
        var patchName := patchList[num - 1];
        if patchName !in r {
          r := r + [patchName];
        }
      }
    }
    assert numbers[..|numbers|] == numbers;
  }

  /** The numbers of a line only ever append: what was selected stays, in
      place; a name is added exactly when some number in range names it;
      and no name is selected twice. */
  lemma {:induction false} AddNumbersMeaning(list: seq<string>, selected: seq<string>, nums: seq<int>)
    ensures |selected| <= |AddNumbers(list, selected, nums)|
    ensures AddNumbers(list, selected, nums)[..|selected|] == selected
    ensures forall x :: x in AddNumbers(list, selected, nums) <==>
      x in selected || exists n :: n in nums && 1 <= n <= |list| && list[n - 1] == x
    ensures Distinct(selected) ==> Distinct(AddNumbers(list, selected, nums))
  {
    if nums != [] {
      var init, n := nums[..|nums| - 1], nums[|nums| - 1];
      AddNumbersMeaning(list, selected, init);
      var before := AddNumbers(list, selected, init);
      assert nums == init + [n];
      forall x
        ensures x in AddNumbers(list, selected, nums) <==>
          x in selected || exists m :: m in nums && 1 <= m <= |list| && list[m - 1] == x
      {
        assert AddNumbers(list, selected, nums) == AddNumber(list, before, n);
        assert x in AddNumber(list, before, n) <==> x in before || (1 <= n <= |list| && list[n - 1] == x);
        if x in before && x !in selected {
          var m :| m in init && 1 <= m <= |list| && list[m - 1] == x;
          assert m in nums;
        }
        if x !in before && 1 <= n <= |list| && list[n - 1] == x {
          assert n in nums;
        }
        if x !in selected && exists m :: m in nums && 1 <= m <= |list| && list[m - 1] == x {
          var m :| m in nums && 1 <= m <= |list| && list[m - 1] == x;
          if m != n {
            assert m in init;
          }
        }
      }
    }
  }

  /** Everything the prompt loop can return is a list of catalog names
      without repetition. */
  lemma {:induction false} InteractSelectsCatalogNames(keys: seq<string>, list: seq<string>, selected: seq<string>, lines: seq<Line>)
    requires Distinct(keys) && Distinct(selected)
    requires forall x :: x in list ==> x in keys
    requires forall x :: x in selected ==> x in keys
    ensures Interact(keys, list, selected, lines).Some? ==>
      Distinct(Interact(keys, list, selected, lines).value) &&
      forall x :: x in Interact(keys, list, selected, lines).value ==> x in keys
    decreases |lines|
  {
    if lines != [] {
      match lines[0]
      case Numbers(nums) =>
        AddNumbersMeaning(list, selected, nums);
        InteractSelectsCatalogNames(keys, list, AddNumbers(list, selected, nums), lines[1..]);
      case NotNumbers =>
        InteractSelectsCatalogNames(keys, list, selected, lines[1..]);
      case Blank =>
        InteractSelectsCatalogNames(keys, list, selected, lines[1..]);
      case Done =>
      case All =>
      case Interrupt =>
    }
  }

  /** The interactive selection names each patch of the catalog at most
      once and nothing outside it. */
  lemma InteractiveSelectionWithinCatalog(keys: seq<string>, lines: seq<Line>)
    requires Distinct(keys)
    ensures InteractiveSelection(keys, lines).Some? ==>
      Distinct(InteractiveSelection(keys, lines).value) &&
      forall x :: x in InteractiveSelection(keys, lines).value ==> x in keys
  {
    if keys != [] {
      var list := SortStrings(keys);
      forall x | x in list
        ensures x in keys
      {
        assert x in multiset(list);
      }
      InteractSelectsCatalogNames(keys, list, [], lines);
    }
  }

  /** The names gathered by the number lines of `lines`, read in order. */
  function Gathered(list: seq<string>, selected: seq<string>, lines: seq<Line>): seq<string>
    decreases |lines|
  {
    if lines == [] then selected
    else
      var next := if lines[0].Numbers? then AddNumbers(list, selected, lines[0].values) else selected;
      Gathered(list, next, lines[1..])
  }

  /** The prompt loop is decided by its first `done`, `all` or Ctrl-C line:
      `all` selects the whole catalog, Ctrl-C cancels to nothing, and
      `done` returns what the number lines before it gathered. */
  lemma {:induction false} InteractOutcome(keys: seq<string>, list: seq<string>, selected: seq<string>, lines: seq<Line>, m: nat)
    requires m < |lines| && Decisive(lines[m])
    requires forall k :: 0 <= k < m ==> !Decisive(lines[k])
    ensures lines[m].All? ==> Interact(keys, list, selected, lines) == Some(keys)
    ensures lines[m].Interrupt? ==> Interact(keys, list, selected, lines) == Some([])
    ensures lines[m].Done? ==> Interact(keys, list, selected, lines) == Some(Gathered(list, selected, lines[..m]))
    decreases m
  {
    if m > 0 {
      assert !Decisive(lines[0]);
      var next := if lines[0].Numbers? then AddNumbers(list, selected, lines[0].values) else selected;
      assert lines[1..][..m - 1] == lines[..m][1..];
      InteractOutcome(keys, list, next, lines[1..], m - 1);
    }
  }

  /** Without a `done`, `all` or Ctrl-C line the input runs out and the
      prompt fails. */
  lemma {:induction false} InteractWithoutDecision(keys: seq<string>, list: seq<string>, selected: seq<string>, lines: seq<Line>)
    requires forall k :: 0 <= k < |lines| ==> !Decisive(lines[k])
    ensures Interact(keys, list, selected, lines) == None
    decreases |lines|
  {
    if lines != [] {
      assert !Decisive(lines[0]);
      var next := if lines[0].Numbers? then AddNumbers(list, selected, lines[0].values) else selected;
      InteractWithoutDecision(keys, list, next, lines[1..]);
    }
  }

  // ---------------------------------------------------------------------
  // main

  /** The available patches: their names in discovery order, each mapped
      to the path of its `.ips` file. */
  ghost predicate Catalog(keys: seq<string>, paths: map<string, string>)
  {
    Distinct(keys) && forall n :: n in keys <==> n in paths
  }

  /** The first requested name that is not in the catalog, if any. */
  function FirstUnknown(requested: seq<string>, paths: map<string, string>): (r: Option<string>)
    ensures r.None? <==> forall k :: 0 <= k < |requested| ==> requested[k] in paths
    ensures r.Some? ==> r.value !in paths && exists k :: (0 <= k < |requested| && requested[k] == r.value &&
      forall j :: 0 <= j < k ==> requested[j] in paths)
  {
    if requested == [] then None
    else if requested[0] !in paths then Some(requested[0])
    else
      var r := FirstUnknown(requested[1..], paths);
      assert forall j :: 1 <= j < |requested| ==> requested[j] == requested[1..][j - 1];
      r
  }

  /** The name validation in `main`: the requested names are selected in
      the order given, unless one is not available, in which case the run
      stops on the first such name. */
  method ValidateNames(requested: seq<string>, paths: map<string, string>) returns (selected: seq<string>, unknown: Option<string>)
    ensures unknown == FirstUnknown(requested, paths)
    ensures unknown.None? ==> selected == requested
  {
    selected := [];
    for k := 0 to |requested|
      invariant selected == requested[..k]
      invariant forall j :: 0 <= j < k ==> requested[j] in paths
    {
      var patchName := requested[k];
      if patchName in paths {
        selected := selected + [patchName];
      } else {
        return selected, Some(patchName);
      }
    }
    return selected, None;
  }

  /** The write fault, if any, that the `k`th selected patch meets. */
  function FaultAt(faults: seq<Option<nat>>, k: nat): Option<nat>
  {
    if k < |faults| then faults[k] else None
  }

  /** The ROM after the patches at `patchPaths` are applied one after the
      other; a patch that fails keeps the writes it made before failing. */
  function ApplyAll(s: seq<bv8>, patchPaths: seq<string>, fs: FileSystem, faults: seq<Option<nat>>): (r: seq<bv8>)
    ensures |r| >= |s|
  {
    if patchPaths == [] then s
    else
      var n := |patchPaths| - 1;
      PatchEffect(ApplyAll(s, patchPaths[..n], fs, faults), patchPaths[n], fs, FaultAt(faults, n))
  }

  /** How many of the patches at `patchPaths` apply without an exception. */
  function SuccessCount(patchPaths: seq<string>, fs: FileSystem, faults: seq<Option<nat>>): (n: nat)
    ensures n <= |patchPaths|
  {
    if patchPaths == [] then 0
    else
      var n := |patchPaths| - 1;
      SuccessCount(patchPaths[..n], fs, faults) + if PatchApplies(patchPaths[n], fs, FaultAt(faults, n)) then 1 else 0
  }

  /** The success count is at most the number of patches attempted; it
      equals it exactly when every patch applies, and it is 0 exactly when
      none does. */
  lemma SuccessCountMeaning(patchPaths: seq<string>, fs: FileSystem, faults: seq<Option<nat>>)
    ensures SuccessCount(patchPaths, fs, faults) <= |patchPaths|
    ensures SuccessCount(patchPaths, fs, faults) == |patchPaths| <==>
      forall k :: 0 <= k < |patchPaths| ==> PatchApplies(patchPaths[k], fs, FaultAt(faults, k))
    ensures SuccessCount(patchPaths, fs, faults) == 0 <==>
      forall k :: 0 <= k < |patchPaths| ==> !PatchApplies(patchPaths[k], fs, FaultAt(faults, k))
  {
    AllSucceed(patchPaths, fs, faults);
    NoneSucceed(patchPaths, fs, faults);
  }

  lemma {:induction false} AllSucceed(patchPaths: seq<string>, fs: FileSystem, faults: seq<Option<nat>>)
    ensures SuccessCount(patchPaths, fs, faults) == |patchPaths| <==>
      forall k :: 0 <= k < |patchPaths| ==> PatchApplies(patchPaths[k], fs, FaultAt(faults, k))
  {
    if patchPaths != [] {
      var n := |patchPaths| - 1;
      var init := patchPaths[..n];
      AllSucceed(init, fs, faults);
      assert forall k :: 0 <= k < n ==> init[k] == patchPaths[k];
    }
  }

  lemma {:induction false} NoneSucceed(patchPaths: seq<string>, fs: FileSystem, faults: seq<Option<nat>>)
    ensures SuccessCount(patchPaths, fs, faults) == 0 <==>
      forall k :: 0 <= k < |patchPaths| ==> !PatchApplies(patchPaths[k], fs, FaultAt(faults, k))
  {
    if patchPaths != [] {
      var n := |patchPaths| - 1;
      var init := patchPaths[..n];
      NoneSucceed(init, fs, faults);
      assert forall k :: 0 <= k < n ==> init[k] == patchPaths[k];
    }
  }

  /** The loop of `main` that applies the selected patches to the copied
      ROM, counting those that succeed. */
  method ApplySelected(patchPaths: seq<string>, fs: FileSystem, rom: GBFile, faults: seq<Option<nat>>) returns (successCount: nat)
    modifies rom
    ensures successCount == SuccessCount(patchPaths, fs, faults)
    ensures rom.contents == ApplyAll(old(rom.contents), patchPaths, fs, faults)
  {
    successCount := 0;
    for k := 0 to |patchPaths|
      invariant successCount == SuccessCount(patchPaths[..k], fs, faults)
      invariant rom.contents == ApplyAll(old(rom.contents), patchPaths[..k], fs, faults)
    {
      assert patchPaths[..k + 1][..k] == patchPaths[..k];
      var ok := ApplyPatch(patchPaths[k], fs, rom, FaultAt(faults, k));
      if ok {
        successCount := successCount + 1;
      }
    }
    assert patchPaths[..|patchPaths|] == patchPaths;
  }

  /** The command line, once parsed. */
  datatype Args = Args(help: bool, list: bool, all: bool, interactive: bool, force: bool,
                       input: string, output: string, patches: seq<string>)

  /** Why `main` returned without patching: before the ROM is copied, or
      because the copy raised (`SameFile`). */
  datatype Reason = Help | Listing | NothingSpecified | UnknownPatch(name: string) | InputEnded
                  | NothingSelected | InputMissing | Declined | SameFile

  /** How a run ends: without patching, after copying the ROM when the
      output name is refused, or with the patches applied to the copy. */
  datatype Outcome =
    | Exited(reason: Reason)
    | Copied(rom: seq<bv8>)
    | Patched(rom: seq<bv8>, succeeded: nat, attempted: nat)

  datatype Choice = Chosen(names: seq<string>) | Stop(reason: Reason)

  /** The patches `main` selects: all of them, those picked at the prompt,
      or those named on the command line. */
  function Selected(args: Args, keys: seq<string>, paths: map<string, string>, lines: seq<Line>): (r: Choice)
    requires Catalog(keys, paths)
    ensures r.Chosen? ==> forall n :: n in r.names ==> n in paths
  {
    if args.all then Chosen(keys)
    else if args.interactive then
      InteractiveSelectionWithinCatalog(keys, lines);
      match InteractiveSelection(keys, lines)
      case None => Stop(InputEnded)
      case Some(names) => Chosen(names)
    else if args.patches != [] then
      match FirstUnknown(args.patches, paths)
      case Some(name) => Stop(UnknownPatch(name))
      case None => Chosen(args.patches)
    else Stop(NothingSpecified)
  }

  /** The paths the catalog gives the selected patches. */
  function PathsOf(names: seq<string>, paths: map<string, string>): (r: seq<string>)
    requires forall n :: n in names ==> n in paths
    ensures |r| == |names| && forall k :: 0 <= k < |names| ==> r[k] == paths[names[k]]
  {
    seq(|names|, k requires 0 <= k < |names| => paths[names[k]])
  }

  /** The part of `main` before the ROM is copied, given the answer
      `confirm` to the conflict question: the patches to apply, or why the
      run stops. An unknown patch name stops it; patches that go on are
      available and at least one, and the input ROM exists. */
  function Prepare(args: Args, keys: seq<string>, paths: map<string, string>, fs: FileSystem,
                   lines: seq<Line>, confirm: bool): (r: Choice)
    requires Catalog(keys, paths)
    ensures !args.help && !args.list && !args.all && !args.interactive && FirstUnknown(args.patches, paths).Some? ==>
      r == Stop(UnknownPatch(FirstUnknown(args.patches, paths).value))
    ensures r.Chosen? ==> r.names != [] && args.input in fs && forall n :: n in r.names ==> n in paths
  {
    if args.help then Stop(Help)
    else if args.list then Stop(Listing)
    else
      match Selected(args, keys, paths, lines)
      case Stop(reason) => Stop(reason)
      case Chosen(names) =>
        if names == [] then Stop(NothingSelected)
        else if args.input !in fs then Stop(InputMissing)
        else if !args.force && ConflictWarning(PathsOf(names, paths), fs).Some? && !confirm then Stop(Declined)
        else Chosen(names)
  }

  /** The copy of the ROM and the patching, as `main` is written. When the
      output is the input, the backup is made and then copying the file onto
      itself raises `SameFileError`, which the handler of `main` catches:
      nothing is patched. An output name without `.gb` is refused by
      `GBFile` after the copy. */
  function CopyAndPatch(input: string, output: string, fs: FileSystem, patchPaths: seq<string>,
                        faults: seq<Option<nat>>): (r: Outcome)
    requires input in fs
    ensures output == input ==> r.Exited?
    ensures r.Patched? ==> r.attempted == |patchPaths| && r.succeeded <= r.attempted
  {
    if output == input then Exited(SameFile)
    else if !EndsWith(output, ".gb") then Copied(fs[input])
    else
      SuccessCountMeaning(patchPaths, fs, faults);
      Patched(ApplyAll(fs[input], patchPaths, fs, faults), SuccessCount(patchPaths, fs, faults), |patchPaths|)
  }

  /** The copy and the patching as the backup branch of `main` intends: a
      run whose output is its input patches the ROM in place, its original
      bytes kept in the backup. */
  function CopyAndPatchInPlace(input: string, output: string, fs: FileSystem, patchPaths: seq<string>,
                               faults: seq<Option<nat>>): (r: Outcome)
    requires input in fs
    ensures !r.Exited?
    ensures r.Patched? ==> r.attempted == |patchPaths| && r.succeeded <= r.attempted
  {
    if !EndsWith(output, ".gb") then Copied(fs[input])
    else
      SuccessCountMeaning(patchPaths, fs, faults);
      Patched(ApplyAll(fs[input], patchPaths, fs, faults), SuccessCount(patchPaths, fs, faults), |patchPaths|)
  }

  /** The two differ only when the output is the input: there the program
      as written patches nothing, while an in-place run with a `.gb` name
      applies every patch to the input's bytes, and counts all of them when
      all apply. */
  lemma {:induction false} InPlaceDiscrepancy(input: string, output: string, fs: FileSystem, patchPaths: seq<string>,
                                              faults: seq<Option<nat>>)
    requires input in fs
    ensures output != input ==>
      CopyAndPatch(input, output, fs, patchPaths, faults) == CopyAndPatchInPlace(input, output, fs, patchPaths, faults)
    ensures output == input ==> CopyAndPatch(input, output, fs, patchPaths, faults) == Exited(SameFile)
    ensures output == input && EndsWith(output, ".gb") ==>
      && CopyAndPatchInPlace(input, output, fs, patchPaths, faults).Patched?
      && CopyAndPatchInPlace(input, output, fs, patchPaths, faults).rom == ApplyAll(fs[input], patchPaths, fs, faults)
      && ((forall k :: 0 <= k < |patchPaths| ==> PatchApplies(patchPaths[k], fs, FaultAt(faults, k))) ==>
            CopyAndPatchInPlace(input, output, fs, patchPaths, faults).succeeded == |patchPaths|)
  {
    SuccessCountMeaning(patchPaths, fs, faults);
  }

  /** A concrete in-place run: ROM `a.gb` patched into itself with patch
      `p`, whose container holds no records. As written it ends with
      `SameFile` and nothing patched; in place it would count one success. */
  lemma InPlaceRunExample()
    ensures var fs: FileSystem := map["a.gb" := [0], "p.ips" := Magic];
      && RunOutcome(Args(false, false, false, false, true, "a.gb", "a.gb", ["p"]), ["p"], map["p" := "p.ips"],
                    fs, [], false, []) == Exited(SameFile)
      && CopyAndPatchInPlace("a.gb", "a.gb", fs, ["p.ips"], []) == Patched([0], 1, 1)
  {
    var fs: FileSystem := map["a.gb" := [0], "p.ips" := Magic];
    var args := Args(false, false, false, false, true, "a.gb", "a.gb", ["p"]);
    var paths := map["p" := "p.ips"];
    assert Catalog(["p"], paths);
    assert FirstUnknown(["p"], paths) == None;
    assert Prepare(args, ["p"], paths, fs, [], false) == Chosen(["p"]);
    assert PathsOf(["p"], paths) == ["p.ips"];
    assert EndsWith("a.gb", ".gb") by {
      assert "a.gb"[|"a.gb"| - |".gb"|..] == ".gb";
    }
    assert EndsWith("p.ips", ".ips") by {
      assert "p.ips"[|"p.ips"| - |".ips"|..] == ".ips";
    }
    assert ReadAt(Magic, 0, 5) == Magic;
    assert RecordsFrom(Magic, 5) == [] by {
      assert ReadAt(Magic, 5, 3) == [];
    }
    assert Open("p.ips", fs) == Ok(Ips([]));
    assert PatchApplies("p.ips", fs, None);
    assert ["p.ips"][..0] == [];
    assert ApplyAll([0], ["p.ips"], fs, []) == [0];
    assert SuccessCount(["p.ips"], fs, []) == 1;
  }

  /** What a run of `main` does, given the answer `confirm` to the
      conflict question and the write faults the patches meet. An unknown
      patch name stops the run before the ROM is copied; a run whose output
      is its input patches nothing; a run that reaches the copy has an
      existing input; a patched ROM counts at most as many successes as
      patches attempted. */
  function RunOutcome(args: Args, keys: seq<string>, paths: map<string, string>, fs: FileSystem,
                      lines: seq<Line>, confirm: bool, faults: seq<Option<nat>>): (r: Outcome)
    requires Catalog(keys, paths)
    ensures !args.help && !args.list && !args.all && !args.interactive && FirstUnknown(args.patches, paths).Some? ==>
      r == Exited(UnknownPatch(FirstUnknown(args.patches, paths).value))
    ensures args.output == args.input ==> r.Exited?
    ensures !r.Exited? ==> args.input in fs
    ensures r.Patched? ==> 0 < r.attempted && r.succeeded <= r.attempted
  {
    match Prepare(args, keys, paths, fs, lines, confirm)
    case Stop(reason) => Exited(reason)
    case Chosen(names) => CopyAndPatch(args.input, args.output, fs, PathsOf(names, paths), faults)
  }

  /** `main` after argument parsing. */
  method Run(args: Args, keys: seq<string>, paths: map<string, string>, fs: FileSystem,
             lines: seq<Line>, confirm: bool, faults: seq<Option<nat>>) returns (outcome: Outcome)
    requires Catalog(keys, paths)
    ensures outcome == RunOutcome(args, keys, paths, fs, lines, confirm, faults)
  {
    if args.help {
      return Exited(Help);
    }
    if args.list {
      return Exited(Listing);
    }
    var selectedPatches: seq<string> := [];
    if args.all {
      selectedPatches := keys;
    } else if args.interactive {
      var picked := InteractiveMode(keys, lines);
      if picked.None? {
        return Exited(InputEnded);
      }
      selectedPatches := picked.value;
    } else if args.patches != [] {
      var unknown;
      selectedPatches, unknown := ValidateNames(args.patches, paths);
      if unknown.Some? {
        return Exited(UnknownPatch(unknown.value));
      }
    } else {
      return Exited(NothingSpecified);
    }
    assert Selected(args, keys, paths, lines) == Chosen(selectedPatches);
    if selectedPatches == [] {
      return Exited(NothingSelected);
    }
    if args.input !in fs {
      return Exited(InputMissing);
    }
    var patchPaths := PathsOf(selectedPatches, paths);
    if !args.force {
      var conflict, _ := CheckPatchConflicts(patchPaths, fs);
      if conflict && !confirm {
        return Exited(Declined);
      }
    }
    if args.output == args.input {
      return Exited(SameFile);
    }
    if !EndsWith(args.output, ".gb") {
      return Copied(fs[args.input]);
    }
    var gbFile := new GBFile(fs[args.input]);
    var successCount := ApplySelected(patchPaths, fs, gbFile, faults);
    return Patched(gbFile.contents, successCount, |selectedPatches|);
  }
}
