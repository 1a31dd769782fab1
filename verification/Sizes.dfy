/** The disk space of a package, in blocks, and the space asked for on external storage, in megabytes. */
module Sizes {
  import opened FileTree

  newtype int64 = x: int | -0x8000_0000_0000_0000 <= x < 0x8000_0000_0000_0000
  newtype int32 = x: int | -0x8000_0000 <= x < 0x8000_0000

  const MAX64: int := 0x7fff_ffff_ffff_ffff
  const MAX32: int := 0x7fff_ffff

  // Multiples, in facts small enough for the solver.

  function Times(n: int, b: int): int {
    n * b
  }

  predicate IsMultiple(x: int, b: int)
    requires b > 0
  {
    x % b == 0
  }

  lemma LessTimes(n: int, m: int, b: int)
    requires n <= m && b >= 0
    ensures Times(n, b) <= Times(m, b)
  {}

  lemma AddTimes(n: int, m: int, b: int)
    ensures Times(n + m, b) == Times(n, b) + Times(m, b)
  {}

  lemma Remainder(n: int, q: int, r: int, b: int)
    requires 0 < b && 0 <= r < b && Times(n, b) == Times(q, b) + r
    ensures r == 0
  {
    AddTimes(n - q, q, b);
    if n > q { LessTimes(1, n - q, b); }
    if n < q { LessTimes(n - q, -1, b); }
  }

  lemma TimesIsMultiple(n: int, b: int)
    requires 0 < b
    ensures IsMultiple(Times(n, b), b)
  {
    var x := Times(n, b);
    Remainder(n, x / b, x % b, b);
  }

  lemma AddMultiple(x: int, y: int, b: int)
    requires 0 < b && IsMultiple(x, b) && IsMultiple(y, b)
    ensures IsMultiple(x + y, b)
  {
    assert x == Times(x / b, b) && y == Times(y / b, b);
    AddTimes(x / b, y / b, b);
    TimesIsMultiple(x / b + y / b, b);
  }

  /** How many blocks hold `size` bytes. */
  function Blocks(size: int, b: int): int
    requires 0 < b
  {
    (size + b - 1) / b
  }

  lemma BlocksAreEnough(size: int, b: int)
    requires 0 <= size && 0 < b
    ensures 0 <= Blocks(size, b) && size <= Times(Blocks(size, b), b) < size + b
  {}

  /** The least multiple of the block size that holds `size` bytes. */
  function RoundUpToBlockSizeOf(size: int64, blockSize: int64): (r: int64)
    requires 0 <= size && 0 < blockSize && size as int + blockSize as int <= MAX64
    ensures IsMultiple(r as int, blockSize as int) && size <= r && r as int < size as int + blockSize as int
  {
    BlocksAreEnough(size as int, blockSize as int);
    TimesIsMultiple(Blocks(size as int, blockSize as int), blockSize as int);
    ((size + blockSize - 1) / blockSize) * blockSize
  }

  /** No smaller multiple holds the file. */
  lemma RoundUpIsLeast(size: int64, blockSize: int64, n: int)
    requires 0 <= size && 0 < blockSize && size as int + blockSize as int <= MAX64
    requires size as int <= Times(n, blockSize as int)
    ensures RoundUpToBlockSizeOf(size, blockSize) as int <= Times(n, blockSize as int)
  {
    hide Times, IsMultiple, Blocks, RoundUpToBlockSizeOf;
    var b := blockSize as int;
    RoundUpIsTimes(size, blockSize);
    BlocksAreEnough(size as int, b);
    FewerBlocks(Blocks(size as int, b), n, size as int, b);
  }

  lemma FewerBlocks(k: int, n: int, size: int, b: int)
    requires 0 < b && Times(k, b) < size + b && size <= Times(n, b)
    ensures Times(k, b) <= Times(n, b)
  {
    hide Times;
    AddTimes(k - 1, 1, b);
    OneTimes(b);
    if n < k {
      LessTimes(n, k - 1, b);
    } else {
      LessTimes(k, n, b);
    }
  }

  lemma RoundUpIsTimes(size: int64, blockSize: int64)
    requires 0 <= size && 0 < blockSize && size as int + blockSize as int <= MAX64
    ensures RoundUpToBlockSizeOf(size, blockSize) as int ==
      Times(Blocks(size as int, blockSize as int), blockSize as int)
  {}

  type Sizes = seq<Option<int64>>

  /** The bytes of the files whose size can be read. */
  function Bytes(sizes: Sizes): int {
    if sizes == [] then 0 else Bytes(sizes[..|sizes| - 1]) + sizes[|sizes| - 1].GetOr(0) as int
  }

  /** The same files in whole blocks. */
  function Occupied(sizes: Sizes, blockSize: int): int
    requires blockSize > 0
  {
    if sizes == [] then 0
    else
      Occupied(sizes[..|sizes| - 1], blockSize) +
      Times(Blocks(sizes[|sizes| - 1].GetOr(0) as int, blockSize), blockSize)
  }

  ghost predicate NonNegative(sizes: Sizes) {
    forall s | s in sizes && s.Some? :: 0 <= s.value
  }

  /** Whole blocks, enough for the files, and less than one block too many for each. */
  lemma {:induction false} OccupiedIsEnough(sizes: Sizes, b: int)
    requires b > 0 && NonNegative(sizes)
    ensures IsMultiple(Occupied(sizes, b), b)
    ensures 0 <= Bytes(sizes) <= Occupied(sizes, b) <= Bytes(sizes) + Times(|sizes|, b - 1)
  {
    hide Times, IsMultiple, Blocks;
    if sizes == [] {
      NoTimes(b);
      NoTimes(b - 1);
      TimesIsMultiple(0, b);
    } else {
      var n := |sizes| - 1;
      var last := sizes[n].GetOr(0) as int;
      assert sizes[n] in sizes;
      OccupiedIsEnough(sizes[..n], b);
      BlocksAreEnough(last, b);
      TimesIsMultiple(Blocks(last, b), b);
      AddMultiple(Occupied(sizes[..n], b), Times(Blocks(last, b), b), b);
      AddTimes(n, 1, b - 1);
      OneTimes(b - 1);
    }
  }

  lemma NoTimes(b: int)
    ensures Times(0, b) == 0
  {}

  lemma OneTimes(b: int)
    ensures Times(1, b) == b
  {}

  lemma {:induction false} PartIsLess(sizes: Sizes, i: nat, b: int)
    requires b > 0 && i <= |sizes| && NonNegative(sizes)
    ensures 0 <= Occupied(sizes[..i], b) <= Occupied(sizes, b)
    decreases |sizes|
  {
    hide Times, IsMultiple, Blocks;
    OccupiedIsEnough(sizes[..i], b);
    if i == |sizes| {
      assert sizes[..i] == sizes;
    } else {
      var shorter := sizes[..|sizes| - 1];
      assert shorter[..i] == sizes[..i] && sizes[|sizes| - 1] in sizes;
      PartIsLess(shorter, i, b);
      BlocksAreEnough(sizes[|sizes| - 1].GetOr(0) as int, b);
    }
  }

  /** What a 64-bit total can hold. */
  ghost predicate Measurable(sizes: Sizes, blockSize: int64) {
    blockSize > 0 && NonNegative(sizes) && Bytes(sizes) + Times(|sizes|, blockSize as int) <= MAX64
  }

  /** Adds up the files, in whole blocks; -1 when one of them cannot be read. */
  method AddUp(blockSize: int64, sizes: Sizes) returns (size: int64)
    requires Measurable(sizes, blockSize)
    ensures None in sizes ==> size == -1
    ensures None !in sizes ==> size as int == Occupied(sizes, blockSize as int)
  {
    size := 0;
    var i := 0;
    while i < |sizes|
      invariant 0 <= i <= |sizes|
      invariant None !in sizes[..i] && size as int == Occupied(sizes[..i], blockSize as int)
    {
      if sizes[i].None? {
        return -1;
      }
      OneMore(sizes, i, blockSize);
      assert sizes[..i + 1] == sizes[..i] + [sizes[i]];
      size := size + RoundUpToBlockSizeOf(sizes[i].value, blockSize);
      i := i + 1;
    }
    assert sizes[..i] == sizes;
  }

  /** One file more is still within 64 bits. */
  lemma OneMore(sizes: Sizes, i: nat, blockSize: int64)
    requires i < |sizes| && sizes[i].Some? && Measurable(sizes, blockSize)
    ensures 0 <= sizes[i].value && sizes[i].value as int + blockSize as int <= MAX64
    ensures Occupied(sizes[..i + 1], blockSize as int) ==
      Occupied(sizes[..i], blockSize as int) + RoundUpToBlockSizeOf(sizes[i].value, blockSize) as int
    ensures 0 <= Occupied(sizes[..i], blockSize as int) && Occupied(sizes[..i + 1], blockSize as int) <= MAX64
  {
    hide Times, IsMultiple, Blocks, Occupied, Bytes;
    var b := blockSize as int;
    assert sizes[i] in sizes;
    SizeIsPart(sizes, i);
    OccupiedIsEnough(sizes, b);
    PartIsLess(sizes, i, b);
    PartIsLess(sizes, i + 1, b);
    LessTimes(1, |sizes|, b);
    OneTimes(b);
    FewerTimes(|sizes|, b);
    RoundUpIsTimes(sizes[i].value, blockSize);
    OccupiedStep(sizes, i, b);
  }

  lemma OccupiedStep(sizes: Sizes, i: nat, b: int)
    requires i < |sizes| && b > 0
    ensures Occupied(sizes[..i + 1], b) == Occupied(sizes[..i], b) + Times(Blocks(sizes[i].GetOr(0) as int, b), b)
  {
    assert sizes[..i + 1][..i] == sizes[..i];
  }

  lemma FewerTimes(n: nat, b: int)
    ensures Times(n, b - 1) <= Times(n, b)
  {}

  lemma {:induction false} SizeIsPart(sizes: Sizes, i: nat)
    requires i < |sizes| && sizes[i].Some? && NonNegative(sizes)
    ensures 0 <= sizes[i].value as int <= Bytes(sizes)
    decreases |sizes|
  {
    var n := |sizes| - 1;
    assert sizes[n] in sizes;
    OccupiedIsEnough(sizes[..n], 1);
    if i < n {
      SizeIsPart(sizes[..n], i);
    }
  }

  /** The entries of a directory as lstat sees them. */
  method GetDirectorySize(blockSize: int64, entries: Sizes) returns (size: int64)
    requires blockSize == -1 || Measurable(entries, blockSize)
    ensures size == -1 <==> blockSize == -1 || None in entries
    ensures size != -1 ==> IsMultiple(size as int, blockSize as int)
    ensures size != -1 ==> Bytes(entries) <= size as int <= Bytes(entries) + Times(|entries|, blockSize as int - 1)
  {
    if blockSize == -1 {
      return -1;
    }
    OccupiedIsEnough(entries, blockSize as int);
    size := AddUp(blockSize, entries);
  }

  /** The entries of an archive as unzip sees them; None when it cannot be opened. */
  method GetUnpackedPackageSize(blockSize: int64, archive: Option<Sizes>) returns (size: int64)
    requires blockSize == -1 || (blockSize > 0 && (archive.Some? ==> Measurable(archive.value, blockSize)))
    ensures size == -1 <==> blockSize == -1 || archive.None? || None in archive.value
    ensures size != -1 ==> IsMultiple(size as int, blockSize as int)
    ensures size != -1 ==>
      Bytes(archive.value) <= size as int <= Bytes(archive.value) + Times(|archive.value|, blockSize as int - 1)
  {
    if blockSize == -1 || archive.None? {
      return -1;
    }
    OccupiedIsEnough(archive.value, blockSize as int);
    size := AddUp(blockSize, archive.value);
  }

  // external_storage.cc

  const MB: int := 0x10_0000

  /** The division is unsigned: the literal is an unsigned long long. */
  function SizeInMB(size: int64): (mb: int64)
    requires -1 <= size && size as int + MB - 1 <= MAX64
    ensures size == -1 ==> mb == 0
    ensures size >= 0 ==> mb >= 0 && size as int <= mb as int * MB < size as int + MB
  {
    ((size as int % 0x1_0000_0000_0000_0000 + (MB - 1)) % 0x1_0000_0000_0000_0000 / MB) as int64
  }

  /** What is to go to external storage, measured: the three directories that may be there, and everything. */
  datatype Requirement = Requirement(dirs: seq<Option<int64>>, whole: int64)

  /** What Initialize measures: for a "wgt" package each directory that exists, otherwise the whole. A failed
      measurement is -1. */
  function Measured(wgt: bool, space: Option<Requirement>): seq<int64> {
    if space.None? then []
    else if wgt then Existing(space.value.dirs)
    else [space.value.whole]
  }

  function Existing(dirs: seq<Option<int64>>): seq<int64> {
    if dirs == [] then []
    else Existing(dirs[..|dirs| - 1]) + if dirs[|dirs| - 1].Some? then [dirs[|dirs| - 1].value] else []
  }

  /** A failed measurement counts for nothing. */
  function Total(measured: seq<int64>): int {
    if measured == [] then 0
    else
      var last := measured[|measured| - 1];
      Total(measured[..|measured| - 1]) + if last < 0 then 0 else last as int
  }

  ghost predicate Valid(measured: seq<int64>) {
    (forall m | m in measured :: -1 <= m) && Total(measured) + (|measured| + 1) * MB <= MAX32 * MB
  }

  lemma {:induction false} ExistingPrefix(dirs: seq<Option<int64>>, i: nat)
    requires i <= |dirs|
    ensures Existing(dirs[..i]) <= Existing(dirs)
    decreases |dirs|
  {
    if i == |dirs| {
      assert dirs[..i] == dirs;
    } else {
      assert dirs[..|dirs| - 1][..i] == dirs[..i];
      ExistingPrefix(dirs[..|dirs| - 1], i);
    }
  }

  lemma {:induction false} TotalPrefix(measured: seq<int64>, part: seq<int64>)
    requires part <= measured
    ensures 0 <= Total(part) <= Total(measured)
    decreases |measured|
  {
    if part == measured {
      if part != [] { TotalPrefix(part[..|part| - 1], part[..|part| - 1]); }
    } else {
      TotalPrefix(measured[..|measured| - 1], part);
    }
  }

  /** mb megabytes for these measurements: enough, and less than one too many for each. */
  ghost predicate Covers(mb: int, measured: seq<int64>) {
    Total(measured) <= mb * MB <= Total(measured) + |measured| * MB
  }

  lemma CoversMore(mb: int, all: seq<int64>, sofar: seq<int64>, m: int64)
    requires Valid(all) && sofar + [m] <= all && Covers(mb, sofar)
    ensures -1 <= m && m as int + MB - 1 <= MAX64
    ensures Covers(mb + SizeInMB(m) as int, sofar + [m])
    ensures 0 <= mb <= mb + SizeInMB(m) as int < MAX32 && 0 <= SizeInMB(m)
  {
    NextMeasured(all, sofar, m);
  }

  /** The megabytes of the directories that are there, added to one. */
  method AddDirectories(dirs: seq<Option<int64>>) returns (mb: int32)
    requires Valid(Existing(dirs))
    ensures mb >= 1 && Covers(mb as int - 1, Existing(dirs))
  {
    hide Covers, Total, SizeInMB, Valid;
    mb := 1;
    NothingToCover();
    var i := 0;
    while i < |dirs|
      invariant 0 <= i <= |dirs|
      invariant mb >= 1 && Covers(mb as int - 1, Existing(dirs[..i]))
    {
      assert dirs[..i + 1][..i] == dirs[..i];
      if dirs[i].Some? {
        ExistingPrefix(dirs, i + 1);
        CoversMore(mb as int - 1, Existing(dirs), Existing(dirs[..i]), dirs[i].value);
        assert Existing(dirs[..i + 1]) == Existing(dirs[..i]) + [dirs[i].value];
        mb := mb + SizeInMB(dirs[i].value) as int32;
      } else {
        assert Existing(dirs[..i + 1]) == Existing(dirs[..i]);
      }
      i := i + 1;
    }
    assert dirs[..i] == dirs;
  }

  lemma NothingToCover()
    ensures Covers(0, [])
  {}

  /** The megabytes asked for: never none, enough for all that was measured, and not much more. */
  method ExternalSize(wgt: bool, space: Option<Requirement>) returns (mb: int32)
    requires Valid(Measured(wgt, space))
    ensures mb >= 1
    ensures Total(Measured(wgt, space)) <= mb as int * MB
    ensures mb as int * MB <= Total(Measured(wgt, space)) + (|Measured(wgt, space)| + 1) * MB
    ensures Measured(wgt, space) == [] ==> mb == 1
    ensures space.Some? && wgt ==>
      forall d | d in space.value.dirs && d.Some? :: d.value as int <= mb as int * 0x10_0000
    ensures space.Some? && wgt ==>
      mb as int * 0x10_0000 <= Total(Existing(space.value.dirs)) + (|space.value.dirs| + 1) * 0x10_0000
    ensures space.Some? && !wgt && space.value.whole > 0 ==>
      space.value.whole as int <= mb as int * 0x10_0000 < space.value.whole as int + 0x10_0000
  {
    hide SizeInMB;
    mb := 1;
    if space.Some? {
      if wgt {
        mb := AddDirectories(space.value.dirs);
        ghost var dirs := space.value.dirs;
        ExistingIsNoMore(dirs);
        forall d | d in dirs && d.Some? ensures d.value as int <= Total(Existing(dirs)) {
          IsCounted(dirs, d.value);
        }
      } else {
        var whole := space.value.whole;
        assert [] + [whole] == [whole];
        NothingToCover();
        CoversMore(0, [whole], [], whole);
        mb := SizeInMB(whole) as int32;
      }
    }
    if mb == 0 {
      mb := 1;
    }
  }

  lemma {:induction false} ExistingIsNoMore(dirs: seq<Option<int64>>)
    ensures |Existing(dirs)| <= |dirs|
  {
    if dirs != [] {
      ExistingIsNoMore(dirs[..|dirs| - 1]);
    }
  }

  lemma {:induction false} IsCounted(dirs: seq<Option<int64>>, size: int64)
    requires Some(size) in dirs
    ensures size as int <= Total(Existing(dirs)) && 0 <= Total(Existing(dirs))
  {
    var n := |dirs| - 1;
    var rest := Existing(dirs[..n]);
    TotalPrefix(rest, rest);
    if dirs[n].Some? {
      assert (rest + [dirs[n].value])[..|rest|] == rest;
      assert Existing(dirs)[..|rest|] == rest && Existing(dirs)[|rest|] == dirs[n].value;
    } else {
      assert Existing(dirs) == rest;
    }
    if dirs[n] != Some(size) {
      assert dirs == dirs[..n] + [dirs[n]];
      IsCounted(dirs[..n], size);
    }
  }

  /** One measurement more is within what an int can hold. */
  lemma NextMeasured(all: seq<int64>, sofar: seq<int64>, m: int64)
    requires Valid(all) && sofar + [m] <= all
    ensures -1 <= m && m as int + MB - 1 <= MAX64
    ensures Total(sofar + [m]) == Total(sofar) + (if m < 0 then 0 else m as int)
    ensures 0 <= Total(sofar) && Total(sofar + [m]) + (|sofar| + 2) * MB <= MAX32 * MB
  {
    assert (sofar + [m])[|sofar|] == m && all[|sofar|] == m && m in all;
    assert (sofar + [m])[..|sofar|] == sofar;
    TotalPrefix(all, sofar + [m]);
    TotalPrefix(all, sofar);
    assert (|sofar| + 2) * MB <= (|all| + 1) * MB;
  }
}
