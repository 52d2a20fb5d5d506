/** Where sectors live in an image file, and what writing marked sectors back does to that file. */
module Sectors {
  import opened Bytes
  import opened DiskImage

  type Sector = seq<byte>

  const SECTORS_PER_TRACK: nat := 0x100
  const RAW_STRIDE: nat := 0x930
  const RAW_HEADER: nat := 0x10

  function SectorSize(shift: nat): (size: nat)
    ensures size > 0
  {
    PowerOfTwo(shift)
  }

  /** How sectors are laid out in the file: their size, CD-ROM raw mode, and the offset of the first one. */
  datatype Geometry = Geometry(size: nat, raw: bool, imgoffset: nat)

  function SectorOffset(g: Geometry, block: nat): nat {
    if g.raw then block * RAW_STRIDE + RAW_HEADER + g.imgoffset else block * g.size + g.imgoffset
  }

  /** The bytes of a sector in the file; nothing if the file is too short. */
  function FileSector(file: seq<byte>, g: Geometry, block: nat): Sector {
    var o := SectorOffset(g, block);
    if o + g.size <= |file| then file[o..o + g.size] else []
  }

  /** Sector `i` of a track buffer. */
  function BufferSector(buffer: seq<byte>, size: nat, i: nat): Sector {
    if i * size + size <= |buffer| then buffer[i * size..i * size + size] else []
  }

  /** The sector of a track that holds position `q` of the track. */
  function SectorAt(q: nat, size: nat): nat
    requires size > 0
  {
    q / size
  }

  /** Position `q` of a track lies in a marked one of its first `n` sectors. */
  predicate InMarked(marks: seq<bool>, size: nat, n: nat, q: int)
    requires size > 0 && n <= |marks|
  {
    0 <= q && SectorAt(q, size) < n && marks[SectorAt(q, size)]
  }

  /** The file after the marked ones among the first `n` sectors of a track at `base` have been written back. */
  function Patched(file: seq<byte>, base: nat, buffer: seq<byte>, marks: seq<bool>, size: nat, n: nat): (f: seq<byte>)
    requires size > 0 && n <= |marks|
    ensures |f| == |file|
  {
    seq(|file|, p requires 0 <= p < |file| => PatchedByte(file[p], p - base, buffer, marks, size, n))
  }

  function PatchedByte(was: byte, q: int, buffer: seq<byte>, marks: seq<bool>, size: nat, n: nat): byte
    requires size > 0 && n <= |marks|
  {
    if InMarked(marks, size, n, q) && q < |buffer| then buffer[q] else was
  }

  // ---------- arithmetic of sectors ----------

  lemma QuotientBelow(q: nat, size: nat, n: nat)
    requires size > 0
    ensures SectorAt(q, size) < n <==> q < n * size
  {
    var k := q / size;
    assert q == k * size + q % size;
    if k < n {
      assert (k + 1) * size <= n * size;
    } else {
      assert k * size >= n * size;
    }
  }

  lemma QuotientIs(i: nat, size: nat, r: nat)
    requires r < size
    ensures SectorAt(i * size + r, size) == i
  {
    QuotientBelow(i * size + r, size, i + 1);
    QuotientBelow(i * size + r, size, i);
    assert (i + 1) * size == i * size + size;
  }

  lemma ProductMonotone(i: nat, j: nat, size: nat)
    requires i <= j
    ensures i * size <= j * size
  {
  }

  lemma Distributes(a: nat, b: nat, size: nat)
    ensures (a + b) * size == a * size + b * size
  {
  }

  // ---------- writing runs of marked sectors ----------

  lemma PatchedNothing(file: seq<byte>, base: nat, buffer: seq<byte>, marks: seq<bool>, size: nat)
    requires size > 0
    ensures Patched(file, base, buffer, marks, size, 0) == file
  {
    hide SectorAt;
  }

  lemma PatchedSkip(file: seq<byte>, base: nat, buffer: seq<byte>, marks: seq<bool>, size: nat, i: nat)
    requires size > 0 && i < |marks| && !marks[i]
    ensures Patched(file, base, buffer, marks, size, i + 1) == Patched(file, base, buffer, marks, size, i)
  {
    hide SectorAt;
    forall p | 0 <= p < |file|
      ensures PatchedByte(file[p], p - base, buffer, marks, size, i + 1)
          == PatchedByte(file[p], p - base, buffer, marks, size, i)
    {
    }
  }

  lemma OverwriteAt(file: seq<byte>, pos: nat, data: seq<byte>, p: nat)
    requires pos + |data| <= |file| && p < |file|
    ensures Overwrite(file, pos, data)[p] == if pos <= p < pos + |data| then data[p - pos] else file[p]
  {
  }

  /** Byte `q` of the track while the sectors i..j, all marked, which take the bytes from..to, are being written and the
      bytes up to `stored` of them have arrived. */
  lemma RunPosition(was: byte, q: int, buffer: seq<byte>, marks: seq<bool>, size: nat, i: nat, j: nat, from: nat,
      stored: nat, to: nat)
    requires size > 0 && i <= j <= |marks| && forall k :: i <= k < j ==> marks[k]
    requires from <= stored <= to <= |buffer|
    requires 0 <= q ==> (SectorAt(q, size) < i <==> q < from) && (SectorAt(q, size) < j <==> q < to)
    ensures from <= q < stored ==> PatchedByte(was, q, buffer, marks, size, j) == buffer[q]
    ensures !(from <= q < to) ==>
        PatchedByte(was, q, buffer, marks, size, i) == PatchedByte(was, q, buffer, marks, size, j)
  {
    hide SectorAt;
  }

  lemma RunByte(file: seq<byte>, base: nat, buffer: seq<byte>, marks: seq<bool>, size: nat, i: nat, j: nat, from: nat,
      stored: nat, to: nat, p: nat)
    requires size > 0 && i <= j <= |marks| && forall k :: i <= k < j ==> marks[k]
    requires from + stored <= to <= |buffer| && base + |buffer| <= |file| && p < |file|
    requires base <= p ==>
               && (SectorAt(p - base, size) < i <==> p - base < from)
               && (SectorAt(p - base, size) < j <==> p - base < to)
    ensures var was := PatchedByte(file[p], p - base, buffer, marks, size, i);
            Overwrite(Patched(file, base, buffer, marks, size, i), base + from, buffer[from..from + stored])[p]
            == (if base + from <= p < base + from + stored then PatchedByte(file[p], p - base, buffer, marks, size, j)
                else was)
    ensures !(base + from <= p < base + to) ==>
              PatchedByte(file[p], p - base, buffer, marks, size, i)
                  == PatchedByte(file[p], p - base, buffer, marks, size, j)
  {
    hide SectorAt, PatchedByte;
    OverwriteAt(Patched(file, base, buffer, marks, size, i), base + from, buffer[from..from + stored], p);
    RunPosition(file[p], p - base, buffer, marks, size, i, j, from, from + stored, to);
  }

  /** Writing the sectors i..j of the buffer in one piece writes back each of them. */
  lemma PatchedRun(file: seq<byte>, base: nat, buffer: seq<byte>, marks: seq<bool>, size: nat, i: nat, j: nat)
    requires size > 0 && |buffer| == |marks| * size && base + |buffer| <= |file|
    requires i <= j <= |marks| && forall k :: i <= k < j ==> marks[k]
    ensures i * size <= j * size <= |buffer|
    ensures Patched(file, base, buffer, marks, size, j)
         == Overwrite(Patched(file, base, buffer, marks, size, i), base + i * size, buffer[i * size..j * size])
  {
    ProductMonotone(i, j, size);
    ProductMonotone(j, |marks|, size);
    hide PatchedByte;
    var from, to := i * size, j * size;
    var stored := to - from;
    var written := Overwrite(Patched(file, base, buffer, marks, size, i), base + from, buffer[from..to]);
    forall p | 0 <= p < |file| ensures Patched(file, base, buffer, marks, size, j)[p] == written[p] {
      if base <= p {
        QuotientBelow(p - base, size, i);
        QuotientBelow(p - base, size, j);
      }
      RunByte(file, base, buffer, marks, size, i, j, from, stored, to, p);
      assert buffer[from..from + stored] == buffer[from..to];
    }
    hide Overwrite;
    assert Patched(file, base, buffer, marks, size, j) == written;
  }

  /** `f` is the file on the way from `before` to `after`: every byte is the old or the new one. */
  ghost predicate Torn(before: seq<byte>, f: seq<byte>, after: seq<byte>) {
    |f| == |before| == |after| && forall p :: 0 <= p < |f| ==> f[p] == before[p] || f[p] == after[p]
  }

  lemma PatchedIsTorn(file: seq<byte>, base: nat, buffer: seq<byte>, marks: seq<bool>, size: nat, i: nat)
    requires size > 0 && i <= |marks|
    ensures Torn(file, Patched(file, base, buffer, marks, size, i), Patched(file, base, buffer, marks, size, |marks|))
  {
    hide SectorAt;
    forall p | 0 <= p < |file|
      ensures PatchedByte(file[p], p - base, buffer, marks, size, i)
              in {file[p], PatchedByte(file[p], p - base, buffer, marks, size, |marks|)}
    {
    }
  }

  /** A run that was cut short leaves the file on its way to the fully patched one. */
  lemma CutRunIsTorn(file: seq<byte>, base: nat, buffer: seq<byte>, marks: seq<bool>, size: nat, i: nat, j: nat,
      stored: nat)
    requires size > 0 && |buffer| == |marks| * size && base + |buffer| <= |file|
    requires i <= j <= |marks| && forall k :: i <= k < j ==> marks[k]
    requires i * size + stored <= j * size <= |buffer|
    ensures Torn(file, Overwrite(Patched(file, base, buffer, marks, size, i), base + i * size,
        buffer[i * size..i * size + stored]),
                 Patched(file, base, buffer, marks, size, |marks|))
  {
    hide PatchedByte;
    var c := Overwrite(Patched(file, base, buffer, marks, size, i), base + i * size,
        buffer[i * size..i * size + stored]);
    PatchedIsTorn(file, base, buffer, marks, size, i);
    PatchedIsTorn(file, base, buffer, marks, size, j);
    forall p | 0 <= p < |file|
      ensures c[p] == file[p] || c[p] == Patched(file, base, buffer, marks, size, |marks|)[p]
    {
      if base <= p {
        QuotientBelow(p - base, size, i);
        QuotientBelow(p - base, size, j);
      }
      RunByte(file, base, buffer, marks, size, i, j, i * size, stored, j * size, p);
      assert c[p] == Patched(file, base, buffer, marks, size, i)[p]
             || c[p] == Patched(file, base, buffer, marks, size, j)[p];
    }
  }

  /** Starting over from a torn file ends in the same file. */
  lemma PatchedAgain(file: seq<byte>, torn: seq<byte>, base: nat, buffer: seq<byte>, marks: seq<bool>, size: nat)
    requires size > 0
    requires Torn(file, torn, Patched(file, base, buffer, marks, size, |marks|))
    ensures Patched(torn, base, buffer, marks, size, |marks|) == Patched(file, base, buffer, marks, size, |marks|)
  {
    hide SectorAt;
  }

  // ---------- the runs of marked sectors ----------

  /** The end of the run of marked sectors that starts at `i`. */
  function RunEnd(marks: seq<bool>, i: nat): (j: nat)
    requires i <= |marks|
    ensures i <= j <= |marks| && (forall k :: i <= k < j ==> marks[k]) && (j < |marks| ==> !marks[j])
    decreases |marks| - i
  {
    if i < |marks| && marks[i] then RunEnd(marks, i + 1) else i
  }

  datatype Run = Run(first: nat, end: nat)

  /** The runs of marked sectors from `i` on. */
  function Runs(marks: seq<bool>, i: nat): seq<Run>
    requires i <= |marks|
    decreases |marks| - i
  {
    if i == |marks| then []
    else if marks[i] then [Run(i, RunEnd(marks, i))] + Runs(marks, RunEnd(marks, i))
    else Runs(marks, i + 1)
  }

  /** All the sectors of the run are marked, and it cannot be made longer. */
  predicate Maximal(marks: seq<bool>, r: Run) {
    && r.first < r.end <= |marks| && (forall k :: r.first <= k < r.end ==> marks[k])
    && (r.first > 0 ==> !marks[r.first - 1]) && (r.end < |marks| ==> !marks[r.end])
  }

  predicate Covered(rs: seq<Run>, k: nat) {
    exists r :: r in rs && r.first <= k < r.end
  }

  /** The runs are maximal, they come in order with a gap between them, and together they are the marked sectors from
      `i` on. */
  predicate AreRuns(marks: seq<bool>, i: nat, rs: seq<Run>) {
    && (forall r :: r in rs ==> i <= r.first && Maximal(marks, r))
    && (forall m, n :: 0 <= m < n < |rs| ==> rs[m].end < rs[n].first)
    && (forall k :: i <= k < |marks| && marks[k] ==> Covered(rs, k))
  }

  lemma {:induction false} RunsAreMaximal(marks: seq<bool>, i: nat)
    requires i <= |marks| && (i > 0 && i < |marks| && marks[i] ==> !marks[i - 1])
    ensures AreRuns(marks, i, Runs(marks, i))
    decreases |marks| - i
  {
    hide AreRuns;
    if i == |marks| {
      NoMoreRuns(marks);
    } else if marks[i] {
      var j := RunEnd(marks, i);
      RunsAreMaximal(marks, j);
      OneMoreRun(marks, i, j, Runs(marks, j));
    } else {
      RunsAreMaximal(marks, i + 1);
      RunsFromEarlier(marks, i, Runs(marks, i + 1));
    }
  }

  lemma NoMoreRuns(marks: seq<bool>)
    ensures AreRuns(marks, |marks|, [])
  {
  }

  lemma RunsFromEarlier(marks: seq<bool>, i: nat, rs: seq<Run>)
    requires i < |marks| && !marks[i] && AreRuns(marks, i + 1, rs)
    ensures AreRuns(marks, i, rs)
  {
    hide Maximal, Covered;
  }

  lemma OneMoreRun(marks: seq<bool>, i: nat, j: nat, rest: seq<Run>)
    requires Maximal(marks, Run(i, j)) && AreRuns(marks, j, rest)
    ensures AreRuns(marks, i, [Run(i, j)] + rest)
  {
    var rs := [Run(i, j)] + rest;
    forall m, n | 0 <= m < n < |rs| ensures rs[m].end < rs[n].first {
      assert rs[n] == rest[n - 1] && rest[n - 1] in rest;
      NextRunStarts(marks, j, rest[n - 1]);
      assert m > 0 ==> rs[m] == rest[m - 1];
    }
    forall k | i <= k < |marks| && marks[k] ensures Covered(rs, k) {
      if k < j {
        assert rs[0] in rs;
      } else {
        var r :| r in rest && r.first <= k < r.end;
        assert r in rs;
      }
    }
  }

  lemma NextRunStarts(marks: seq<bool>, j: nat, r: Run)
    requires j <= r.first && Maximal(marks, r) && (j < |marks| ==> !marks[j])
    ensures j < r.first
  {
  }

  // ---------- what the sectors of a torn file are ----------

  lemma BufferSectorFits(buffer: seq<byte>, size: nat, n: nat, i: nat)
    requires |buffer| == n * size && i < n
    ensures i * size + size <= |buffer|
  {
    ProductMonotone(i + 1, n, size);
    assert (i + 1) * size == i * size + size;
  }

  /** Sector `i` of the track once all marked sectors are written back, and on the way there. */
  lemma TrackSector(file: seq<byte>, torn: seq<byte>, g: Geometry, track: nat, buffer: seq<byte>, marks: seq<bool>,
      i: nat)
    requires g.size > 0 && !g.raw && |buffer| == |marks| * g.size && i < |marks|
    requires SectorOffset(g, track * SECTORS_PER_TRACK) + |buffer| <= |file|
    requires Torn(file, torn, Patched(file, SectorOffset(g, track * SECTORS_PER_TRACK), buffer, marks, g.size, |marks|))
    ensures var done := Patched(file, SectorOffset(g, track * SECTORS_PER_TRACK), buffer, marks, g.size, |marks|);
            var b := track * SECTORS_PER_TRACK + i;
            if marks[i] then FileSector(done, g, b) == BufferSector(buffer, g.size, i)
            else FileSector(torn, g, b) == FileSector(file, g, b) == FileSector(done, g, b)
  {
    hide SectorAt, Patched;
    var size := g.size;
    var base := SectorOffset(g, track * SECTORS_PER_TRACK);
    BufferSectorFits(buffer, size, |marks|, i);
    var at := i * size;
    Distributes(track * SECTORS_PER_TRACK, i, size);
    assert base + at == SectorOffset(g, track * SECTORS_PER_TRACK + i);
    forall q | at <= q < at + size ensures SectorAt(q, size) == i {
      TrackPosition(i, size, q);
    }
    SectorBytes(file, torn, base, buffer, marks, size, i, at);
  }

  /** The bytes at..at+size of the track, which are those of sector `i`. */
  lemma SectorBytes(file: seq<byte>, torn: seq<byte>, base: nat, buffer: seq<byte>, marks: seq<bool>, size: nat, i: nat,
      at: nat)
    requires size > 0 && i < |marks| && at + size <= |buffer| && base + |buffer| <= |file|
    requires forall q :: at <= q < at + size ==> SectorAt(q, size) == i
    requires Torn(file, torn, Patched(file, base, buffer, marks, size, |marks|))
    ensures var done, o := Patched(file, base, buffer, marks, size, |marks|), base + at;
            if marks[i] then done[o..o + size] == buffer[at..at + size]
            else torn[o..o + size] == file[o..o + size] == done[o..o + size]
  {
    hide SectorAt;
    var done, o := Patched(file, base, buffer, marks, size, |marks|), base + at;
    forall p | o <= p < o + size
      ensures done[p] == if marks[i] then buffer[p - base] else file[p]
    {
      assert SectorAt(p - base, size) == i;
    }
    if marks[i] {
      assert done[o..o + size] == buffer[at..at + size];
    } else {
      assert forall p :: o <= p < o + size ==> torn[p] == file[p];
      assert done[o..o + size] == file[o..o + size];
      assert torn[o..o + size] == file[o..o + size];
    }
  }

  lemma TrackPosition(i: nat, size: nat, q: nat)
    requires size > 0 && i * size <= q < i * size + size
    ensures SectorAt(q, size) == i
  {
    QuotientIs(i, size, q - i * size);
  }

  /** Sectors of other tracks keep their bytes. */
  lemma OtherSector(file: seq<byte>, torn: seq<byte>, g: Geometry, track: nat, buffer: seq<byte>, marks: seq<bool>,
      block: nat)
    requires g.size > 0 && !g.raw && |buffer| == |marks| * g.size && |marks| <= SECTORS_PER_TRACK
    requires block / SECTORS_PER_TRACK != track
    requires Torn(file, torn, Patched(file, SectorOffset(g, track * SECTORS_PER_TRACK), buffer, marks, g.size, |marks|))
    ensures FileSector(torn, g, block) == FileSector(file, g, block)
  {
    hide SectorAt;
    var first := track * SECTORS_PER_TRACK;
    var base := SectorOffset(g, first);
    var o := SectorOffset(g, block);
    OffsetOutside(g, track, |marks|, block);
    if o + g.size <= |file| {
      assert torn[o..o + g.size] == file[o..o + g.size];
    }
  }

  lemma OffsetOutside(g: Geometry, track: nat, n: nat, block: nat)
    requires !g.raw && n <= SECTORS_PER_TRACK && block / SECTORS_PER_TRACK != track
    ensures var base, o := SectorOffset(g, track * SECTORS_PER_TRACK), SectorOffset(g, block);
            o + g.size <= base || base + n * g.size <= o
  {
    var first := track * SECTORS_PER_TRACK;
    if block < first {
      ProductMonotone(block + 1, first, g.size);
      Distributes(block, 1, g.size);
    } else {
      ProductMonotone(first + n, block, g.size);
      Distributes(first, n, g.size);
    }
  }

  lemma SliceOfSlice(s: seq<byte>, from: nat, length: nat, at: nat, size: nat)
    requires from + length <= |s| && at + size <= length
    ensures s[from..from + length][at..at + size] == s[from + at..from + at + size]
  {
    var left, right := s[from..from + length][at..at + size], s[from + at..from + at + size];
    forall k | 0 <= k < size ensures left[k] == right[k] {
    }
    assert left == right;
  }

  /** A track read in one piece holds the file's sectors. */
  lemma SliceSector(file: seq<byte>, g: Geometry, track: nat, n: nat, i: nat)
    requires g.size > 0 && !g.raw && i < n
    requires SectorOffset(g, track * SECTORS_PER_TRACK) + n * g.size <= |file|
    ensures var base := SectorOffset(g, track * SECTORS_PER_TRACK);
            BufferSector(file[base..base + n * g.size], g.size, i) == FileSector(file, g, track * SECTORS_PER_TRACK + i)
  {
    var base := SectorOffset(g, track * SECTORS_PER_TRACK);
    Distributes(track * SECTORS_PER_TRACK, i, g.size);
    var length, at := n * g.size, i * g.size;
    BufferSectorFits(file[base..base + length], g.size, n, i);
    SliceOfSlice(file, base, length, at, g.size);
  }

  /** A buffer that changed only from sector `i` on keeps its earlier sectors. */
  lemma EarlierSector(before: seq<byte>, after: seq<byte>, size: nat, i: nat, k: nat)
    requires k < i && i * size <= |before| == |after| && before[..i * size] == after[..i * size]
    ensures BufferSector(before, size, k) == BufferSector(after, size, k)
  {
    var length, at := i * size, k * size;
    BufferSectorFits(before[..length], size, i, k);
    BufferSectorIs(before, size, k, at);
    BufferSectorIs(after, size, k, at);
    hide BufferSector;
    SliceOfSlice(before, 0, length, at, size);
    SliceOfSlice(after, 0, length, at, size);
  }

  lemma BufferSectorIs(buffer: seq<byte>, size: nat, i: nat, at: nat)
    requires at == i * size && at + size <= |buffer|
    ensures BufferSector(buffer, size, i) == buffer[at..at + size]
  {
  }

  /** A buffer that changed only inside sector `sec` keeps its other sectors. */
  lemma OtherBufferSector(before: seq<byte>, after: seq<byte>, size: nat, sec: nat, i: nat)
    requires i != sec && |before| == |after|
    requires forall p :: 0 <= p < |before| && !(sec * size <= p < sec * size + size) ==> before[p] == after[p]
    ensures BufferSector(before, size, i) == BufferSector(after, size, i)
  {
    if i < sec {
      ProductMonotone(i + 1, sec, size);
      assert (i + 1) * size == i * size + size;
    } else {
      ProductMonotone(sec + 1, i, size);
      assert (sec + 1) * size == sec * size + size;
    }
    if i * size + size <= |before| {
      assert before[i * size..i * size + size] == after[i * size..i * size + size];
    }
  }

  function BufferSectors(buffer: seq<byte>, size: nat, n: nat): (s: seq<Sector>)
    ensures |s| == n && forall i :: 0 <= i < n ==> s[i] == BufferSector(buffer, size, i)
  {
    seq(n, i requires 0 <= i < n => BufferSector(buffer, size, i))
  }

  /** The write that stores a run of the track at `base`. */
  function RunRequest(base: nat, size: nat, r: Run): Request {
    Request(base + r.first * size, if r.first <= r.end then (r.end - r.first) * size else 0)
  }

  lemma NothingToSave(file: seq<byte>, base: nat, buffer: seq<byte>, marks: seq<bool>, size: nat, n: nat)
    requires size > 0 && n == |marks| && forall i :: 0 <= i < n ==> !marks[i]
    ensures Patched(file, base, buffer, marks, size, n) == file
    ensures Runs(marks, 0) == []
  {
    hide SectorAt;
    NoRuns(marks, 0);
  }

  lemma {:induction false} NoRuns(marks: seq<bool>, i: nat)
    requires i <= |marks| && forall k :: 0 <= k < |marks| ==> !marks[k]
    ensures Runs(marks, i) == []
    decreases |marks| - i
  {
    if i < |marks| {
      NoRuns(marks, i + 1);
    }
  }
}
