/** The write-back track cache: sixteen slots that together behave like one flat array of sectors. */
module DiskCaches {
  import opened Bytes
  import opened DiskImage
  import opened Sectors
  import opened DiskTracks
  import opened Lru

  const CACHE_MAX: nat := 16
  const SERIAL_LIMIT: nat := 0x1_0000_0000

  // ---------- what a disk is for ----------

  /** A call of the sector store together with what it returned. */
  datatype Access =
    | Read(block: nat, ok: bool, data: Sector)
    | Write(block: nat, ok: bool, data: Sector)
    | Save(ok: bool)

  /** What an access may do to the flat array of sectors. */
  predicate AccessStep(s: seq<Sector>, a: Access, s': seq<Sector>) {
    match a
    case Read(block, ok, data) => block < |s| && s' == s && (ok ==> data == s[block])
    case Write(block, ok, data) => block < |s| && s' == if ok then s[block := data] else s
    case Save(_) => s' == s
  }

  /** A run: `stores` has the array before and after each access. */
  ghost predicate IsRun(stores: seq<seq<Sector>>, accesses: seq<Access>) {
    |stores| == |accesses| + 1 && forall n :: 0 <= n < |accesses| ==> AccessStep(stores[n], accesses[n], stores[n + 1])
  }

  /** The data of the last successful write to `block` among the accesses; `first` if there is none. */
  function LastWritten(accesses: seq<Access>, block: nat, first: Sector): Sector
    decreases |accesses|
  {
    if accesses == [] then first
    else
      var a := accesses[|accesses| - 1];
      if a.Write? && a.ok && a.block == block then a.data else LastWritten(accesses[..|accesses| - 1], block, first)
  }

  /** Over every run a sector is what was last written to it. */
  lemma {:induction false} SectorIsLastWritten(stores: seq<seq<Sector>>, accesses: seq<Access>, block: nat)
    requires IsRun(stores, accesses) && block < |stores[0]|
    ensures |stores[|accesses|]| == |stores[0]|
    ensures stores[|accesses|][block] == LastWritten(accesses, block, stores[0][block])
    decreases |accesses|
  {
    if accesses != [] {
      var n := |accesses| - 1;
      SectorIsLastWritten(stores[..n + 1], accesses[..n], block);
      assert AccessStep(stores[n], accesses[n], stores[n + 1]);
    }
  }

  /** Over every run a successful read returns what was last written, or what the sector held at first. */
  lemma ReadReturnsLastWritten(stores: seq<seq<Sector>>, accesses: seq<Access>, n: nat)
    requires IsRun(stores, accesses) && n < |accesses| && accesses[n].Read? && accesses[n].ok
    requires accesses[n].block < |stores[0]|
    ensures accesses[n].data == LastWritten(accesses[..n], accesses[n].block, stores[0][accesses[n].block])
  {
    SectorIsLastWritten(stores[..n + 1], accesses[..n], accesses[n].block);
    assert AccessStep(stores[n], accesses[n], stores[n + 1]);
  }

  // ---------- runs of commands ----------

  /** What is asked of the sector store. */
  datatype Command = Get(block: nat) | Put(block: nat, data: Sector)

  function TracksOf(commands: seq<Command>): (t: seq<nat>)
    ensures |t| == |commands| && forall i :: 0 <= i < |t| ==> t[i] == commands[i].block / SECTORS_PER_TRACK
  {
    seq(|commands|, i requires 0 <= i < |commands| => commands[i].block / SECTORS_PER_TRACK)
  }

  /** The access is what a command led to. */
  predicate Answers(a: Access, c: Command) {
    match c
    case Get(block) => a.Read? && a.block == block
    case Put(block, data) => a.Write? && a.block == block && a.data == data
  }

  lemma NothingRun(s: seq<Sector>)
    ensures IsRun([s], [])
  {
  }

  lemma LongerRun(stores: seq<seq<Sector>>, accesses: seq<Access>, a: Access, s: seq<Sector>)
    requires IsRun(stores, accesses) && AccessStep(stores[|accesses|], a, s)
    ensures IsRun(stores + [s], accesses + [a])
  {
    forall n | 0 <= n < |accesses| + 1
      ensures AccessStep((stores + [s])[n], (accesses + [a])[n], (stores + [s])[n + 1])
    {
      if n < |accesses| {
        assert AccessStep(stores[n], accesses[n], stores[n + 1]);
      }
    }
  }

  // ---------- the cache ----------

  datatype Slot = Slot(disktrk: DiskTrack?, serial: nat)

  class DiskCache {
    const image: Image
    const shift: nat
    const blocks: nat
    const raw: bool
    const imgoffset: nat
    var cache: array<Slot>
    var serial: nat

    /** What the disk holds, sector by sector. */
    ghost var store: seq<Sector>
    /** The tracks that were accessed, and the slots as a table of them. */
    ghost var history: seq<nat>
    ghost var table: seq<Entry>
    /** No access has failed and the serial number has not wrapped around. */
    ghost var orderly: bool
    ghost var Repr: set<object>

    ghost function Geo(): Geometry {
      Geometry(SectorSize(shift), raw, imgoffset)
    }

    /** Sectors on a track: 256, or what is left of the disk. */
    function TrackSectors(track: nat): nat
      requires track * SECTORS_PER_TRACK < blocks
    {
      if blocks - track * SECTORS_PER_TRACK > SECTORS_PER_TRACK then SECTORS_PER_TRACK
      else blocks - track * SECTORS_PER_TRACK
    }

    /** The file is long enough for all blocks. */
    ghost predicate Whole(length: nat) {
      blocks > 0 ==> SectorOffset(Geo(), blocks - 1) + SectorSize(shift) <= length
    }

    /** The length of the file has not changed; there was no fault in what succeeded; and what found the whole disk in
        the file fails only by a fault. */
    ghost predicate KeepsFile(bytes0: seq<byte>, faults0: nat, ok: bool)
      reads image`bytes, image`faults
    {
      && |image.bytes| == |bytes0| && image.faults >= faults0
      && (ok ==> image.faults == faults0)
      && (Whole(|bytes0|) && image.faults == faults0 ==> ok)
    }

    lemma TracksInFile(t: DiskTrack, length: nat)
      requires Whole(length) && t.shift == shift && t.raw == raw && t.imgoffset == imgoffset
      requires t.track * SECTORS_PER_TRACK < blocks && t.sectors == TrackSectors(t.track)
      ensures t.InFile(length)
    {
      hide SectorSize;
      var size, first, n := SectorSize(shift), t.track * SECTORS_PER_TRACK, t.sectors;
      if raw {
        assert (first + (n - 1)) * RAW_STRIDE == first * RAW_STRIDE + (n - 1) * RAW_STRIDE;
        ProductMonotone(first + (n - 1), blocks - 1, RAW_STRIDE);
      } else {
        Distributes(first, n, size);
        Distributes(blocks - 1, 1, size);
        ProductMonotone(first + n, blocks, size);
      }
    }

    /** The track object is loaded, belongs to this disk and holds the sectors of `s`. */
    ghost predicate LoadedWith(t: DiskTrack, s: seq<Sector>)
      reads image`bytes, t, t.buffer, t.changemap
    {
      && t.Valid() && t.init && t.Agrees(image.bytes)
      && t.shift == shift && t.raw == raw && t.imgoffset == imgoffset
      && t.track * SECTORS_PER_TRACK < blocks && t.sectors == TrackSectors(t.track)
      && |s| == blocks
      && forall i :: 0 <= i < t.sectors ==> s[t.Block(i)] == t.content[i]
    }

    ghost predicate Loaded(t: DiskTrack)
      reads `store, image`bytes, t, t.buffer, t.changemap
    {
      LoadedWith(t, store)
    }

    /** The slots own their tracks and the tracks' memory; nothing is shared, and no track is in two slots. */
    ghost predicate Structure()
      reads this, Repr
    {
      && this in Repr && cache in Repr && image in Repr && cache.Length == |table| == CACHE_MAX
      && (forall i :: 0 <= i < CACHE_MAX ==>
            var t := cache[i].disktrk;
            if t == null then table[i] == Empty else
            && t in Repr && t.buffer != null && t.buffer in Repr && t.changemap != null && t.changemap in Repr
            && table[i] == Used(t.track, cache[i].serial))
      && (forall i, j :: 0 <= i < j < CACHE_MAX && cache[i].disktrk != null && cache[j].disktrk != null ==>
            var t, u := cache[i].disktrk, cache[j].disktrk;
            t != u && t.buffer != u.buffer && t.changemap != u.changemap && t.track != u.track)
    }

    /** The cache and the file together hold the store. */
    ghost predicate Coherent()
      reads this, Repr
    {
      && Structure()
      && (forall i :: 0 <= i < CACHE_MAX && cache[i].disktrk != null ==> Loaded(cache[i].disktrk))
      && |store| == blocks
      && (forall b :: 0 <= b < blocks && !Cached(table, b / SECTORS_PER_TRACK) ==>
          store[b] == FileSector(image.bytes, Geo(), b))
      && serial < SERIAL_LIMIT
      && (forall i :: 0 <= i < CACHE_MAX ==> cache[i].serial <= serial)
    }

    ghost predicate Valid()
      reads this, Repr
    {
      Coherent() && (orderly ==> serial == |history| && Ordered(table, history))
    }

    constructor (image: Image, shift: nat, blocks: nat, raw: bool, imgoffset: nat)
      requires blocks > 0
      ensures Valid() && fresh(Repr - {image})
      ensures this.image == image && this.shift == shift && this.blocks == blocks && this.raw == raw
              && this.imgoffset == imgoffset
      ensures forall b :: 0 <= b < blocks ==> store[b] == FileSector(image.bytes, Geo(), b)
      ensures orderly && history == []
    {
      this.image, this.shift, this.blocks, this.raw, this.imgoffset := image, shift, blocks, raw, imgoffset;
      cache := new Slot[CACHE_MAX](_ => Slot(null, 0));
      serial := 0;
      history, orderly := [], true;
      new;
      var g, file := Geo(), image.bytes;
      store := seq(blocks, b requires 0 <= b < blocks => FileSector(file, g, b));
      table := seq(CACHE_MAX, _ => Empty);
      Repr := {this, cache, image};
    }

    /** Saving the track `t` turned `file` into `saved`; another track still agrees with the file. */
    lemma OtherTrackAgrees(u: DiskTrack, t: DiskTrack, file: seq<byte>, saved: seq<byte>)
      requires u.Agrees(file) && t.OthersKept(file, saved) && u.Geo() == t.Geo() && u.track != t.track
      requires u.sectors <= SECTORS_PER_TRACK
      ensures u.Agrees(saved)
    {
      hide FileSector, SectorSize, SectorOffset;
      forall i | 0 <= i < u.sectors && !u.marks[i]
        ensures u.content[i] == FileSector(saved, u.Geo(), u.Block(i))
      {
        assert u.Block(i) / SECTORS_PER_TRACK == u.track;
      }
    }

    ghost predicate Clean(t: DiskTrack)
      reads t
    {
      t.sectors == |t.marks| && forall k :: 0 <= k < t.sectors ==> !t.marks[k]
    }

    /** Saves the track in slot `i`. */
    method SaveSlot(i: nat) returns (ok: bool)
      requires Coherent() && i < CACHE_MAX && cache[i].disktrk != null
      modifies Repr - {this, cache}
      ensures Coherent()
      ensures |image.bytes| == old(|image.bytes|) && image.faults >= old(image.faults)
      ensures ok <==> image.faults == old(image.faults)
      ensures ok ==> Clean(cache[i].disktrk)
      ensures forall j :: 0 <= j < CACHE_MAX && j != i && cache[j].disktrk != null && old(Clean(cache[j].disktrk)) ==>
                Clean(cache[j].disktrk)
    {
      hide FileSector, SectorSize, Patched, BufferSector, Runs, SectorOffset;
      var t := cache[i].disktrk;
      ghost var file := image.bytes;
      ok := t.Save(image);
      forall j | 0 <= j < CACHE_MAX && j != i && cache[j].disktrk != null
        ensures Loaded(cache[j].disktrk)
      {
        OtherTrackAgrees(cache[j].disktrk, t, file, image.bytes);
      }
      assert t.Geo() == Geo();
      forall b | 0 <= b < blocks && !Cached(table, b / SECTORS_PER_TRACK)
        ensures store[b] == FileSector(image.bytes, Geo(), b)
      {
        assert table[i].track != b / SECTORS_PER_TRACK;
        assert FileSector(image.bytes, t.Geo(), b) == FileSector(old(image.bytes), t.Geo(), b);
      }
    }

    /** As long as nothing failed and the serial number has not wrapped, the cache holds the last sixteen tracks. */
    lemma HoldsLastTracks()
      requires Valid() && orderly
      ensures var r := Recent(history);
              Tracks(table) == Elements(r[..if |r| < CACHE_MAX then |r| else CACHE_MAX])
      ensures forall i :: 0 <= i < CACHE_MAX && cache[i].disktrk != null ==> cache[i].disktrk.track in Tracks(table)
    {
      HoldsTheMostRecent(table, history);
      forall i | 0 <= i < CACHE_MAX && cache[i].disktrk != null
        ensures Cached(table, cache[i].disktrk.track)
      {
        assert table[i].Used? && table[i].track == cache[i].disktrk.track;
      }
    }

    /** After a successful save the file alone holds the store. */
    method Save() returns (ok: bool)
      requires Valid()
      modifies Repr - {this, cache}
      ensures Valid() && AccessStep(old(store), Access.Save(ok), store)
      ensures |image.bytes| == old(|image.bytes|) && image.faults >= old(image.faults)
      ensures ok <==> image.faults == old(image.faults)
      ensures ok ==> forall b :: 0 <= b < blocks ==> store[b] == FileSector(image.bytes, Geo(), b)
    {
      for i := 0 to CACHE_MAX
        invariant Coherent() && |image.bytes| == old(|image.bytes|) && image.faults == old(image.faults)
        invariant forall j :: 0 <= j < i && cache[j].disktrk != null ==> Clean(cache[j].disktrk)
      {
        if cache[i].disktrk != null {
          ok := SaveSlot(i);
          if !ok {
            return;
          }
        }
      }
      ok := true;
      forall b | 0 <= b < blocks
        ensures store[b] == FileSector(image.bytes, Geo(), b)
      {
        if Cached(table, b / SECTORS_PER_TRACK) {
          var i :| 0 <= i < CACHE_MAX && table[i].Used? && table[i].track == b / SECTORS_PER_TRACK;
          CleanTrackIsFile(cache[i].disktrk, b);
        }
      }
    }

    lemma CleanTrackIsFile(t: DiskTrack, b: nat)
      requires Loaded(t) && Clean(t) && b < blocks && b / SECTORS_PER_TRACK == t.track
      ensures store[b] == FileSector(image.bytes, Geo(), b)
    {
      hide FileSector, SectorSize, BufferSector, SectorOffset;
      var i := b % SECTORS_PER_TRACK;
      assert b == t.Block(i);
      assert i < t.sectors;
    }

    /** Takes the track out of slot `i`, which has been saved. */
    method Detach(i: nat) returns (t: DiskTrack)
      requires Coherent() && i < CACHE_MAX && cache[i].disktrk != null && Clean(cache[i].disktrk)
      modifies cache, `table
      ensures Coherent() && cache[i].disktrk == null && table == old(table)[i := Empty]
      ensures Detached(t)
    {
      hide FileSector, SectorSize, BufferSector, SectorOffset;
      t := cache[i].disktrk;
      forall b | 0 <= b < blocks && b / SECTORS_PER_TRACK == t.track
        ensures store[b] == FileSector(image.bytes, Geo(), b)
      {
        CleanTrackIsFile(t, b);
      }
      cache[i] := cache[i].(disktrk := null);
      table := table[i := Empty];
      forall b | 0 <= b < blocks && !Cached(table, b / SECTORS_PER_TRACK)
        ensures store[b] == FileSector(image.bytes, Geo(), b)
      {
        if old(Cached(table, b / SECTORS_PER_TRACK)) {
          var k :| 0 <= k < CACHE_MAX && old(table)[k].Used? && old(table)[k].track == b / SECTORS_PER_TRACK;
          OtherSlot(old(table), i, k, Empty);
        }
      }
    }

    /** The track object is ours and in no slot. */
    ghost predicate Detached(t: DiskTrack)
      reads this, Repr, t
    {
      && cache.Length == CACHE_MAX && cache in Repr && t in Repr && t.Repr() <= Repr
      && forall i :: 0 <= i < CACHE_MAX && cache[i].disktrk != null ==>
           var u := cache[i].disktrk;
           u in Repr && t != u && t.buffer != u.buffer && t.changemap != u.changemap
    }

    /** Reads `track` into the track object `t`, which is in no slot. */
    method ReadTrack(t: DiskTrack, track: nat) returns (ok: bool)
      requires Coherent() && Detached(t)
      requires track * SECTORS_PER_TRACK < blocks && !Cached(table, track)
      modifies `Repr, t.Repr(), image`faults
      ensures Coherent() && Detached(t) && fresh(Repr - old(Repr))
      ensures KeepsFile(old(image.bytes), old(image.faults), ok)
      ensures ok ==> Loaded(t) && t.track == track
    {
      hide FileSector, SectorSize, BufferSector, SectorOffset, DiskTrack.Valid, DiskTrack.Agrees, Cached, Loaded,
          FromFile, TrackSectors;
      ok := FillApart(t, track);
      Repr := Repr + t.Repr();
      if ok {
        FromFileTrack(t);
        HoldsFile(t);
      }
    }

    /** Reading into a track object that is in no slot leaves the slots alone. */
    method FillApart(t: DiskTrack, track: nat) returns (ok: bool)
      requires Coherent() && Detached(t) && track * SECTORS_PER_TRACK < blocks
      modifies t.Repr(), image`faults
      ensures Coherent() && fresh(t.Repr() - old(t.Repr()))
      ensures KeepsFile(old(image.bytes), old(image.faults), ok)
      ensures forall i :: 0 <= i < CACHE_MAX && cache[i].disktrk != null ==> cache[i].disktrk != t
      ensures ok ==> FromFile(t) && t.track == track
    {
      hide FileSector, SectorSize, BufferSector, SectorOffset, DiskTrack.Valid, DiskTrack.Agrees, Cached, Loaded,
          FromFile, TrackSectors;
      ok := Fill(t, track);
      assert Structure();
      forall i | 0 <= i < CACHE_MAX && cache[i].disktrk != null ensures Loaded(cache[i].disktrk) {
        assert old(Loaded(cache[i].disktrk));
      }
    }

    /** A track as it comes from the file, with no sector changed. */
    ghost predicate FromFile(t: DiskTrack)
      reads image`bytes, t, t.buffer, t.changemap
    {
      && t.Valid() && t.init && t.Agrees(image.bytes) && Clean(t)
      && t.shift == shift && t.raw == raw && t.imgoffset == imgoffset
      && t.track * SECTORS_PER_TRACK < blocks && t.sectors == TrackSectors(t.track)
    }

    method Fill(t: DiskTrack, track: nat) returns (ok: bool)
      requires track * SECTORS_PER_TRACK < blocks
      modifies t.Repr(), image`faults
      ensures fresh(t.Repr() - old(t.Repr()))
      ensures KeepsFile(old(image.bytes), old(image.faults), ok)
      ensures ok ==> FromFile(t) && t.track == track
    {
      t.Init(track, shift, TrackSectors(track), raw, imgoffset);
      ok := t.Load(image);
      if Whole(|image.bytes|) {
        TracksInFile(t, |image.bytes|);
      }
    }

    lemma FromFileTrack(t: DiskTrack)
      requires FromFile(t)
      ensures t.buffer != null && t.changemap != null
    {
    }

    lemma HoldsFile(t: DiskTrack)
      requires FromFile(t) && |store| == blocks && !Cached(table, t.track)
      requires forall b :: 0 <= b < blocks && !Cached(table, b / SECTORS_PER_TRACK) ==>
          store[b] == FileSector(image.bytes, Geo(), b)
      ensures Loaded(t)
    {
      hide FileSector, SectorSize, BufferSector, SectorOffset, Cached;
      forall i | 0 <= i < t.sectors
        ensures store[t.Block(i)] == t.content[i]
      {
        assert t.Block(i) / SECTORS_PER_TRACK == t.track;
      }
    }

    /** Puts the track object `t`, freshly loaded, into the empty slot `index`. */
    method Install(index: nat, t: DiskTrack)
      requires Coherent() && index < CACHE_MAX && cache[index].disktrk == null
      requires Detached(t) && Loaded(t) && !Cached(table, t.track)
      modifies `table, cache
      ensures Coherent()
      ensures cache[index].disktrk == t && table == old(table)[index := Used(t.track, cache[index].serial)]
    {
      hide FileSector, SectorSize, BufferSector, SectorOffset, DiskTrack.Agrees;
      ghost var before := table;
      cache[index] := cache[index].(disktrk := t);
      table := table[index := Used(t.track, cache[index].serial)];
      forall b | 0 <= b < blocks && !Cached(table, b / SECTORS_PER_TRACK)
        ensures store[b] == FileSector(image.bytes, Geo(), b)
      {
        if Cached(before, b / SECTORS_PER_TRACK) {
          var k :| 0 <= k < CACHE_MAX && before[k].Used? && before[k].track == b / SECTORS_PER_TRACK;
          OtherSlot(before, index, k, table[index]);
        }
      }
    }

    /** `serial` belongs to the access that is about to be recorded. */
    ghost predicate Accessing()
      reads this, Repr
    {
      Coherent() && (orderly ==> serial == |history| + 1 && Ordered(table, history))
    }

    method UpdateSerialNumber()
      requires Valid()
      modifies `serial, `table, `orderly, cache
      ensures Accessing()
      ensures serial == (old(serial) + 1) % SERIAL_LIMIT
      ensures orderly == (old(orderly) && serial != 0)
    {
      hide FileSector, SectorSize, Loaded, Ordered;
      serial := (serial + 1) % SERIAL_LIMIT;
      if serial != 0 {
        return;
      }
      forall i | 0 <= i < CACHE_MAX {
        cache[i] := cache[i].(serial := 0);
      }
      orderly := false;
      ghost var before := table;
      table := seq(CACHE_MAX, i requires 0 <= i < CACHE_MAX =>
                 if before[i].Used? then before[i].(serial := 0) else Empty);
      forall t: nat | Cached(before, t)
        ensures Cached(table, t)
      {
        var i :| 0 <= i < |before| && before[i].Used? && before[i].track == t;
        assert table[i].Used? && table[i].track == t;
      }
    }

    /** Gives slot `i` the current serial number and records the access to its track. */
    method Stamp(i: nat)
      requires Coherent() && i < CACHE_MAX && cache[i].disktrk != null
      requires orderly ==> serial == |history| + 1
      requires orderly ==> Ordered(table[i := Used(table[i].track, serial)], history + [table[i].track])
      modifies cache, `table, `history
      ensures Valid()
      ensures cache[i].disktrk == old(cache[i].disktrk) && history == old(history) + [old(cache[i].disktrk.track)]
    {
      hide FileSector, SectorSize, Loaded, Ordered;
      ghost var before := table;
      cache[i] := cache[i].(serial := serial);
      table := table[i := Used(table[i].track, serial)];
      history := history + [table[i].track];
      forall t: nat | Cached(before, t)
        ensures Cached(table, t)
      {
        var k :| 0 <= k < |before| && before[k].Used? && before[k].track == t;
        assert table[k].Used? && table[k].track == t;
      }
    }

    /** The slot that holds `track`, or 16. */
    method FindTrack(track: nat) returns (i: nat)
      requires Coherent()
      ensures i <= CACHE_MAX
      ensures i < CACHE_MAX ==>
                cache[i].disktrk != null && cache[i].disktrk.track == track && table[i] == Used(track, cache[i].serial)
      ensures i == CACHE_MAX ==> !Cached(table, track)
    {
      i := 0;
      while i < CACHE_MAX
        invariant i <= CACHE_MAX
        invariant forall k :: 0 <= k < i && cache[k].disktrk != null ==> cache[k].disktrk.track != track
      {
        if cache[i].disktrk != null {
          if cache[i].disktrk.track == track {
            return;
          }
        }
        i := i + 1;
      }
    }

    /** The first empty slot, or 16. */
    method FindEmpty() returns (i: nat)
      requires Coherent()
      ensures i <= CACHE_MAX
      ensures i < CACHE_MAX ==> cache[i].disktrk == null && table[i].Empty?
      ensures i == CACHE_MAX ==> forall k :: 0 <= k < CACHE_MAX ==> cache[k].disktrk != null
    {
      i := 0;
      while i < CACHE_MAX
        invariant i <= CACHE_MAX
        invariant forall k :: 0 <= k < i ==> cache[k].disktrk != null
      {
        if cache[i].disktrk == null {
          return;
        }
        i := i + 1;
      }
    }

    /** A slot with the smallest serial number. */
    method FindOldest() returns (c: nat)
      requires Coherent() && forall k :: 0 <= k < CACHE_MAX ==> cache[k].disktrk != null
      ensures c < CACHE_MAX && forall k :: 0 <= k < CACHE_MAX ==> cache[c].serial <= cache[k].serial
    {
      var s := cache[0].serial;
      c := 0;
      for i := 0 to CACHE_MAX
        invariant c < CACHE_MAX && s == cache[c].serial
        invariant s <= cache[0].serial && forall k :: 0 <= k < i ==> s <= cache[k].serial
      {
        if cache[i].serial < s {
          s := cache[i].serial;
          c := i;
        }
      }
    }

    /** Reads `track` into the empty slot `index`, through the track object `t`. */
    method Load(index: nat, track: nat, t: DiskTrack) returns (ok: bool)
      requires Coherent() && Detached(t) && index < CACHE_MAX && cache[index].disktrk == null
      requires track * SECTORS_PER_TRACK < blocks && !Cached(table, track)
      modifies `Repr, `table, cache, t.Repr(), image`faults
      ensures Coherent() && fresh(Repr - old(Repr))
      ensures KeepsFile(old(image.bytes), old(image.faults), ok)
      ensures ok ==> cache[index].disktrk == t && table == old(table)[index := Used(track, cache[index].serial)]
    {
      hide FileSector, SectorSize, DiskTrack.Valid, DiskTrack.Agrees, Cached;
      ok := ReadTrack(t, track);
      if ok {
        Install(index, t);
      }
    }

    method NewTrack() returns (t: DiskTrack)
      requires Coherent()
      modifies `Repr
      ensures Coherent() && Detached(t) && fresh(t) && fresh(t.Repr()) && Repr == old(Repr) + t.Repr()
    {
      hide FileSector, SectorSize, Cached, DiskTrack.Agrees;
      t := new DiskTrack();
      Repr := Repr + t.Repr();
    }

    /** Makes room: the slot that was used longest ago is saved and emptied. Its track object is kept for reuse. */
    method Evict() returns (c: nat, t: DiskTrack?)
      requires Coherent() && forall k :: 0 <= k < CACHE_MAX ==> cache[k].disktrk != null
      modifies Repr - {this}, `table
      ensures Coherent() && c < CACHE_MAX
      ensures forall k :: 0 <= k < CACHE_MAX ==> old(table)[k].Used? && old(table)[c].serial <= old(table)[k].serial
      ensures |image.bytes| == old(|image.bytes|) && image.faults >= old(image.faults)
      ensures t != null <==> image.faults == old(image.faults)
      ensures t == null ==> table == old(table)
      ensures t != null ==> cache[c].disktrk == null && table == old(table)[c := Empty] && Detached(t) && t in old(Repr)
    {
      hide FileSector, SectorSize, Loaded, Cached;
      c := FindOldest();
      var saved := SaveSlot(c);
      if !saved {
        return c, null;
      }
      t := Detach(c);
    }

    /** Brings `track`, which is not cached, into a slot. */
    method Fetch(track: nat) returns (c: nat, ok: bool)
      requires Coherent() && track * SECTORS_PER_TRACK < blocks && !Cached(table, track)
      modifies Repr
      ensures KeepsFile(old(image.bytes), old(image.faults), ok)
      ensures Coherent() && fresh(Repr - old(Repr))
      ensures store == old(store) && serial == old(serial) && history == old(history) && orderly == old(orderly)
      ensures c < CACHE_MAX
      ensures old(table)[c].Empty? || forall k :: 0 <= k < CACHE_MAX ==>
          old(table)[k].Used? && old(table)[c].serial <= old(table)[k].serial
      ensures ok ==> cache[c].disktrk != null && table == old(table)[c := Used(track, cache[c].serial)]
    {
      hide FileSector, SectorSize, Loaded, Cached, DiskTrack.Agrees;
      c := FindEmpty();
      var t;
      if c < CACHE_MAX {
        t := NewTrack();
      } else {
        c, t := Evict();
        if t == null {
          return c, false;
        }
        EmptyingKeepsMiss(old(table), c, track);
      }
      ok := Load(c, track, t);
    }

    lemma EmptyingKeepsMiss(v: seq<Entry>, c: nat, track: nat)
      requires c < |v| && !Cached(v, track)
      ensures !Cached(v[c := Empty], track)
    {
    }

    /** Finds `track` in the cache or brings it there, and records the access. */
    method Assign(track: nat) returns (t: DiskTrack?)
      requires Accessing() && track * SECTORS_PER_TRACK < blocks
      modifies Repr
      ensures Valid() && fresh(Repr - old(Repr))
      ensures store == old(store) && serial == old(serial)
      ensures KeepsFile(old(image.bytes), old(image.faults), t != null)
      ensures t != null ==> (exists i :: 0 <= i < CACHE_MAX && cache[i].disktrk == t) && t.track == track
      ensures orderly == (old(orderly) && t != null)
      ensures t != null ==> history == old(history) + [track]
    {
      hide FileSector, SectorSize, Loaded, Cached, Ordered, DiskTrack.Agrees;
      var i := FindTrack(track);
      if i < CACHE_MAX {
        if orderly { Hit(table, history, i, track); }
      } else {
        ghost var before := table;
        var ok;
        i, ok := Fetch(track);
        if !ok {
          orderly := false;
          return null;
        }
        if orderly { Miss(before, history, i, track); }
        assert table[i := Used(track, serial)] == before[i := Used(track, serial)];
      }
      Stamp(i);
      t := cache[i].disktrk;
    }

    /** A successful read returns the store's sector; no read changes the store. */
    method ReadSector(buf: array<byte>, block: nat) returns (ok: bool)
      requires Valid() && block < blocks && buf !in Repr && SectorSize(shift) <= buf.Length
      modifies Repr, buf
      ensures Valid() && fresh(Repr - old(Repr)) && store == old(store)
      ensures KeepsFile(old(image.bytes), old(image.faults), ok)
      ensures AccessStep(old(store), Access.Read(block, ok, buf[..SectorSize(shift)]), store)
      ensures !ok ==> buf[..] == old(buf[..])
      ensures buf[SectorSize(shift)..] == old(buf[SectorSize(shift)..])
      ensures ok && old(orderly) && |old(history)| + 1 < SERIAL_LIMIT ==>
                orderly && history == old(history) + [block / SECTORS_PER_TRACK]
    {
      hide FileSector, SectorSize, Cached, Ordered, DiskTrack.Agrees;
      UpdateSerialNumber();
      var track := block / SECTORS_PER_TRACK;
      var t := Assign(track);
      if t == null {
        return false;
      }
      assert Loaded(t);
      assert t.Block(block % SECTORS_PER_TRACK) == block;
      ok := t.ReadSector(buf, block % SECTORS_PER_TRACK);
    }

    /** A successful write changes its own sector of the store and no other; a failing one changes none. */
    method WriteSector(buf: array<byte>, block: nat) returns (ok: bool)
      requires Valid() && !raw && block < blocks && buf !in Repr && SectorSize(shift) <= buf.Length
      modifies Repr
      ensures Valid() && fresh(Repr - old(Repr))
      ensures KeepsFile(old(image.bytes), old(image.faults), ok)
      ensures AccessStep(old(store), Access.Write(block, ok, buf[..SectorSize(shift)]), store)
      ensures ok && old(orderly) && |old(history)| + 1 < SERIAL_LIMIT ==>
                orderly && history == old(history) + [block / SECTORS_PER_TRACK]
    {
      hide FileSector, SectorSize, Cached, Ordered, BufferSector, SectorOffset;
      UpdateSerialNumber();
      var track := block / SECTORS_PER_TRACK;
      var t := Assign(track);
      if t == null {
        return false;
      }
      ok := WriteTrack(t, buf, block);
    }

    method WriteTrack(t: DiskTrack, buf: array<byte>, block: nat) returns (ok: bool)
      requires Valid() && !raw && block < blocks && buf !in Repr && SectorSize(shift) <= buf.Length
      requires (exists i :: 0 <= i < CACHE_MAX && cache[i].disktrk == t) && t.track == block / SECTORS_PER_TRACK
      modifies `store, t`changed, t`content, t`marks, t.buffer, t.changemap
      ensures Valid() && ok && store == old(store)[block := buf[..SectorSize(shift)]]
    {
      hide FileSector, SectorSize, Cached, Ordered, BufferSector, SectorOffset, LoadedWith;
      ghost var s := store;
      ok := WriteLoaded(t, buf, block);
      store := store[block := buf[..SectorSize(shift)]];
      forall j | 0 <= j < CACHE_MAX && cache[j].disktrk != null && cache[j].disktrk != t
        ensures Loaded(cache[j].disktrk)
      {
        OtherTrackLoaded(cache[j].disktrk, s, block, buf[..SectorSize(shift)]);
      }
      forall b | 0 <= b < blocks && !Cached(table, b / SECTORS_PER_TRACK)
        ensures b != block
      {
        CachedHere(t);
      }
    }

    /** Carries out one command. */
    method ServeOne(c: Command, buf: array<byte>) returns (a: Access)
      requires Valid() && !raw && c.block < blocks && buf !in Repr && SectorSize(shift) <= buf.Length
      requires c.Put? ==> |c.data| == SectorSize(shift)
      modifies Repr, buf
      ensures Valid() && fresh(Repr - old(Repr)) && Answers(a, c) && AccessStep(old(store), a, store)
      ensures KeepsFile(old(image.bytes), old(image.faults), a.ok)
      ensures a.ok && old(orderly) && |old(history)| + 1 < SERIAL_LIMIT ==>
                orderly && history == old(history) + [c.block / SECTORS_PER_TRACK]
    {
      hide FileSector, SectorSize, Coherent, Ordered;
      match c {
        case Get(block) =>
          var ok := ReadSector(buf, block);
          a := Access.Read(block, ok, buf[..SectorSize(shift)]);
        case Put(block, data) =>
          forall i | 0 <= i < |data| {
            buf[i] := data[i];
          }
          assert buf[..SectorSize(shift)] == data;
          var ok := WriteSector(buf, block);
          a := Access.Write(block, ok, data);
      }
    }

    /** Carries out commands one after the other. On a file that holds the whole disk, all of them succeed if there is
        no fault, and the cache then holds the last sixteen distinct tracks. */
    method Serve(commands: seq<Command>, buf: array<byte>)
        returns (accesses: seq<Access>, ghost stores: seq<seq<Sector>>)
      requires Valid() && !raw && buf !in Repr && SectorSize(shift) <= buf.Length
      requires forall c :: c in commands ==> c.block < blocks && (c.Put? ==> |c.data| == SectorSize(shift))
      modifies Repr, buf
      ensures Valid() && fresh(Repr - old(Repr))
      ensures |accesses| == |commands| && forall i :: 0 <= i < |commands| ==> Answers(accesses[i], commands[i])
      ensures IsRun(stores, accesses) && stores[0] == old(store) && stores[|accesses|] == store
      ensures Whole(old(|image.bytes|)) && image.faults == old(image.faults) ==> forall a :: a in accesses ==> a.ok
      ensures Whole(old(|image.bytes|)) && image.faults == old(image.faults)
              && old(orderly) && |old(history)| + |commands| < SERIAL_LIMIT ==>
                && orderly && history == old(history) + TracksOf(commands)
                && var r := Recent(history);
                   Tracks(table) == Elements(r[..if |r| < CACHE_MAX then |r| else CACHE_MAX])
    {
      hide FileSector, SectorSize, Coherent, Ordered, AccessStep, IsRun, Answers, Whole;
      accesses, stores := [], [store];
      NothingRun(store);
      var i := 0;
      while i < |commands|
        invariant i == |accesses| <= |commands| && Valid() && fresh(Repr - old(Repr)) && buf !in Repr
        invariant forall k :: 0 <= k < i ==> Answers(accesses[k], commands[k])
        invariant IsRun(stores, accesses) && |stores| == i + 1 && stores[0] == old(store) && stores[i] == store
        invariant |image.bytes| == old(|image.bytes|) && image.faults >= old(image.faults)
        invariant Whole(old(|image.bytes|)) && image.faults == old(image.faults) ==> forall a :: a in accesses ==> a.ok
        invariant Whole(old(|image.bytes|)) && image.faults == old(image.faults)
                  && old(orderly) && |old(history)| + |commands| < SERIAL_LIMIT ==>
                    orderly && history == old(history) + TracksOf(commands[..i])
      {
        assert commands[i] in commands;
        var a := ServeOne(commands[i], buf);
        LongerRun(stores, accesses, a, store);
        accesses, stores := accesses + [a], stores + [store];
        assert TracksOf(commands[..i + 1]) == TracksOf(commands[..i]) + [commands[i].block / SECTORS_PER_TRACK];
        i := i + 1;
      }
      assert commands[..i] == commands;
      if orderly {
        HoldsLastTracks();
      }
    }

    lemma CachedHere(t: DiskTrack)
      requires Structure() && exists i :: 0 <= i < CACHE_MAX && cache[i].disktrk == t
      ensures Cached(table, t.track)
    {
      var i :| 0 <= i < CACHE_MAX && cache[i].disktrk == t;
      assert table[i].Used? && table[i].track == t.track;
    }

    method WriteLoaded(t: DiskTrack, buf: array<byte>, block: nat) returns (ok: bool)
      requires LoadedWith(t, store) && !raw && block < blocks && t.track == block / SECTORS_PER_TRACK
      requires buf !in t.Repr() && SectorSize(shift) <= buf.Length
      modifies t`changed, t`content, t`marks, t.buffer, t.changemap
      ensures ok && LoadedWith(t, store[block := buf[..SectorSize(shift)]])
    {
      hide FileSector, SectorSize, BufferSector, SectorOffset, DiskTrack.Agrees;
      ok := t.WriteSector(buf, block % SECTORS_PER_TRACK);
      assert t.Block(block % SECTORS_PER_TRACK) == block;
    }

    lemma OtherTrackLoaded(u: DiskTrack, s: seq<Sector>, block: nat, data: Sector)
      requires LoadedWith(u, s) && block < blocks && u.track != block / SECTORS_PER_TRACK
      ensures LoadedWith(u, s[block := data])
    {
      hide FileSector, SectorSize, BufferSector, SectorOffset, DiskTrack.Agrees;
      forall i | 0 <= i < u.sectors
        ensures u.Block(i) != block
      {
        assert u.Block(i) / SECTORS_PER_TRACK == u.track;
      }
    }
  }
}
