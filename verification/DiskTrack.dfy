/** One track of the write-back cache: up to 256 sectors, a mark for each sector that differs from the file. */
module DiskTracks {
  import opened Bytes
  import opened DiskImage
  import opened Sectors

  class DiskTrack {
    var track: nat
    var shift: nat
    var sectors: nat
    var raw: bool
    var imgoffset: nat
    var init: bool
    var changed: bool
    var buffer: array?<byte>
    var changemap: array?<bool>

    /** The buffer sector by sector, and the change map, as long as the track is initialized. */
    ghost var content: seq<Sector>
    ghost var marks: seq<bool>

    ghost function Repr(): set<object>
      reads this
    {
      {this} + (if buffer == null then {} else {buffer}) + (if changemap == null then {} else {changemap})
    }

    ghost function Geo(): Geometry
      reads `shift, `raw, `imgoffset
    {
      Geometry(SectorSize(shift), raw, imgoffset)
    }

    /** The block of sector `i`. */
    ghost function Block(i: nat): nat
      reads `track
    {
      track * SECTORS_PER_TRACK + i
    }

    /** The offset of the track in the image file. */
    ghost function Base(): nat
      reads `track, `shift, `raw, `imgoffset
    {
      SectorOffset(Geo(), track * SECTORS_PER_TRACK)
    }

    ghost predicate Valid()
      reads this, buffer, changemap
    {
      init ==>
        && 0 < sectors <= SECTORS_PER_TRACK
        && buffer != null && buffer.Length == sectors * SectorSize(shift)
        && changemap != null && changemap.Length == sectors
        && marks == changemap[..]
        && |content| == sectors
        && (forall i :: 0 <= i < sectors ==> content[i] == BufferSector(buffer[..], SectorSize(shift), i))
        && (raw ==> !changed)
        && (!changed ==> forall i :: 0 <= i < sectors ==> !marks[i])
    }

    /** The track lies inside the file, and its unmarked sectors are the file's. */
    ghost predicate Agrees(file: seq<byte>)
      reads this
    {
      && init && |content| == |marks| == sectors
      && (!raw ==> Base() + sectors * SectorSize(shift) <= |file|)
      && forall i :: 0 <= i < sectors && !marks[i] ==> content[i] == FileSector(file, Geo(), Block(i))
    }

    /** The file is long enough for the track. */
    ghost predicate InFile(length: nat)
      reads `track, `shift, `sectors, `raw, `imgoffset
    {
      Base() + (if raw && sectors > 0 then (sectors - 1) * RAW_STRIDE + SectorSize(shift)
          else sectors * SectorSize(shift))
      <= length
    }

    constructor ()
      ensures Valid() && !init && fresh(Repr())
    {
      track, shift, sectors, raw, imgoffset := 0, 0, 0, false, 0;
      init, changed := false, false;
      buffer, changemap := null, null;
      content, marks := [], [];
    }

    method Init(track: nat, shift: nat, sectors: nat, raw: bool, imgoffset: nat)
      requires 0 < sectors <= SECTORS_PER_TRACK
      modifies this
      ensures Valid() && !init && Repr() == old(Repr())
      ensures this.track == track && this.shift == shift && this.sectors == sectors && this.raw == raw
              && this.imgoffset == imgoffset
    {
      this.track, this.shift, this.sectors, this.raw, this.imgoffset := track, shift, sectors, raw, imgoffset;
      init, changed := false, false;
    }

    method Load(image: Image) returns (ok: bool)
      requires Valid() && 0 < sectors <= SECTORS_PER_TRACK
      requires init ==> Agrees(image.bytes)
      modifies Repr(), image`faults
      ensures Valid() && fresh(Repr() - old(Repr()))
      ensures image.faults >= old(image.faults) && (ok ==> image.faults == old(image.faults))
      ensures InFile(|image.bytes|) && image.faults == old(image.faults) ==> ok
      ensures track == old(track) && shift == old(shift) && sectors == old(sectors) && raw == old(raw)
              && imgoffset == old(imgoffset)
      ensures ok == init
      ensures old(init) ==> ok && content == old(content) && marks == old(marks)
      ensures ok ==> Agrees(image.bytes)
      ensures ok && !old(init) ==> forall i :: 0 <= i < sectors ==> !marks[i]
    {
      if init {
        return true;
      }
      hide BufferSector, FileSector, SectorSize, SectorOffset;
      Allocate();
      ok := ReadTrack(image);
      if ok {
        init := true;
        changed := false;
        content := BufferSectors(buffer[..], SectorSize(shift), sectors);
        marks := changemap[..];
      }
    }

    method ReadTrack(image: Image) returns (ok: bool)
      requires 0 < sectors && buffer != null && buffer.Length == sectors * SectorSize(shift)
      modifies buffer, image`faults
      ensures image.faults >= old(image.faults) && (ok ==> image.faults == old(image.faults))
      ensures InFile(|image.bytes|) && image.faults == old(image.faults) ==> ok
      ensures ok && !raw ==> Base() + sectors * SectorSize(shift) <= |image.bytes|
      ensures ok ==> forall i :: 0 <= i < sectors ==>
                BufferSector(buffer[..], SectorSize(shift), i) == FileSector(image.bytes, Geo(), Block(i))
    {
      hide BufferSector, FileSector, SectorSize;
      var size := SectorSize(shift);
      var offset: nat := track * SECTORS_PER_TRACK;
      if raw {
        offset := offset * RAW_STRIDE;
        offset := offset + RAW_HEADER;
      } else {
        offset := offset * size;
      }
      offset := offset + imgoffset;

      var fio := new Fileio(image);
      ok := fio.OpenDIO();
      if !ok {
        return;
      }
      if raw {
        ok := LoadRaw(fio, offset);
      } else {
        ok := LoadPlain(fio, offset);
      }
      fio.Close();
    }

    /** Gets a buffer and a cleared change map of the right lengths. */
    method Allocate()
      requires !init
      modifies Repr()
      ensures Valid() && !init && fresh(Repr() - old(Repr()))
      ensures track == old(track) && shift == old(shift) && sectors == old(sectors) && raw == old(raw)
              && imgoffset == old(imgoffset)
      ensures buffer != null && buffer.Length == sectors * SectorSize(shift)
      ensures changemap != null && changemap.Length == sectors && forall k :: 0 <= k < sectors ==> !changemap[k]
    {
      hide SectorSize;
      var length := sectors * SectorSize(shift);
      if buffer == null || buffer.Length != length {
        buffer := new byte[length];
      }
      if changemap == null || changemap.Length != sectors {
        changemap := new bool[sectors];
      }
      forall k | 0 <= k < sectors {
        changemap[k] := false;
      }
    }

    /** The whole track is read in one piece. */
    method LoadPlain(fio: Fileio, offset: nat) returns (ok: bool)
      requires fio.isOpen && !raw && 0 < sectors && offset == Base()
      requires buffer != null && buffer.Length == sectors * SectorSize(shift)
      modifies fio, buffer, fio.image`faults
      ensures fio.image.faults >= old(fio.image.faults) && (ok ==> fio.image.faults == old(fio.image.faults))
      ensures InFile(|fio.image.bytes|) && fio.image.faults == old(fio.image.faults) ==> ok
      ensures ok ==> offset + buffer.Length <= |fio.image.bytes|
      ensures ok ==> forall i :: 0 <= i < sectors ==>
                BufferSector(buffer[..], SectorSize(shift), i) == FileSector(fio.image.bytes, Geo(), Block(i))
    {
      ok := fio.Seek(offset);
      if !ok {
        return;
      }
      ProductMonotone(1, sectors, SectorSize(shift));
      ok := fio.Read(buffer, 0, buffer.Length);
      if ok {
        assert buffer[..] == fio.image.bytes[offset..offset + buffer.Length];
        forall i | 0 <= i < sectors
          ensures BufferSector(buffer[..], SectorSize(shift), i) == FileSector(fio.image.bytes, Geo(), Block(i))
        {
          SliceSector(fio.image.bytes, Geo(), track, sectors, i);
        }
      }
    }

    method LoadRawSector(fio: Fileio, i: nat, offset: nat) returns (ok: bool)
      requires fio.isOpen && raw && i < sectors && offset == Base() + i * RAW_STRIDE
      requires buffer != null && buffer.Length == sectors * SectorSize(shift)
      modifies fio, buffer, fio.image`faults
      ensures fio.isOpen == old(fio.isOpen)
      ensures fio.image.faults >= old(fio.image.faults) && (ok ==> fio.image.faults == old(fio.image.faults))
      ensures InFile(|fio.image.bytes|) && fio.image.faults == old(fio.image.faults) ==> ok
      ensures ok ==> BufferSector(buffer[..], SectorSize(shift), i) == FileSector(fio.image.bytes, Geo(), Block(i))
      ensures forall k :: 0 <= k < i ==>
                BufferSector(buffer[..], SectorSize(shift), k) == BufferSector(old(buffer[..]), SectorSize(shift), k)
    {
      var size := SectorSize(shift);
      ok := fio.Seek(offset);
      if !ok {
        return;
      }
      BufferSectorFits(buffer[..], size, sectors, i);
      ghost var before := buffer[..];
      ok := fio.Read(buffer, i * size, size);
      forall k | 0 <= k < i
        ensures BufferSector(buffer[..], size, k) == BufferSector(before, size, k)
      {
        BufferSectorFits(buffer[..i * size], size, i, k);
        EarlierSector(before, buffer[..], size, i, k);
      }
    }

    /** Raw mode: the user data of each sector is read on its own, the rest of it is skipped. */
    method LoadRaw(fio: Fileio, start: nat) returns (ok: bool)
      requires fio.isOpen && raw && 0 < sectors && start == Base()
      requires buffer != null && buffer.Length == sectors * SectorSize(shift)
      modifies fio, buffer, fio.image`faults
      ensures fio.image.faults >= old(fio.image.faults) && (ok ==> fio.image.faults == old(fio.image.faults))
      ensures InFile(|fio.image.bytes|) && fio.image.faults == old(fio.image.faults) ==> ok
      ensures ok ==> forall i :: 0 <= i < sectors ==>
                BufferSector(buffer[..], SectorSize(shift), i) == FileSector(fio.image.bytes, Geo(), Block(i))
    {
      var size := SectorSize(shift);
      var offset := start;
      for i := 0 to sectors
        invariant fio.isOpen && offset == start + i * RAW_STRIDE && fio.image.faults == old(fio.image.faults)
        invariant forall k :: 0 <= k < i ==>
                    BufferSector(buffer[..], size, k) == FileSector(fio.image.bytes, Geo(), Block(k))
      {
        ok := LoadRawSector(fio, i, offset);
        if !ok {
          return;
        }
        offset := offset + RAW_STRIDE;
      }
      ok := true;
    }

    /** The file once every marked sector has been written back. */
    ghost function Saved(file: seq<byte>): seq<byte>
      requires Valid() && init
      reads this, buffer, changemap
    {
      Patched(file, Base(), buffer[..], marks, SectorSize(shift), sectors)
    }

    /** The sectors of all other tracks are the same in both files. */
    ghost predicate OthersKept(before: seq<byte>, after: seq<byte>)
      reads this
    {
      |after| == |before| &&
      forall b: nat :: b / SECTORS_PER_TRACK != track ==> FileSector(after, Geo(), b) == FileSector(before, Geo(), b)
    }

    lemma TornFileKeepsOthers(file: seq<byte>, torn: seq<byte>)
      requires Valid() && init && !raw && Torn(file, torn, Saved(file))
      ensures OthersKept(file, torn)
    {
      hide BufferSector, Patched, SectorOffset, FileSector;
      forall b: nat | b / SECTORS_PER_TRACK != track
        ensures FileSector(torn, Geo(), b) == FileSector(file, Geo(), b)
      {
        OtherSector(file, torn, Geo(), track, buffer[..], marks, b);
      }
    }

    /** A file torn by an interrupted save still agrees with the track; a saved one has all its sectors. */
    lemma TornFileAgrees(file: seq<byte>, torn: seq<byte>)
      requires Valid() && init && !raw && Agrees(file)
      requires Torn(file, torn, Saved(file))
      ensures Agrees(torn)
      ensures forall i :: 0 <= i < sectors ==> FileSector(Saved(file), Geo(), Block(i)) == content[i]
    {
      hide BufferSector, Patched, SectorOffset, FileSector;
      forall i | 0 <= i < sectors
        ensures !marks[i] ==> FileSector(torn, Geo(), Block(i)) == content[i]
        ensures FileSector(Saved(file), Geo(), Block(i)) == content[i]
      {
        TrackSector(file, torn, Geo(), track, buffer[..], marks, i);
      }
    }

    /** One write for each run of marked sectors from `i` on. */
    ghost function SaveRequests(i: nat): seq<Request>
      requires i <= |marks|
      reads this
    {
      var rs, base, size := Runs(marks, i), Base(), SectorSize(shift);
      seq(|rs|, k requires 0 <= k < |rs| => RunRequest(base, size, rs[k]))
    }

    method Save(image: Image) returns (ok: bool)
      requires Valid()
      requires init ==> Agrees(image.bytes)
      modifies `changed, `marks, changemap, image
      ensures Valid()
      ensures image.faults >= old(image.faults) && (ok <==> image.faults == old(image.faults))
      ensures init ==> Agrees(image.bytes)
      ensures !init ==> ok && image.bytes == old(image.bytes) && image.requests == old(image.requests)
      ensures init ==> Torn(old(image.bytes), image.bytes, old(Saved(image.bytes)))
      ensures init && ok ==> image.bytes == old(Saved(image.bytes)) && forall i :: 0 <= i < sectors ==> !marks[i]
      ensures init && ok ==> image.requests == old(image.requests) + old(SaveRequests(0))
      ensures !ok ==> marks == old(marks)
      ensures OthersKept(old(image.bytes), image.bytes)
    {
      hide Patched, BufferSector, FileSector, SectorSize, Runs;
      if !init {
        return true;
      }
      if !changed {
        NothingToSave(image.bytes, Base(), buffer[..], marks, SectorSize(shift), sectors);
        return true;
      }
      ok := WriteBack(image);
      if !ok {
        return;
      }
      label Written:
      forall k | 0 <= k < sectors {
        changemap[k] := false;
      }
      changed := false;
      marks := changemap[..];
      assert buffer[..] == old@Written(buffer[..]);
      assert Geo() == old@Written(Geo());
      forall i | 0 <= i < sectors
        ensures content[i] == FileSector(image.bytes, Geo(), Block(i))
      {
        assert Block(i) == old@Written(Block(i));
      }
    }

    /** The part of `Save` that opens the file and writes to it. */
    method WriteBack(image: Image) returns (ok: bool)
      requires Valid() && init && changed && Agrees(image.bytes)
      modifies image
      ensures image.faults >= old(image.faults) && (ok <==> image.faults == old(image.faults))
      ensures Agrees(image.bytes)
      ensures Torn(old(image.bytes), image.bytes, old(Saved(image.bytes)))
      ensures ok ==> image.bytes == old(Saved(image.bytes))
      ensures ok ==> forall i :: 0 <= i < sectors ==> FileSector(image.bytes, Geo(), Block(i)) == content[i]
      ensures ok ==> image.requests == old(image.requests) + SaveRequests(0)
      ensures OthersKept(old(image.bytes), image.bytes)
    {
      hide Patched, BufferSector, FileSector, SectorSize, Runs, Torn;
      var size := SectorSize(shift);
      var offset: nat := track * SECTORS_PER_TRACK;
      offset := offset * size;
      offset := offset + imgoffset;

      var fio := new Fileio(image);
      ok := fio.Open();
      ghost var file := image.bytes;
      if !ok {
        PatchedNothing(file, offset, buffer[..], marks, size);
        PatchedIsTorn(file, offset, buffer[..], marks, size, 0);
        return;
      }
      ok := SaveRuns(fio, offset, size);
      fio.Close();
      TornFileAgrees(file, image.bytes);
      TornFileKeepsOthers(file, image.bytes);
    }

    /** The end of the run of marked sectors that starts at `i`, and its length in bytes. */
    method MarkedRun(i: nat, size: nat) returns (j: nat, total: nat)
      requires Valid() && init && i < sectors && changemap[i] && size > 0
      ensures j == RunEnd(marks, i) && i < j
      ensures total == (j - i) * size == j * size - i * size > 0
    {
      hide BufferSector, SectorSize;
      total := 0;
      j := i;
      while j < sectors && changemap[j]
        invariant i <= j <= sectors && total == (j - i) * size
        invariant RunEnd(marks, j) == RunEnd(marks, i)
      {
        assert (j + 1 - i) * size == (j - i) * size + size;
        total := total + size;
        j := j + 1;
      }
      ProductMonotone(i + 1, j, size);
    }

    /** Writes the run of marked sectors that starts at `i`. */
    method WriteRun(fio: Fileio, offset: nat, size: nat, i: nat, ghost file: seq<byte>) returns (ok: bool, j: nat)
      requires Valid() && init && i < sectors && changemap[i] && size == SectorSize(shift) && fio.isOpen
      requires offset + sectors * size <= |file| && fio.image.bytes == Patched(file, offset, buffer[..], marks, size, i)
      modifies fio, fio.image
      ensures fio.image.faults >= old(fio.image.faults) && (ok <==> fio.image.faults == old(fio.image.faults))
      ensures fio.isOpen && buffer[..] == old(buffer[..]) && j == RunEnd(marks, i) && i < j
      ensures ok ==> fio.image.bytes == Patched(file, offset, buffer[..], marks, size, j)
      ensures ok ==> fio.image.requests == old(fio.image.requests) + [RunRequest(offset, size, Run(i, j))]
      ensures !ok ==> Torn(file, fio.image.bytes, Patched(file, offset, buffer[..], marks, size, sectors))
    {
      hide Patched, Overwrite, BufferSector, SectorSize, Torn;
      ghost var data := buffer[..];
      var total;
      j, total := MarkedRun(i, size);
      PatchedRun(file, offset, data, marks, size, i, j);
      ok := fio.Seek(offset + i * size);
      if !ok {
        PatchedIsTorn(file, offset, data, marks, size, i);
        return;
      }
      ghost var stored;
      ok, stored := fio.Write(buffer, i * size, total);
      if !ok {
        CutRunIsTorn(file, offset, data, marks, size, i, j, stored);
      }
    }

    /** The partial write loop. */
    method SaveRuns(fio: Fileio, offset: nat, size: nat) returns (ok: bool)
      requires Valid() && init && !raw && fio.isOpen && Agrees(fio.image.bytes)
      requires offset == Base() && size == SectorSize(shift)
      modifies fio, fio.image
      ensures fio.image.faults >= old(fio.image.faults) && (ok <==> fio.image.faults == old(fio.image.faults))
      ensures Torn(old(fio.image.bytes), fio.image.bytes, old(Saved(fio.image.bytes)))
      ensures ok ==> fio.image.bytes == old(Saved(fio.image.bytes))
      ensures ok ==> fio.image.requests == old(fio.image.requests) + SaveRequests(0)
    {
      hide Patched, Overwrite, BufferSector, FileSector, SectorSize, Torn;
      var image := fio.image;
      ghost var file, data := image.bytes, buffer[..];
      PatchedNothing(file, offset, data, marks, size);
      var i := 0;
      while i < sectors
        invariant 0 <= i <= sectors && fio.isOpen && image.faults == old(image.faults)
        invariant image.bytes == Patched(file, offset, data, marks, size, i)
        invariant image.requests + SaveRequests(i) == old(image.requests) + SaveRequests(0)
      {
        if changemap[i] {
          var j;
          ok, j := WriteRun(fio, offset, size, i, file);
          if !ok {
            return;
          }
          assert SaveRequests(i) == [RunRequest(offset, size, Run(i, j))] + SaveRequests(j);
          i := j;
        } else {
          PatchedSkip(file, offset, data, marks, size, i);
          assert SaveRequests(i) == SaveRequests(i + 1);
          i := i + 1;
        }
      }
      PatchedIsTorn(file, offset, data, marks, size, sectors);
      ok := true;
    }

    method ReadSector(buf: array<byte>, sec: nat) returns (ok: bool)
      requires Valid() && buf !in Repr() && SectorSize(shift) <= buf.Length
      modifies buf
      ensures ok == (init && sec < sectors)
      ensures ok ==> buf[..SectorSize(shift)] == content[sec]
      ensures buf[SectorSize(shift)..] == old(buf[SectorSize(shift)..])
      ensures !ok ==> buf[..] == old(buf[..])
    {
      if !init || sec >= sectors {
        return false;
      }
      var size := SectorSize(shift);
      var from := sec * size;
      BufferSectorFits(buffer[..], size, sectors, sec);
      ghost var sector := content[sec];
      assert sector == buffer[from..from + size];
      hide BufferSector, SectorSize;
      forall k | 0 <= k < size {
        buf[k] := buffer[from + k];
      }
      assert buf[..size] == sector;
      return true;
    }

    method WriteSector(buf: array<byte>, sec: nat) returns (ok: bool)
      requires Valid() && !raw && buf !in Repr() && SectorSize(shift) <= buf.Length
      modifies `changed, `content, `marks, buffer, changemap
      ensures Valid()
      ensures ok == (init && sec < sectors)
      ensures ok ==> content == old(content)[sec := buf[..SectorSize(shift)]]
      ensures ok ==> (marks == old(marks) && content == old(content)) || marks == old(marks)[sec := true]
      ensures forall file: seq<byte> :: old(Agrees(file)) ==> Agrees(file)
      ensures !ok ==> content == old(content) && marks == old(marks)
    {
      if !init || sec >= sectors {
        return false;
      }
      hide BufferSector, SectorSize, FileSector, SectorOffset;
      var size := SectorSize(shift);
      var from := sec * size;
      BufferSectorFits(buffer[..], size, sectors, sec);
      BufferSectorIs(buffer[..], size, sec, from);
      if buf[..size] == buffer[from..from + size] {
        return true;
      }
      ghost var before := buffer[..];
      CopySector(buf, from, size);
      SectorReplaced(before, buffer[..], size, sectors, sec, from);
      changemap[sec] := true;
      changed := true;
      content := content[sec := buf[..size]];
      marks := changemap[..];
      return true;
    }

    method CopySector(buf: array<byte>, from: nat, size: nat)
      requires buffer != null && buf != buffer && size <= buf.Length && from + size <= buffer.Length
      modifies buffer
      ensures buffer[from..from + size] == buf[..size]
      ensures forall p :: 0 <= p < buffer.Length && !(from <= p < from + size) ==> buffer[p] == old(buffer[p])
    {
      forall k | 0 <= k < size {
        buffer[from + k] := buf[k];
      }
    }
  }

  /** A buffer of `n` sectors after a change inside one of them. */
  lemma SectorReplaced(before: seq<byte>, after: seq<byte>, size: nat, n: nat, sec: nat, from: nat)
    requires |before| == |after| == n * size && sec < n && from == sec * size && from + size <= |after|
    requires forall p :: 0 <= p < |before| && !(from <= p < from + size) ==> before[p] == after[p]
    ensures forall i :: 0 <= i < n ==>
              BufferSector(after, size, i) == if i == sec then after[from..from + size]
                  else BufferSector(before, size, i)
  {
    hide BufferSector;
    forall i | 0 <= i < n
      ensures BufferSector(after, size, i) == if i == sec then after[from..from + size]
          else BufferSector(before, size, i)
    {
      if i == sec {
        BufferSectorIs(after, size, sec, from);
      } else {
        OtherBufferSector(before, after, size, sec, i);
      }
    }
  }
}
