/** The image file behind a disk, and the file handle through which the track cache reaches it.

    Every open, seek, read and write may fail; a failing write may have stored any prefix of its data. */
module DiskImage {
  import opened Bytes

  /** The file's bytes once `data` is written at `pos`; a gap before `pos` reads as zero. */
  function Overwrite(file: seq<byte>, pos: nat, data: seq<byte>): (f: seq<byte>)
    ensures pos + |data| <= |file| ==> |f| == |file|
  {
    if data == [] then file
    else if pos + |data| <= |file| then file[..pos] + data + file[pos + |data|..]
    else if pos <= |file| then file[..pos] + data
    else file + seq(pos - |file|, _ => 0) + data
  }

  /** A call of write(2): where it starts and how much it was asked to store. */
  datatype Request = Request(pos: nat, size: nat)

  class Image {
    var bytes: seq<byte>
    ghost var requests: seq<Request>
    /** How often the host has failed an operation that it could have carried out. */
    ghost var faults: nat

    constructor (content: seq<byte>)
      ensures bytes == content && requests == [] && faults == 0
    {
      bytes := content;
      requests := [];
      faults := 0;
    }
  }

  class Fileio {
    const image: Image
    var isOpen: bool
    var pos: nat

    constructor (image: Image)
      ensures this.image == image && !isOpen
    {
      this.image := image;
      isOpen := false;
      pos := 0;
    }

    method Open() returns (ok: bool)
      modifies this, image`faults
      ensures ok == isOpen && image.faults == old(image.faults) + if ok then 0 else 1
    {
      ok := *;
      isOpen, pos := ok, 0;
      image.faults := image.faults + if ok then 0 else 1;
    }

    /** Opens with O_DIRECT and falls back to a plain open; it is a fault only if both fail. */
    method OpenDIO() returns (ok: bool)
      modifies this, image`faults
      ensures ok == isOpen && image.faults == old(image.faults) + if ok then 0 else 1
    {
      ghost var before := image.faults;
      ok := Open();
      if !ok {
        image.faults := before;
        ok := Open();
      }
    }

    method Close()
      modifies this
    {
      isOpen := false;
    }

    method Seek(offset: nat) returns (ok: bool)
      requires isOpen
      modifies this`pos, image`faults
      ensures ok ==> pos == offset
      ensures image.faults == old(image.faults) + if ok then 0 else 1
    {
      ok := *;
      if ok {
        pos := offset;
      }
      image.faults := image.faults + if ok then 0 else 1;
    }

    /** A read past the end of the file fails without a fault. */
    method Read(buffer: array<byte>, from: nat, size: nat) returns (ok: bool)
      requires isOpen && 0 < size && from + size <= buffer.Length
      modifies this`pos, image`faults, buffer
      ensures image.faults == old(image.faults) + if ok || old(pos) + size > |image.bytes| then 0 else 1
      ensures buffer[..from] == old(buffer[..from])
      ensures buffer[from + size..] == old(buffer[from + size..])
      ensures ok ==> old(pos) + size <= |image.bytes|
                     && buffer[from..from + size] == image.bytes[old(pos)..old(pos) + size]
    {
      var available := if pos <= |image.bytes| then |image.bytes| - pos else 0;
      var count: nat :| count <= size && count <= available;
      forall k | 0 <= k < count {
        buffer[from + k] := image.bytes[pos + k];
      }
      image.faults := image.faults + if count == size || pos + size > |image.bytes| then 0 else 1;
      pos := pos + count;
      return count == size;
    }

    /** `stored` is how much of the data reached the file. */
    method Write(buffer: array<byte>, from: nat, size: nat) returns (ok: bool, ghost stored: nat)
      requires isOpen && 0 < size && from + size <= buffer.Length
      modifies this`pos, image
      ensures image.requests == old(image.requests) + [Request(old(pos), size)]
      ensures stored <= size && (ok <==> stored == size)
      ensures image.faults == old(image.faults) + if ok then 0 else 1
      ensures image.bytes == Overwrite(old(image.bytes), old(pos), buffer[from..from + stored])
    {
      var count: nat :| count <= size;
      ok := count == size;
      image.faults := image.faults + if ok then 0 else 1;
      image.bytes := Overwrite(image.bytes, pos, buffer[from..from + count]);
      image.requests := image.requests + [Request(pos, size)];
      pos := pos + count;
      stored := count;
    }
  }
}
