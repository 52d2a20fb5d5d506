/** The file control blocks of the host file system: a fixed pool on a ring, used entries at the front. */
module FcbPools {
  import opened Bytes
  import opened Rings

  const POOL_SIZE: nat := 100

  /** `key` is the caller's buffer address, 0 in an unused entry; `open` tells whether there is a host file. */
  datatype Fcb = Fcb(key: nat, open: bool, path: seq<byte>)

  const UNUSED := Fcb(0, false, [])

  // ---------- the pool as a list ----------

  /** Entries in use are ahead of all others and have keys of their own; the others have no open file. */
  ghost predicate Orderly(pool: seq<Fcb>) {
    && (forall i, j {:trigger MayPrecede(pool[i], pool[j])} :: 0 <= i < j < |pool| ==> MayPrecede(pool[i], pool[j]))
    && (forall i {:trigger ClosedIfUnused(pool[i])} :: 0 <= i < |pool| ==> ClosedIfUnused(pool[i]))
  }

  predicate MayPrecede(f: Fcb, g: Fcb) {
    g.key != 0 ==> f.key != 0 && f.key != g.key
  }

  predicate ClosedIfUnused(f: Fcb) {
    f.key == 0 ==> !f.open
  }

  /** What the pool stands for: the files in use, by their keys. */
  ghost function Files(pool: seq<Fcb>): map<nat, Fcb> {
    if pool == [] then map[]
    else
      var rest := Files(pool[1..]);
      if pool[0].key == 0 then rest else rest[pool[0].key := pool[0]]
  }

  lemma {:induction false} FileOf(pool: seq<Fcb>, i: nat)
    requires Orderly(pool) && i < |pool| && pool[i].key != 0
    ensures pool[i].key in Files(pool) && Files(pool)[pool[i].key] == pool[i]
  {
    if i > 0 {
      Rest(pool);
      FileOf(pool[1..], i - 1);
      assert MayPrecede(pool[0], pool[i]);
    }
  }

  lemma {:induction false} EntryOf(pool: seq<Fcb>, key: nat) returns (i: nat)
    requires key in Files(pool)
    ensures key != 0 && i < |pool| && pool[i] == Files(pool)[key] && pool[i].key == key
  {
    if pool[0].key == key && key != 0 {
      i := 0;
    } else {
      var j := EntryOf(pool[1..], key);
      i := j + 1;
    }
  }

  lemma Rest(pool: seq<Fcb>)
    requires Orderly(pool) && pool != []
    ensures Orderly(pool[1..])
  {
    var rest := pool[1..];
    forall i, j | 0 <= i < j < |rest| ensures MayPrecede(rest[i], rest[j]) {
      assert MayPrecede(pool[i + 1], pool[j + 1]);
    }
    forall i | 0 <= i < |rest| ensures ClosedIfUnused(rest[i]) {
      assert ClosedIfUnused(pool[i + 1]);
    }
  }

  /** The pool holds no more than it has room for, and it is full exactly when its last entry is in use. */
  lemma {:induction false} FullWhenLastIsUsed(pool: seq<Fcb>)
    requires Orderly(pool) && pool != []
    ensures |Files(pool)| <= |pool|
    ensures |Files(pool)| == |pool| <==> pool[|pool| - 1].key != 0
  {
    var rest := pool[1..];
    if rest == [] {
      assert Files(rest) == map[];
    } else {
      Rest(pool);
      FullWhenLastIsUsed(rest);
      assert MayPrecede(pool[0], pool[|pool| - 1]);
      forall key | key in Files(rest) ensures pool[0].key != key {
        var i := EntryOf(rest, key);
        assert MayPrecede(pool[0], pool[i + 1]);
      }
    }
  }

  /** Two orderly pools with the same used entries stand for the same files. */
  lemma SameFiles(p: seq<Fcb>, q: seq<Fcb>)
    requires Orderly(p) && Orderly(q) && forall f: Fcb :: f.key != 0 ==> (f in p <==> f in q)
    ensures Files(p) == Files(q)
  {
    forall k | k in Files(p) ensures k in Files(q) && Files(q)[k] == Files(p)[k] {
      var j := EntryOf(p, k);
      assert p[j] in q;
      var i :| 0 <= i < |q| && q[i] == Files(p)[k];
      FileOf(q, i);
    }
    forall k | k in Files(q) ensures k in Files(p) {
      var j := EntryOf(q, k);
      assert q[j] in p;
      var i :| 0 <= i < |p| && p[i] == Files(q)[k];
      FileOf(p, i);
    }
  }

  lemma MovedToFront(pool: seq<Fcb>, k: nat)
    requires Orderly(pool) && k < |pool| && pool[k].key != 0
    ensures var p := [pool[k]] + Except(pool, k); Orderly(p) && Files(p) == Files(pool)
  {
    hide Files;
    var p := [pool[k]] + Except(pool, k);
    forall i, j | 0 <= i < j < |p| ensures MayPrecede(p[i], p[j]) {
      var j' := if j <= k then j - 1 else j;
      var i' := if i == 0 then k else if i <= k then i - 1 else i;
      assert p[i] == pool[i'] && p[j] == pool[j'];
      assert MayPrecede(pool[if i' < j' then i' else j'], pool[if i' < j' then j' else i']);
    }
    forall i | 0 <= i < |p| ensures ClosedIfUnused(p[i]) {
      assert ClosedIfUnused(pool[if i == 0 then k else if i <= k then i - 1 else i]);
    }
    forall f: Fcb | f.key != 0 ensures f in p <==> f in pool {
      assert pool == pool[..k] + [pool[k]] + pool[k + 1..];
    }
    SameFiles(p, pool);
  }

  lemma Allocated(pool: seq<Fcb>, f: Fcb)
    requires Orderly(pool) && pool != [] && pool[|pool| - 1].key == 0 && f.key != 0 && f.key !in Files(pool)
    ensures var p := [f] + pool[..|pool| - 1]; Orderly(p) && Files(p) == Files(pool)[f.key := f]
  {
    hide Files;
    var n := |pool| - 1;
    var p := [f] + pool[..n];
    forall i, j | 0 <= i < j < |p| ensures MayPrecede(p[i], p[j]) {
      if i > 0 {
        assert MayPrecede(pool[i - 1], pool[j - 1]);
      } else if pool[j - 1].key != 0 {
        FileOf(pool, j - 1);
      }
    }
    forall i | 0 <= i < |p| ensures ClosedIfUnused(p[i]) {
      assert i > 0 ==> ClosedIfUnused(pool[i - 1]);
    }
    var rest := pool[..n];
    assert p[1..] == rest;
    Rest(p);
    forall g: Fcb | g.key != 0 ensures g in pool <==> g in rest {
      assert pool == rest + [pool[n]];
    }
    SameFiles(pool, rest);
    FilesStep(p);
  }

  lemma FilesStep(pool: seq<Fcb>)
    requires pool != [] && pool[0].key != 0
    ensures Files(pool) == Files(pool[1..])[pool[0].key := pool[0]]
  {
  }

  lemma Freed(pool: seq<Fcb>, k: nat, f: Fcb)
    requires Orderly(pool) && k < |pool| && pool[k].key != 0 && f.key == 0 && !f.open
    ensures var p := Except(pool, k) + [f]; Orderly(p) && Files(p) == Files(pool) - {pool[k].key}
  {
    hide Files;
    var p := Except(pool, k) + [f];
    forall i, j | 0 <= i < j < |p| ensures MayPrecede(p[i], p[j]) {
      var i' := if i < k then i else i + 1;
      if j < |p| - 1 {
        assert MayPrecede(pool[i'], pool[if j < k then j else j + 1]);
      }
    }
    forall i | 0 <= i < |p| ensures ClosedIfUnused(p[i]) {
      assert i < |p| - 1 ==> ClosedIfUnused(pool[if i < k then i else i + 1]);
    }
    forall key | key in Files(p) ensures key in Files(pool) && key != pool[k].key && Files(pool)[key] == Files(p)[key] {
      var i := EntryOf(p, key);
      var j := if i < k then i else i + 1;
      assert p[i] == pool[j];
      FileOf(pool, j);
      assert MayPrecede(pool[if j < k then j else k], pool[if j < k then k else j]);
    }
    forall key | key in Files(pool) && key != pool[k].key ensures key in Files(p) {
      var i := EntryOf(pool, key);
      var j := if i < k then i else i - 1;
      assert p[j] == pool[i];
      FileOf(p, j);
    }
  }

  // ---------- the pool as a ring ----------

  class CHostFcbManager {
    const root: CRing<Fcb>

    ghost function Pool(): seq<Fcb>
      reads root`members, Nodes(root.members)`f
    {
      Contents(root.members)
    }

    ghost predicate Valid()
      reads root`members, Nodes(root.Cycle())`next, Nodes(root.Cycle())`prev, Nodes(root.Cycle())`f
    {
      root.Valid() && |root.members| == POOL_SIZE && Orderly(Pool())
    }

    constructor ()
      ensures Valid() && fresh(Nodes(root.Cycle())) && Files(Pool()) == map[]
    {
      hide Linked, Orderly, Files, Contents;
      root := new CRing(UNUSED);
      new;
      var i := 0;
      while i < POOL_SIZE
        invariant i <= POOL_SIZE && fresh(Nodes(root.Cycle())) && root.Valid() && |root.members| == i
        invariant forall k :: 0 <= k < |root.members| ==> root.members[k].f == UNUSED
      {
        AddUnused();
        i := i + 1;
      }
      ContentsAt(root.members);
      AllUnused(Pool());
    }

    method AddUnused()
      requires root.Valid()
      modifies root`members, Nodes(root.Cycle())`next, Nodes(root.Cycle())`prev
      ensures root.Valid() && |root.members| == |old(root.members)| + 1 && root.members[1..] == old(root.members)
      ensures root.members[0].f == UNUSED && fresh(root.members[0])
      ensures Nodes(root.Cycle()) == old(Nodes(root.Cycle())) + {root.members[0]}
    {
      hide Linked;
      var p := new CRing(UNUSED);
      Strangers(p, root);
      assert Nodes(p.Cycle()) == {p};
      p.Insert(root, p);
    }

    method Assign(p: CRing<Fcb>, f: Fcb, ghost k: nat)
      requires root.Valid() && k < |root.members| && root.members[k] == p
      modifies p`f
      ensures p.f == f && Pool() == old(Pool())[k := f]
    {
      hide Linked, Contents;
      MembersApart(root);
      ghost var a, b := root.members[..k], root.members[k + 1..];
      SplitAt(root.members, k);
      assert p !in Nodes(a) && p !in Nodes(b);
      ContentsOfParts(a, p, b);
      p.f := f;
      ContentsOfParts(a, p, b);
      assert Contents(a) + [f] + Contents(b) == old(Pool())[k := f];
    }

    method MoveToFront(p: CRing<Fcb>, ghost k: nat)
      requires root.Valid() && k < |root.members| && root.members[k] == p
      modifies root`members, Nodes(root.Cycle())`next, Nodes(root.Cycle())`prev
      ensures root.Valid() && root.members == [p] + Except(old(root.members), k)
      ensures Nodes(root.Cycle()) == old(Nodes(root.Cycle())) && Pool() == [p.f] + Except(old(Pool()), k)
    {
      hide Linked, Contents;
      MembersApart(root);
      WithoutAt(root.members, k);
      ghost var nodes := root.members;
      p.Insert(root, root);
      ContentsAround(nodes, k);
    }

    method MoveToEnd(p: CRing<Fcb>, ghost k: nat)
      requires root.Valid() && k < |root.members| && root.members[k] == p
      modifies root`members, Nodes(root.Cycle())`next, Nodes(root.Cycle())`prev
      ensures root.Valid() && root.members == Except(old(root.members), k) + [p]
      ensures Nodes(root.Cycle()) == old(Nodes(root.Cycle())) && Pool() == Except(old(Pool()), k) + [p.f]
    {
      hide Linked, Contents;
      MembersApart(root);
      WithoutAt(root.members, k);
      ghost var nodes := root.members;
      p.InsertTail(root, root);
      ContentsAround(nodes, k);
    }

    /** Takes the last entry, unless it is in use. */
    method Alloc(key: nat) returns (p: CRing?<Fcb>)
      requires Valid() && key != 0 && key !in Files(Pool())
      modifies root`members, Nodes(root.Cycle())`next, Nodes(root.Cycle())`prev, Nodes(root.Cycle())`f
      ensures Valid() && Nodes(root.Cycle()) == old(Nodes(root.Cycle()))
      ensures p == null <==> |Files(old(Pool()))| == POOL_SIZE
      ensures p == null ==> Pool() == old(Pool())
      ensures p != null ==>
                && p in root.members && p.f.key == key && !p.f.open
                && Files(Pool()) == Files(old(Pool()))[key := p.f]
    {
      hide Linked, Orderly, Files, Contents;
      ContentsAt(root.members);
      Ends(root);
      ghost var last := POOL_SIZE - 1;
      FullWhenLastIsUsed(Pool());
      p := root.prev;
      assert p == root.members[last];
      if p.f.key != 0 {
        return null;
      }
      UnusedIsClosed(Pool(), last);
      MoveToFront(p, last);
      ghost var moved := Pool();
      Assign(p, p.f.(key := key), 0);
      assert moved[0 := p.f] == [p.f] + old(Pool())[..last];
      Allocated(old(Pool()), p.f);
    }

    /** Finds the entry of a key and moves it to the front. */
    method Search(key: nat) returns (p: CRing?<Fcb>)
      requires Valid() && key != 0
      modifies root`members, Nodes(root.Cycle())`next, Nodes(root.Cycle())`prev
      ensures Valid() && Nodes(root.Cycle()) == old(Nodes(root.Cycle())) && Files(Pool()) == Files(old(Pool()))
      ensures p == null <==> key !in Files(Pool())
      ensures p != null ==> p in root.members && p == root.members[0] && p.f == Files(Pool())[key] && p.f.key == key
    {
      hide Linked, Orderly, Files, Contents;
      ContentsAt(root.members);
      Ends(root);
      MembersApart(root);
      p := root.next;
      ghost var k := 0;
      while p != root
        invariant Valid() && root.members == old(root.members) && root !in root.members && Pool() == old(Pool())
        invariant k <= |root.members| && p == if k < |root.members| then root.members[k] else root
        invariant forall i :: 0 <= i < k ==> Pool()[i].key != key
        decreases |root.members| - k
      {
        if p.f.key == key {
          Found(Pool(), k);
          MoveToFront(p, k);
          return;
        }
        NextOf(root, k);
        p := p.next;
        k := k + 1;
      }
      NotFound(Pool(), key);
      p := null;
    }

    /** Puts an entry in use back to the end. */
    method Free(p: CRing<Fcb>)
      requires Valid() && p in root.members && p.f.key != 0
      modifies root`members, Nodes(root.Cycle())`next, Nodes(root.Cycle())`prev, p`f
      ensures Valid() && Nodes(root.Cycle()) == old(Nodes(root.Cycle()))
      ensures Files(Pool()) == Files(old(Pool())) - {old(p.f.key)}
      ensures p == root.members[POOL_SIZE - 1] && p.f == old(p.f).(key := 0, open := false)
    {
      hide Linked, Orderly, Files, Contents;
      ghost var k := Index(root.members, p);
      ContentsAround(root.members, k);
      Assign(p, p.f.(key := 0, open := false), k);
      Freed(old(Pool()), k, p.f);
      assert Except(Pool(), k) == Except(old(Pool()), k);
      MoveToEnd(p, k);
    }

    /** Changes an entry in use, but not its key. */
    method Update(p: CRing<Fcb>, f: Fcb)
      requires Valid() && p in root.members && p.f.key == f.key != 0
      modifies p`f
      ensures Valid() && p.f == f && Files(Pool()) == Files(old(Pool()))[f.key := f]
    {
      hide Linked, Orderly, Files, Contents;
      ghost var k := Index(root.members, p);
      ContentsAround(root.members, k);
      Assign(p, f, k);
      Changed(old(Pool()), k, f);
    }
  }

  // ---------- the file functions ----------

  datatype Code =
    | Success | MediaOffline | WriteProtected | InvalidPointer | InvalidParameter | InvalidPath | CannotAccess
    | FileNotFound | OutOfMemory | IllegalMode | FileExists

  datatype Mode = ReadOnly | WriteOnly | ReadWrite | Unknown

  /** What the rest of the file system and the host answer: whether the medium is there and writable, whether the path
      or file is found and what it is called on the host, whether the host opens the file, and whether a directory or a
      special open mode makes an open succeed without a file. */
  datatype Host = Host(offline: bool, protected: bool, found: bool, path: seq<byte>, opens: bool, special: bool)

  class CFileSys {
    const fcbs: CHostFcbManager

    constructor ()
      ensures fcbs.Valid() && fresh(fcbs) && fresh(Nodes(fcbs.root.Cycle())) && Open() == map[]
    {
      fcbs := new CHostFcbManager();
    }

    /** The open files. */
    ghost function Open(): map<nat, Fcb>
      reads fcbs.root`members, Nodes(fcbs.root.members)`f
    {
      Files(fcbs.Pool())
    }

    /** Takes an entry for a file that is still to be opened. */
    method Take(key: nat, path: seq<byte>) returns (p: CRing?<Fcb>)
      requires fcbs.Valid() && key != 0 && key !in Open()
      modifies fcbs.root`members, Nodes(fcbs.root.Cycle())`next, Nodes(fcbs.root.Cycle())`prev,
          Nodes(fcbs.root.Cycle())`f
      ensures fcbs.Valid() && Nodes(fcbs.root.Cycle()) == old(Nodes(fcbs.root.Cycle()))
      ensures p == null <==> |old(Open())| == POOL_SIZE
      ensures p == null ==> Open() == old(Open())
      ensures p != null ==> p in fcbs.root.members && p.f == Fcb(key, false, path) && Open() == old(Open())[key := p.f]
    {
      hide Linked, Orderly, Files, Contents;
      p := fcbs.Alloc(key);
      if p != null {
        fcbs.Update(p, p.f.(path := path));
      }
    }

    /** Keeps the entry if the host has done its part, or gives it back. */
    method Conclude(p: CRing<Fcb>, ok: bool, open: bool, failure: Code) returns (code: Code)
      requires fcbs.Valid() && p in fcbs.root.members && p.f.key != 0
      modifies fcbs.root`members, Nodes(fcbs.root.Cycle())`next, Nodes(fcbs.root.Cycle())`prev,
          Nodes(fcbs.root.Cycle())`f
      ensures fcbs.Valid() && Nodes(fcbs.root.Cycle()) == old(Nodes(fcbs.root.Cycle()))
      ensures code == if ok then Success else failure
      ensures Open() == if ok then old(Open())[old(p.f).key := old(p.f).(open := open)]
          else old(Open()) - {old(p.f).key}
    {
      hide Linked, Orderly, Files, Contents;
      if ok {
        fcbs.Update(p, p.f.(open := open));
        code := Success;
      } else {
        fcbs.Free(p);
        code := failure;
      }
    }

    /** Creates a file. Only success changes the open files, and only by the new one. */
    method CreateFile(key: nat, directory: bool, host: Host) returns (code: Code)
      requires fcbs.Valid() && key != 0
      modifies fcbs.root`members, Nodes(fcbs.root.Cycle())`next, Nodes(fcbs.root.Cycle())`prev,
          Nodes(fcbs.root.Cycle())`f
      ensures fcbs.Valid() && Nodes(fcbs.root.Cycle()) == old(Nodes(fcbs.root.Cycle()))
      ensures Open() == if code == Success then old(Open())[key := Fcb(key, true, host.path)] else old(Open())
      ensures code == if host.offline then MediaOffline
                      else if host.protected then WriteProtected
                      else if key in old(Open()) then InvalidPointer
                      else if !host.found then InvalidPath
                      else if directory then CannotAccess
                      else if |old(Open())| == POOL_SIZE then OutOfMemory
                      else if host.opens then Success else FileExists
    {
      hide Linked, Orderly, Files, Contents;
      if host.offline {
        return MediaOffline;
      }
      if host.protected {
        return WriteProtected;
      }
      var p := fcbs.Search(key);
      if p != null {
        return InvalidPointer;
      }
      if !host.found {
        return InvalidPath;
      }
      if directory {
        return CannotAccess;
      }
      p := Take(key, host.path);
      if p == null {
        return OutOfMemory;
      }
      code := Conclude(p, host.opens, host.opens, FileExists);
    }

    method OpenFile(key: nat, mode: Mode, host: Host) returns (code: Code)
      requires fcbs.Valid() && key != 0
      modifies fcbs.root`members, Nodes(fcbs.root.Cycle())`next, Nodes(fcbs.root.Cycle())`prev,
          Nodes(fcbs.root.Cycle())`f
      ensures fcbs.Valid() && Nodes(fcbs.root.Cycle()) == old(Nodes(fcbs.root.Cycle()))
      ensures Open() == if code == Success then old(Open())[key := Fcb(key, host.opens, host.path)] else old(Open())
      ensures code == if host.offline then MediaOffline
                      else if mode in {WriteOnly, ReadWrite} && host.protected then WriteProtected
                      else if key in old(Open()) then InvalidParameter
                      else if !host.found then FileNotFound
                      else if |old(Open())| == POOL_SIZE then OutOfMemory
                      else if mode == Unknown then IllegalMode
                      else if host.opens || host.special then Success else InvalidPath
    {
      hide Linked, Orderly, Files, Contents;
      if host.offline {
        return MediaOffline;
      }
      if mode in {WriteOnly, ReadWrite} && host.protected {
        return WriteProtected;
      }
      var p := fcbs.Search(key);
      if p != null {
        return InvalidParameter;
      }
      if !host.found {
        return FileNotFound;
      }
      p := Take(key, host.path);
      if p == null {
        return OutOfMemory;
      }
      if mode == Unknown {
        code := Conclude(p, false, false, IllegalMode);
      } else {
        code := Conclude(p, host.opens || host.special, host.opens, InvalidPath);
      }
    }

    method CloseFile(key: nat, host: Host) returns (code: Code)
      requires fcbs.Valid() && key != 0
      modifies fcbs.root`members, Nodes(fcbs.root.Cycle())`next, Nodes(fcbs.root.Cycle())`prev,
          Nodes(fcbs.root.Cycle())`f
      ensures fcbs.Valid() && Nodes(fcbs.root.Cycle()) == old(Nodes(fcbs.root.Cycle()))
      ensures Open() == if code == Success then old(Open()) - {key} else old(Open())
      ensures code == if host.offline then MediaOffline else if key in old(Open()) then Success else InvalidParameter
    {
      hide Linked, Orderly, Files, Contents;
      if host.offline {
        return MediaOffline;
      }
      var p := fcbs.Search(key);
      if p == null {
        return InvalidParameter;
      }
      fcbs.Free(p);
      code := Success;
    }
  }

  lemma Changed(pool: seq<Fcb>, k: nat, f: Fcb)
    requires Orderly(pool) && k < |pool| && f.key == pool[k].key != 0
    ensures Orderly(pool[k := f]) && Files(pool[k := f]) == Files(pool)[f.key := f]
  {
    hide Files;
    var p := pool[k := f];
    forall i, j | 0 <= i < j < |p| ensures MayPrecede(p[i], p[j]) {
      assert MayPrecede(pool[i], pool[j]);
    }
    forall i | 0 <= i < |p| ensures ClosedIfUnused(p[i]) {
      assert ClosedIfUnused(pool[i]);
    }
    FileOf(p, k);
    forall key | key in Files(p) && key != f.key ensures key in Files(pool) && Files(pool)[key] == Files(p)[key] {
      var i := EntryOf(p, key);
      FileOf(pool, i);
    }
    forall key | key in Files(pool) ensures key in Files(p) {
      var i := EntryOf(pool, key);
      FileOf(p, i);
    }
  }

  lemma Found(pool: seq<Fcb>, k: nat)
    requires Orderly(pool) && k < |pool| && pool[k].key != 0
    ensures pool[k].key in Files(pool) && Files(pool)[pool[k].key] == pool[k]
    ensures var p := [pool[k]] + Except(pool, k); Orderly(p) && Files(p) == Files(pool)
  {
    FileOf(pool, k);
    MovedToFront(pool, k);
  }

  lemma NotFound(pool: seq<Fcb>, key: nat)
    requires forall i :: 0 <= i < |pool| ==> pool[i].key != key
    ensures key !in Files(pool)
  {
    if key in Files(pool) {
      var i := EntryOf(pool, key);
      assert false;
    }
  }

  lemma AllUnused(pool: seq<Fcb>)
    requires forall i :: 0 <= i < |pool| ==> pool[i] == UNUSED
    ensures Orderly(pool) && Files(pool) == map[]
  {
    if pool != [] {
      AllUnused(pool[1..]);
    }
  }

  lemma UnusedIsClosed(pool: seq<Fcb>, k: nat)
    requires Orderly(pool) && k < |pool| && pool[k].key == 0
    ensures !pool[k].open
  {
    assert ClosedIfUnused(pool[k]);
  }
}
