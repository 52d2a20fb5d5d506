/** The directory entries of the host as Human68k sees them: reading a host directory, again and again, and searching
    it. */
module Directories {
  import opened Bytes
  import opened HumanNames
  import opened NameCompares
  import opened Rings

  datatype Option<T> = None | Some(value: T)

  datatype Attribute = Archive | Directory | ReadOnly | Volume

  const ANY: set<Attribute> := {Archive, Directory, ReadOnly, Volume}

  /** What the host says of a file. */
  datatype Stat = Stat(directory: bool, readOnly: bool, size: nat, date: nat, time: nat)

  /** An entry of a host directory; there is no Stat if the host cannot say anything of it. */
  datatype HostEntry = HostEntry(name: Name, stat: Option<Stat>)

  /** A Human68k directory entry: the name in its two parts, padded, and the attributes. */
  datatype Dirent = Dirent(name: Name, ext: Name, attr: set<Attribute>, size: nat, date: nat, time: nat)

  const NO_DIRENT := Dirent([], [], {}, 0, 0, 0)

  /** A host file under its Human68k name, whose extension starts at `ext`. */
  datatype Filename = Filename(host: Name, human: Name, ext: nat, dirent: Dirent)

  /** A file name on the ring of a directory; `at` is where it was allocated. */
  datatype Node = Node(at: nat, f: Filename)

  /** A directory in the cache, under its Human68k path and its host path. The identifier tells its contents apart. */
  datatype HostPath = HostPath(human: Name, host: Name, refresh: bool, id: nat, names: seq<Node>)

  datatype Config = Config(o: Options, alphabet: bool)

  const ROUNDS: nat := 36

  // ---------- Human68k names of entries ----------

  predicate Same(cfg: Config, pattern: Name, human: Name) {
    |pattern| == |human| && Matches(cfg.alphabet, pattern, human, false, false)
  }

  predicate Found(cfg: Config, f: Filename, human: Name, mask: set<Attribute>) {
    f.dirent.attr * mask != {} && Same(cfg, human, f.human)
  }

  /** The first name on the list that fits, or the length. */
  function FindIndex(cfg: Config, list: seq<Node>, human: Name, mask: set<Attribute>): (k: nat)
    ensures k <= |list|
    ensures k < |list| ==> Found(cfg, list[k].f, human, mask)
    ensures forall i :: 0 <= i < k ==> !Found(cfg, list[i].f, human, mask)
  {
    if list == [] then 0 else if Found(cfg, list[0].f, human, mask) then 0
    else 1 + FindIndex(cfg, list[1..], human, mask)
  }

  predicate Taken(cfg: Config, list: seq<Node>, human: Name) {
    FindIndex(cfg, list, human, ANY) < |list|
  }

  /** A candidate for the Human68k name of a file. */
  datatype Named = Named(human: Name, ext: nat, correct: bool)

  function Variant(cfg: Config, host: Name, count: int): Named
    requires WellFormed(host)
  {
    Named(Human(cfg.o, host, count), HumanExt(cfg.o, host, count), Correct(cfg.o, host, count))
  }

  function Copied(human: Name): Named {
    Named(human, SeparateExt(human), true)
  }

  /** A name that no earlier entry and no host file has. */
  predicate Free(cfg: Config, list: seq<Node>, files: set<Name>, n: Named) {
    n.correct && !Taken(cfg, list, n.human) && n.human !in files
  }

  /** Numbered variants are tried until one is free; the last one is not looked at again. */
  function Settled(cfg: Config, host: Name, list: seq<Node>, files: set<Name>, n: Named, round: nat): Named
    requires WellFormed(host) && round <= ROUNDS
    decreases ROUNDS - round
  {
    if round == ROUNDS || Free(cfg, list, files, n) then n
    else Settled(cfg, host, list, files, Variant(cfg, host, round), round + 1)
  }

  /** The Human68k name of a host file: the one it has had, or else its own name shortened, unless a generated name is
      in use. */
  function NameFor(cfg: Config, host: Name, cached: Option<Name>, list: seq<Node>, files: set<Name>): Named
    requires WellFormed(host)
  {
    var n := if cached.Some? then Copied(cached.value) else Variant(cfg, host, -1);
    if n.human != host || !n.correct then Settled(cfg, host, list, files, n, 0) else n
  }

  function Padded(s: Name, n: nat, filler: byte): Name
    decreases n
  {
    if n == 0 then [] else if s == [] then [filler] + Padded([], n - 1, filler)
    else [s[0]] + Padded(s[1..], n - 1, filler)
  }

  /** Up to eight bytes padded with spaces, and up to ten more padded with zeros. */
  function PaddedBase(base: Name): Name {
    var eight := if |base| < 8 then |base| else 8;
    Padded(base[..eight], 8, SPACE) + Padded(base[eight..], 10, 0)
  }

  /** The directory entry of a name. */
  function Packed(n: Named, s: Stat): Dirent
    requires n.ext <= |n.human|
  {
    var base := n.human[..if n.ext < 18 then n.ext else 18];
    var rest := n.human[|base|..];
    var ext := if rest != [] && rest[0] == PERIOD then rest[1..] else rest;
    Dirent(PaddedBase(base), Padded(ext, 3, 0),
           {if s.directory then Directory else Archive} + (if s.readOnly then {ReadOnly} else {}),
           s.size, s.date, s.time)
  }

  lemma ExtInName(cfg: Config, host: Name, cached: Option<Name>, list: seq<Node>, files: set<Name>)
    requires WellFormed(host)
    ensures var n := NameFor(cfg, host, cached, list, files); n.ext <= |n.human|
  {
    var n := if cached.Some? then Copied(cached.value) else Variant(cfg, host, -1);
    ExtInVariant(cfg, host, -1);
    ExtInSettled(cfg, host, list, files, n, 0);
  }

  lemma ExtInVariant(cfg: Config, host: Name, count: int)
    requires WellFormed(host)
    ensures var n := Variant(cfg, host, count); n.ext <= |n.human|
  {
  }

  lemma {:induction false} ExtInSettled(cfg: Config, host: Name, list: seq<Node>, files: set<Name>, n: Named,
      round: nat)
    requires WellFormed(host) && round <= ROUNDS && n.ext <= |n.human|
    ensures var m := Settled(cfg, host, list, files, n, round); m.ext <= |m.human|
    decreases ROUNDS - round
  {
    if round < ROUNDS && !Free(cfg, list, files, n) {
      ExtInVariant(cfg, host, round);
      ExtInSettled(cfg, host, list, files, Variant(cfg, host, round), round + 1);
    }
  }

  // ---------- reading a directory ----------

  /** The state while a directory is read: the new list, what is left of the old one, the next free address, and whether
      anything has changed. */
  datatype Reading = Reading(list: seq<Node>, cache: seq<Node>, next: nat, changed: bool)

  function IndexOfHost(cache: seq<Node>, host: Name): (k: nat)
    ensures k <= |cache|
    ensures k < |cache| ==> cache[k].f.host == host
    ensures forall i :: 0 <= i < k ==> cache[i].f.host != host
  {
    if cache == [] then 0 else if cache[0].f.host == host then 0 else 1 + IndexOfHost(cache[1..], host)
  }

  function ReadEntry(cfg: Config, files: set<Name>, r: Reading, e: HostEntry): Reading
    requires WellFormed(e.name)
  {
    var k := IndexOfHost(r.cache, e.name);
    var cached := if k < |r.cache| then Some(r.cache[k].f.human) else None;
    var n := NameFor(cfg, e.name, cached, r.list, files);
    ExtInName(cfg, e.name, cached, r.list, files);
    if e.stat.None? then r.(changed := r.changed || cached.None?)
    else
      var f := Filename(e.name, n.human, n.ext, Packed(n, e.stat.value));
      if cached.None? then Reading(r.list + [Node(r.next, f)], r.cache, r.next + 1, true)
      else if r.cache[k].f.dirent == f.dirent then Reading(r.list + [r.cache[k]], Except(r.cache, k), r.next, r.changed)
      else Reading(r.list + [Node(r.next, f)], Except(r.cache, k), r.next + 1, true)
  }

  function ReadAll(cfg: Config, files: set<Name>, r: Reading, listing: seq<HostEntry>): Reading
    requires forall e :: e in listing ==> WellFormed(e.name)
  {
    if listing == [] then r
    else ReadEntry(cfg, files, ReadAll(cfg, files, r, listing[..|listing| - 1]), listing[|listing| - 1])
  }

  /** What of a host directory is listed; the root leaves out itself and its parent. */
  function Visible(listing: seq<HostEntry>, root: bool): seq<HostEntry> {
    if listing == [] then []
    else
      var before := Visible(listing[..|listing| - 1], root);
      var e := listing[|listing| - 1];
      if root && Special(e.name) then before else before + [e]
  }

  /** The names under which the host would find a file. */
  function Real(listing: seq<HostEntry>): set<Name> {
    set e | e in listing && e.stat.Some? :: e.name
  }

  predicate IsRoot(human: Name) {
    human == [SLASH]
  }

  predicate ListingOk(listing: seq<HostEntry>) {
    forall e :: e in listing ==> WellFormed(e.name)
  }

  lemma VisibleIsListed(listing: seq<HostEntry>, root: bool)
    ensures forall e :: e in Visible(listing, root) ==> e in listing
  {
  }

  /** How a refresh starts: with all the old entries set aside. A single entry, however, stays on the list. */
  function SetAside(names: seq<Node>, next: nat): Reading {
    if |names| == 1 then Reading(names, [], next, false) else Reading([], names, next, false)
  }

  /** The result of reading a host directory over what was read before. */
  function Reread(cfg: Config, names: seq<Node>, next: nat, listing: seq<HostEntry>, root: bool): Reading
    requires ListingOk(listing)
  {
    VisibleIsListed(listing, root);
    var r := ReadAll(cfg, Real(listing), SetAside(names, next), Visible(listing, root));
    r.(cache := [], changed := r.changed || r.cache != [])
  }

  // ---------- names are told apart ----------

  /** No candidate for the name of a file is free. */
  predicate NoneFree(cfg: Config, host: Name, list: seq<Node>, files: set<Name>)
    requires WellFormed(host)
  {
    forall count :: -1 <= count < ROUNDS ==> !Free(cfg, list, files, Variant(cfg, host, count))
  }

  /** A correct name is the host name itself, or one that nothing else has. */
  predicate Proper(cfg: Config, host: Name, list: seq<Node>, files: set<Name>, n: Named) {
    (n.correct && n.human == host) || Free(cfg, list, files, n)
  }

  /** One of the variants from `round` on is free. */
  predicate SomeFree(cfg: Config, host: Name, list: seq<Node>, files: set<Name>, round: nat)
    requires WellFormed(host)
  {
    exists k :: round <= k < ROUNDS && Free(cfg, list, files, Variant(cfg, host, k))
  }

  lemma {:induction false} SettledFindsFree(cfg: Config, host: Name, list: seq<Node>, files: set<Name>, n: Named,
      round: nat)
    requires WellFormed(host) && round <= ROUNDS
    ensures var m := Settled(cfg, host, list, files, n, round);
            && (Free(cfg, list, files, m) <==> Free(cfg, list, files, n) || SomeFree(cfg, host, list, files, round))
            && (!Free(cfg, list, files, m) ==> m == if round == ROUNDS then n else Variant(cfg, host, ROUNDS - 1))
    decreases ROUNDS - round
  {
    hide Variant, Free, WellFormed;
    if round < ROUNDS && !Free(cfg, list, files, n) {
      SettledFindsFree(cfg, host, list, files, Variant(cfg, host, round), round + 1);
      if SomeFree(cfg, host, list, files, round) {
        var k :| round <= k < ROUNDS && Free(cfg, list, files, Variant(cfg, host, k));
        assert k == round || SomeFree(cfg, host, list, files, round + 1);
      }
    }
  }

  /** The own name of a file will do, or one of its 36 variants is free, or the last one is the host name after all. */
  predicate Namable(cfg: Config, host: Name, list: seq<Node>, files: set<Name>)
    requires WellFormed(host)
  {
    var own, last := Variant(cfg, host, -1), Variant(cfg, host, ROUNDS - 1);
    (own.correct && own.human == host) || !NoneFree(cfg, host, list, files) || (last.correct && last.human == host)
  }

  /** A file is properly named exactly if it can be. */
  lemma ProperIfNamable(cfg: Config, host: Name, list: seq<Node>, files: set<Name>)
    requires WellFormed(host)
    ensures Proper(cfg, host, list, files, NameFor(cfg, host, None, list, files)) <==> Namable(cfg, host, list, files)
  {
    hide Variant, Free, Settled, WellFormed;
    var own := Variant(cfg, host, -1);
    SettledFindsFree(cfg, host, list, files, own, 0);
    if !NoneFree(cfg, host, list, files) && !Free(cfg, list, files, own) {
      var k :| -1 <= k < ROUNDS && Free(cfg, list, files, Variant(cfg, host, k));
      assert SomeFree(cfg, host, list, files, 0);
    }
    if SomeFree(cfg, host, list, files, 0) {
      var k :| 0 <= k < ROUNDS && Free(cfg, list, files, Variant(cfg, host, k));
      assert !NoneFree(cfg, host, list, files);
    }
    assert Free(cfg, list, files, own) ==> !NoneFree(cfg, host, list, files);
  }

  /** Variant `k` is free, and no earlier one from `round` on. */
  predicate IsFirstFree(cfg: Config, host: Name, list: seq<Node>, files: set<Name>, round: nat, k: nat)
    requires WellFormed(host)
  {
    && round <= k < ROUNDS && Free(cfg, list, files, Variant(cfg, host, k))
    && forall j :: round <= j < k ==> !Free(cfg, list, files, Variant(cfg, host, j))
  }

  /** A file has its own name if that needs no change or is free, else its first variant that is free, and the last one
      if none is. */
  lemma NameForTakesFirst(cfg: Config, host: Name, list: seq<Node>, files: set<Name>)
    requires WellFormed(host)
    ensures var n, own := NameFor(cfg, host, None, list, files), Variant(cfg, host, -1);
            && ((own.correct && own.human == host) || Free(cfg, list, files, own) ==> n == own)
            && ((!own.correct || own.human != host) && !Free(cfg, list, files, own) ==>
                  && (forall k: nat :: IsFirstFree(cfg, host, list, files, 0, k) ==> n == Variant(cfg, host, k))
                  && (NoneFree(cfg, host, list, files) ==> n == Variant(cfg, host, ROUNDS - 1)))
  {
    hide Variant, Free, WellFormed;
    SettledTakesFirst(cfg, host, list, files, Variant(cfg, host, -1), 0);
  }

  lemma {:induction false} SettledTakesFirst(cfg: Config, host: Name, list: seq<Node>, files: set<Name>, n: Named,
      round: nat)
    requires WellFormed(host) && round <= ROUNDS
    ensures var m := Settled(cfg, host, list, files, n, round);
            && (Free(cfg, list, files, n) ==> m == n)
            && (!Free(cfg, list, files, n) ==>
                  && (forall k: nat :: IsFirstFree(cfg, host, list, files, round, k) ==> m == Variant(cfg, host, k))
                  && (round < ROUNDS && NoneFree(cfg, host, list, files) ==> m == Variant(cfg, host, ROUNDS - 1)))
            && (round == ROUNDS ==> m == n)
    decreases ROUNDS - round
  {
    hide Variant, Free, WellFormed;
    if round < ROUNDS && !Free(cfg, list, files, n) {
      SettledTakesFirst(cfg, host, list, files, Variant(cfg, host, round), round + 1);
      assert forall k: nat :: IsFirstFree(cfg, host, list, files, round, k) ==>
          k == round || IsFirstFree(cfg, host, list, files, round + 1, k);
    }
  }

  /** A name is free if it is correct, no host file has it, and no earlier entry has a name of its length that fits it
      at every place. */
  lemma FreeIfUnlike(cfg: Config, list: seq<Node>, files: set<Name>, n: Named)
    requires forall i :: 0 <= i < |list| ==> list[i].f.dirent.attr * ANY != {}
    ensures Free(cfg, list, files, n) <==>
              && n.correct && n.human !in files
              && forall i :: 0 <= i < |list| && |list[i].f.human| == |n.human| ==>
                   exists k :: 0 <= k < |n.human| && !FitsAt(cfg.alphabet, n.human, list[i].f.human, k)
  {
    hide Matches, FitsAt;
    forall i | 0 <= i < |list|
      ensures Found(cfg, list[i].f, n.human, ANY) <==>
                |list[i].f.human| == |n.human|
                && forall k :: 0 <= k < |n.human| ==> FitsAt(cfg.alphabet, n.human, list[i].f.human, k)
    {
      MatchesPlaceByPlace(cfg.alphabet, n.human, list[i].f.human);
    }
  }

  /** The root shows all but the two special names, every other directory shows all. */
  lemma {:induction false} VisibleExactly(listing: seq<HostEntry>, root: bool)
    ensures !root ==> Visible(listing, root) == listing
    ensures forall e :: e in Visible(listing, root) <==>
              e in listing && !(root && (e.name == [PERIOD] || e.name == [PERIOD, PERIOD]))
  {
    if listing != [] {
      VisibleExactly(listing[..|listing| - 1], root);
      assert listing == listing[..|listing| - 1] + [listing[|listing| - 1]];
    }
  }

  /** A directory that is read for the first time. */
  function First(cfg: Config, files: set<Name>, listing: seq<HostEntry>, next: nat): Reading
    requires ListingOk(listing)
  {
    ReadAll(cfg, files, Reading([], [], next, false), listing)
  }

  predicate AllNamable(cfg: Config, files: set<Name>, listing: seq<HostEntry>, next: nat)
    requires ListingOk(listing)
  {
    listing == [] ||
    (var before, e := listing[..|listing| - 1], listing[|listing| - 1];
     && AllNamable(cfg, files, before, next)
     && (e.stat.Some? ==> Namable(cfg, e.name, First(cfg, files, before, next).list, files)))
  }

  predicate OwnNames(listing: seq<HostEntry>) {
    forall i, j :: 0 <= i < j < |listing| ==> listing[i].name != listing[j].name
  }

  predicate HumansDiffer(list: seq<Node>) {
    forall i, j :: 0 <= i < j < |list| ==> list[i].f.human != list[j].f.human
  }

  /** A generated name is not that of a host file. */
  predicate NotMistaken(list: seq<Node>, files: set<Name>) {
    forall i :: 0 <= i < |list| ==> list[i].f.human == list[i].f.host || list[i].f.human !in files
  }

  /** The entries come from the listing. */
  predicate ComesFrom(list: seq<Node>, listing: seq<HostEntry>) {
    forall i :: 0 <= i < |list| ==> IsListed(list[i], listing) && list[i].f.dirent.attr * ANY != {}
  }

  predicate IsListed(n: Node, listing: seq<HostEntry>) {
    exists j :: 0 <= j < |listing| && listing[j].name == n.f.host
  }

  /** When a directory is read for the first time, the Human68k names of its entries all differ, and none of those that
      are generated is the name of a host file, provided that no file finds all its variants in use. */
  lemma {:induction false} FirstReadingTellsApart(cfg: Config, files: set<Name>, listing: seq<HostEntry>, next: nat)
    requires ListingOk(listing) && OwnNames(listing) && AllNamable(cfg, files, listing, next)
    requires forall e :: e in listing && e.stat.Some? ==> e.name in files
    ensures var r := First(cfg, files, listing, next);
            r.cache == [] && HumansDiffer(r.list) && NotMistaken(r.list, files) && ComesFrom(r.list, listing)
  {
    hide NameFor, WellFormed, Packed, Namable, First, Proper;
    if listing == [] {
      NothingRead(cfg, files, next);
    } else {
      var before, e := listing[..|listing| - 1], listing[|listing| - 1];
      FirstReadingTellsApart(cfg, files, before, next);
      var r := First(cfg, files, before, next);
      FirstStep(cfg, files, listing, next);
      forall i | 0 <= i < |r.list| ensures IsListed(r.list[i], listing) {
        assert IsListed(r.list[i], before);
        var j :| 0 <= j < |before| && before[j].name == r.list[i].f.host;
        assert listing[j].name == r.list[i].f.host;
      }
      if e.stat.Some? {
        var n := NameFor(cfg, e.name, None, r.list, files);
        ProperIfNamable(cfg, e.name, r.list, files);
        NewNameDiffers(cfg, e.name, r.list, files, n, listing);
        assert IsListed(Node(r.next, Filename(e.name, n.human, n.ext, Packed(n, e.stat.value))), listing);
      }
    }
  }

  lemma NothingRead(cfg: Config, files: set<Name>, next: nat)
    ensures First(cfg, files, [], next) == Reading([], [], next, false)
  {
  }

  /** One more entry of a first reading. */
  lemma FirstStep(cfg: Config, files: set<Name>, listing: seq<HostEntry>, next: nat)
    requires ListingOk(listing) && listing != []
    ensures var before, e := listing[..|listing| - 1], listing[|listing| - 1];
            var r, r' := First(cfg, files, before, next), First(cfg, files, listing, next);
            r.cache == [] ==>
              && r'.cache == []
              && if e.stat.None? then r'.list == r.list
                 else
                   var n := NameFor(cfg, e.name, None, r.list, files);
                   && n.ext <= |n.human| && Packed(n, e.stat.value).attr * ANY != {}
                   && r'.list == r.list + [Node(r.next, Filename(e.name, n.human, n.ext, Packed(n, e.stat.value)))]
  {
    hide NameFor, WellFormed;
    var r := First(cfg, files, listing[..|listing| - 1], next);
    ExtInName(cfg, listing[|listing| - 1].name, None, r.list, files);
  }

  lemma NewNameDiffers(cfg: Config, host: Name, list: seq<Node>, files: set<Name>, n: Named, listing: seq<HostEntry>)
    requires Proper(cfg, host, list, files, n) && NotMistaken(list, files) && host in files
    requires listing != [] && listing[|listing| - 1].name == host && OwnNames(listing)
             && ComesFrom(list, listing[..|listing| - 1])
    ensures forall i :: 0 <= i < |list| ==> list[i].f.human != n.human
    ensures n.human == host || n.human !in files
  {
    forall i | 0 <= i < |list| ensures list[i].f.human != n.human {
      assert IsListed(list[i], listing[..|listing| - 1]);
      EveryNameMatchesItself(cfg.alphabet, n.human, false);
    }
  }

  // ---------- entries are told apart ----------

  /** A name as it is generated when it is correct. */
  predicate Shaped(human: Name, ext: nat) {
    && 0 < ext <= 18 && ext <= |human| <= ext + 4 && 0 !in human && human[ext - 1] != SPACE
    && (ext < |human| ==> human[ext] == PERIOD && ext + 2 <= |human|)
  }

  lemma {:induction false} PaddedAt(s: Name, n: nat, filler: byte)
    ensures |Padded(s, n, filler)| == n
    ensures forall i :: 0 <= i < n ==> Padded(s, n, filler)[i] == if i < |s| then s[i] else filler
    decreases n
  {
    if n > 0 {
      PaddedAt(if s == [] then [] else s[1..], n - 1, filler);
    }
  }

  lemma PaddedBaseAt(base: Name)
    requires |base| <= 18
    ensures |PaddedBase(base)| == 18
    ensures forall i :: 0 <= i < 18 ==>
        PaddedBase(base)[i] == if i < |base| then base[i] else if i < 8 then SPACE else 0
  {
    var eight := if |base| < 8 then |base| else 8;
    PaddedAt(base[..eight], 8, SPACE);
    PaddedAt(base[eight..], 10, 0);
  }

  lemma BaseIsNotLonger(a: Name, b: Name)
    requires 0 < |a| <= 18 && 0 < |b| <= 18 && a[|a| - 1] != SPACE && 0 !in a && PaddedBase(a) == PaddedBase(b)
    ensures |a| <= |b|
  {
    PaddedBaseAt(a);
    PaddedBaseAt(b);
    assert a[|a| - 1] in a && PaddedBase(a)[|a| - 1] == PaddedBase(b)[|a| - 1];
  }

  /** Different names have different directory entries. */
  lemma PackedTellsApart(n: Named, m: Named, s: Stat, t: Stat)
    requires Shaped(n.human, n.ext) && Shaped(m.human, m.ext) && Packed(n, s) == Packed(m, t)
    ensures n.human == m.human
  {
    hide PaddedBase, Padded;
    var a, b := n.human[..n.ext], m.human[..m.ext];
    BaseIsNotLonger(a, b);
    BaseIsNotLonger(b, a);
    PaddedBaseAt(a);
    PaddedBaseAt(b);
    assert a == b by {
      forall i | 0 <= i < |a| ensures a[i] == b[i] {
        assert PaddedBase(a)[i] == PaddedBase(b)[i];
      }
    }
    SameExtension(n.human[n.ext..], m.human[m.ext..]);
    assert n.human == a + n.human[n.ext..] && m.human == b + m.human[m.ext..];
  }

  lemma ExtensionIsNotLonger(e: Name, f: Name)
    requires |e| <= 3 && |f| <= 3 && 0 !in e && Padded(e, 3, 0) == Padded(f, 3, 0)
    ensures |e| <= |f|
  {
    PaddedAt(e, 3, 0);
    PaddedAt(f, 3, 0);
    assert |e| > 0 ==> e[|e| - 1] in e && Padded(e, 3, 0)[|e| - 1] == Padded(f, 3, 0)[|e| - 1];
  }

  lemma SameExtension(c: Name, d: Name)
    requires |c| <= 4 && |d| <= 4 && 0 !in c && 0 !in d
    requires (c != [] ==> c[0] == PERIOD && |c| >= 2) && (d != [] ==> d[0] == PERIOD && |d| >= 2)
    requires Padded(if c == [] then [] else c[1..], 3, 0) == Padded(if d == [] then [] else d[1..], 3, 0)
    ensures c == d
  {
    var e, f := if c == [] then [] else c[1..], if d == [] then [] else d[1..];
    PaddedAt(e, 3, 0);
    PaddedAt(f, 3, 0);
    assert forall i :: 0 <= i < |e| ==> e[i] in c;
    assert forall i :: 0 <= i < |f| ==> f[i] in d;
    ExtensionIsNotLonger(e, f);
    ExtensionIsNotLonger(f, e);
    assert e == f by {
      forall i | 0 <= i < |e| ensures e[i] == f[i] {
        assert Padded(e, 3, 0)[i] == Padded(f, 3, 0)[i];
      }
    }
    assert c != [] ==> c == [PERIOD] + e;
    assert d != [] ==> d == [PERIOD] + f;
  }

  /** No two entries of a directory look the same, and none looks like no entry. */
  predicate EntriesDiffer(names: seq<Node>) {
    && (forall i :: 0 <= i < |names| ==> names[i].f.dirent != NO_DIRENT)
    && (forall i, j :: 0 <= i < j < |names| ==> names[i].f.dirent != names[j].f.dirent)
  }

  lemma {:induction false} SettledIsVariant(cfg: Config, host: Name, list: seq<Node>, files: set<Name>, count: int,
      round: nat) returns (c: int)
    requires WellFormed(host) && round <= ROUNDS
    ensures Settled(cfg, host, list, files, Variant(cfg, host, count), round) == Variant(cfg, host, c)
    decreases ROUNDS - round
  {
    hide Variant, Free, WellFormed;
    if round == ROUNDS || Free(cfg, list, files, Variant(cfg, host, count)) {
      c := count;
    } else {
      c := SettledIsVariant(cfg, host, list, files, round, round + 1);
    }
  }

  /** A generated name of which the directory entry shows everything. */
  ghost predicate Tidy(f: Filename) {
    Shaped(f.human, f.ext) && exists s :: f.dirent == Packed(Named(f.human, f.ext, true), s)
  }

  lemma ProperIsShaped(cfg: Config, host: Name, list: seq<Node>, files: set<Name>)
    requires WellFormed(host) && Proper(cfg, host, list, files, NameFor(cfg, host, None, list, files))
    ensures var n := NameFor(cfg, host, None, list, files); Shaped(n.human, n.ext)
  {
    hide Settled, WellFormed, Human, HumanExt, Correct;
    HumanShape(cfg.o, host, -1);
    var c := SettledIsVariant(cfg, host, list, files, -1, 0);
    HumanShape(cfg.o, host, c);
  }

  lemma {:induction false} FirstReadingIsTidy(cfg: Config, files: set<Name>, listing: seq<HostEntry>, next: nat)
    requires ListingOk(listing) && AllNamable(cfg, files, listing, next)
    ensures forall i :: 0 <= i < |First(cfg, files, listing, next).list| ==>
        Tidy(First(cfg, files, listing, next).list[i].f)
  {
    hide NameFor, WellFormed, Packed, Namable, First, Proper;
    if listing == [] {
      NothingRead(cfg, files, next);
    } else {
      var before, e := listing[..|listing| - 1], listing[|listing| - 1];
      FirstReadingIsTidy(cfg, files, before, next);
      FirstCache(cfg, files, before, next);
      FirstStep(cfg, files, listing, next);
      var r := First(cfg, files, before, next);
      if e.stat.Some? {
        ProperIfNamable(cfg, e.name, r.list, files);
        ProperIsShaped(cfg, e.name, r.list, files);
        var n := NameFor(cfg, e.name, None, r.list, files);
        PackedAgain(n, e.stat.value);
      }
    }
  }

  lemma PackedAgain(n: Named, s: Stat)
    requires n.ext <= |n.human|
    ensures Packed(n, s) == Packed(Named(n.human, n.ext, true), s)
  {
  }

  /** In a directory where every file can be named, the directory entries all differ. */
  lemma NamableEntriesDiffer(cfg: Config, files: set<Name>, listing: seq<HostEntry>, next: nat)
    requires ListingOk(listing) && OwnNames(listing) && AllNamable(cfg, files, listing, next)
    requires forall e :: e in listing && e.stat.Some? ==> e.name in files
    ensures EntriesDiffer(First(cfg, files, listing, next).list)
  {
    FirstReadingTellsApart(cfg, files, listing, next);
    FirstReadingIsTidy(cfg, files, listing, next);
    hide First, AllNamable, WellFormed, Packed, Shaped;
    var list := First(cfg, files, listing, next).list;
    forall i, j | 0 <= i < j < |list| ensures list[i].f.dirent != list[j].f.dirent {
      var f, g := list[i].f, list[j].f;
      var s :| f.dirent == Packed(Named(f.human, f.ext, true), s);
      var t :| g.dirent == Packed(Named(g.human, g.ext, true), t);
      if f.dirent == g.dirent {
        PackedTellsApart(Named(f.human, f.ext, true), Named(g.human, g.ext, true), s, t);
      }
    }
  }

  // ---------- reading again ----------

  /** The extension of a Human68k name is where a look at the name alone finds it, as far as directory entries show. */
  predicate SplitsAgain(human: Name, ext: nat) {
    var again := SeparateExt(human);
    again == ext || (again >= 18 && ext >= 18)
  }

  predicate StableSplit(list: seq<Node>) {
    forall i :: 0 <= i < |list| ==> SplitsAgain(list[i].f.human, list[i].f.ext)
  }

  predicate AllThere(listing: seq<HostEntry>) {
    forall e :: e in listing ==> e.stat.Some?
  }

  /** A name once found for a file is found for it again. */
  lemma NameForAgain(cfg: Config, host: Name, list: seq<Node>, files: set<Name>)
    requires WellFormed(host)
    ensures var n := NameFor(cfg, host, None, list, files);
            var m := NameFor(cfg, host, Some(n.human), list, files);
            m.human == n.human && (m.ext == n.ext || m.ext == SeparateExt(n.human))
  {
    hide Variant, WellFormed, SeparateExt, Taken;
    var own := Variant(cfg, host, -1);
    var n := NameFor(cfg, host, None, list, files);
    SettledFindsFree(cfg, host, list, files, own, 0);
    assert SomeFree(cfg, host, list, files, 1) ==> SomeFree(cfg, host, list, files, 0);
    var copy := Copied(n.human);
    if n.human != host && !Free(cfg, list, files, copy) {
      assert !Free(cfg, list, files, n);
      assert Settled(cfg, host, list, files, copy, 0) == Settled(cfg, host, list, files, Variant(cfg, host, 0), 1);
      SettledFindsFree(cfg, host, list, files, Variant(cfg, host, 0), 1);
    }
  }

  /** Reading an unchanged directory again puts the old entries on the list, one by one. */
  lemma {:induction false} RereadingKeeps(cfg: Config, files: set<Name>, listing: seq<HostEntry>, next0: nat, next: nat,
      names: seq<Node>)
    requires ListingOk(listing) && OwnNames(listing) && First(cfg, files, listing, next0).list <= names
    requires StableSplit(First(cfg, files, listing, next0).list)
    requires First(cfg, files, listing, next0).cache == []
    requires forall i, e :: |First(cfg, files, listing, next0).list| <= i < |names| && e in listing ==>
        names[i].f.host != e.name
    ensures var list := First(cfg, files, listing, next0).list;
            ReadAll(cfg, files, Reading([], names, next, false), listing)
            == Reading(list, names[|list|..], next, !AllThere(listing))
  {
    hide NameFor, WellFormed, Packed, First, ReadEntry;
    if listing == [] {
      NothingRead(cfg, files, next0);
    } else {
      ReadAllStep(cfg, files, Reading([], names, next, false), listing);
      hide ReadAll;
      var before, e := listing[..|listing| - 1], listing[|listing| - 1];
      FirstCache(cfg, files, before, next0);
      FirstStep(cfg, files, listing, next0);
      var list := First(cfg, files, before, next0).list;
      StableParts(list, First(cfg, files, listing, next0).list);
      hide OwnNames, StableSplit;
      assert list <= names && listing == before + [e];
      StillToCome(cfg, files, listing, next0, names);
      RereadingKeeps(cfg, files, before, next0, next, names);
      var r := Reading(list, names[|list|..], next, !AllThere(before));
      if e.stat.None? {
        MissingAgain(cfg, files, r, e);
      } else {
        FoundAgain(cfg, files, r, e);
      }
    }
  }

  lemma ReadAllStep(cfg: Config, files: set<Name>, r: Reading, listing: seq<HostEntry>)
    requires ListingOk(listing) && listing != []
    ensures ReadAll(cfg, files, r, listing)
            == ReadEntry(cfg, files, ReadAll(cfg, files, r, listing[..|listing| - 1]), listing[|listing| - 1])
  {
  }

  lemma StableParts(list: seq<Node>, more: seq<Node>)
    requires StableSplit(more) && list <= more
    ensures StableSplit(list) && (|list| < |more| ==> SplitsAgain(more[|list|].f.human, more[|list|].f.ext))
  {
  }

  lemma StillToCome(cfg: Config, files: set<Name>, listing: seq<HostEntry>, next0: nat, names: seq<Node>)
    requires ListingOk(listing) && OwnNames(listing) && listing != []
    requires forall i, e :: |First(cfg, files, listing, next0).list| <= i < |names| && e in listing ==>
        names[i].f.host != e.name
    requires var k := |First(cfg, files, listing[..|listing| - 1], next0).list|;
             listing[|listing| - 1].stat.Some? ==> k < |names| && names[k].f.host == listing[|listing| - 1].name
    requires First(cfg, files, listing[..|listing| - 1], next0).cache == []
    ensures var before := listing[..|listing| - 1];
            && OwnNames(before)
            && forall i, e :: |First(cfg, files, before, next0).list| <= i < |names| && e in before ==>
                names[i].f.host != e.name
    ensures listing[|listing| - 1].stat.None? ==>
              forall i :: |First(cfg, files, listing[..|listing| - 1], next0).list| <= i < |names| ==>
                  names[i].f.host != listing[|listing| - 1].name
  {
    hide First, NameFor, Packed, WellFormed;
    FirstStep(cfg, files, listing, next0);
    var before, last := listing[..|listing| - 1], listing[|listing| - 1];
    assert last in listing;
    forall e | e in before ensures e in listing && e.name != last.name {
      var j :| 0 <= j < |before| && before[j] == e;
      assert listing[j] == e;
    }
  }

  lemma MissingAgain(cfg: Config, files: set<Name>, r: Reading, e: HostEntry)
    requires WellFormed(e.name) && e.stat.None? && forall i :: 0 <= i < |r.cache| ==> r.cache[i].f.host != e.name
    ensures ReadEntry(cfg, files, r, e) == r.(changed := true)
  {
  }

  /** The first of the old entries is the one that is read, and it is just as it was. */
  lemma FoundAgain(cfg: Config, files: set<Name>, r: Reading, e: HostEntry)
    requires WellFormed(e.name) && e.stat.Some? && r.cache != [] && SplitsAgain(r.cache[0].f.human, r.cache[0].f.ext)
    requires var n := NameFor(cfg, e.name, None, r.list, files);
             n.ext <= |n.human| && r.cache[0].f == Filename(e.name, n.human, n.ext, Packed(n, e.stat.value))
    ensures ReadEntry(cfg, files, r, e) == Reading(r.list + [r.cache[0]], r.cache[1..], r.next, r.changed)
  {
    hide NameFor, SeparateExt;
    NameForAgain(cfg, e.name, r.list, files);
    var n, m := NameFor(cfg, e.name, None, r.list, files),
        NameFor(cfg, e.name, Some(r.cache[0].f.human), r.list, files);
    ExtInName(cfg, e.name, Some(r.cache[0].f.human), r.list, files);
    assert Packed(n, e.stat.value) == Packed(m, e.stat.value);
    assert Except(r.cache, 0) == r.cache[1..];
  }

  lemma {:induction false} FirstCache(cfg: Config, files: set<Name>, listing: seq<HostEntry>, next: nat)
    requires ListingOk(listing)
    ensures First(cfg, files, listing, next).cache == []
  {
    if listing == [] {
      NothingRead(cfg, files, next);
    } else {
      FirstCache(cfg, files, listing[..|listing| - 1], next);
      FirstStep(cfg, files, listing, next);
    }
  }

  /** The host names on a list. */
  function Hosts(list: seq<Node>): (h: seq<Name>)
    ensures |h| == |list|
  {
    if list == [] then [] else Hosts(list[..|list| - 1]) + [list[|list| - 1].f.host]
  }

  /** The names of the entries that the host knows something of. */
  function Present(listing: seq<HostEntry>): seq<Name> {
    if listing == [] then []
    else
      var e := listing[|listing| - 1];
      Present(listing[..|listing| - 1]) + if e.stat.Some? then [e.name] else []
  }

  /** Reading a directory adds its entries to the list, each once and in order. */
  lemma {:induction false} ReadingListsAll(cfg: Config, files: set<Name>, r: Reading, listing: seq<HostEntry>)
    requires ListingOk(listing)
    ensures var r' := ReadAll(cfg, files, r, listing);
            r.list <= r'.list && Hosts(r'.list) == Hosts(r.list) + Present(listing)
  {
    hide ReadEntry;
    if listing != [] {
      var before, e := listing[..|listing| - 1], listing[|listing| - 1];
      ReadingListsAll(cfg, files, r, before);
      ReadEntryAdds(cfg, files, ReadAll(cfg, files, r, before), e);
    }
  }

  lemma ReadEntryAdds(cfg: Config, files: set<Name>, r: Reading, e: HostEntry)
    requires WellFormed(e.name)
    ensures var r' := ReadEntry(cfg, files, r, e);
            r.list <= r'.list && Hosts(r'.list) == Hosts(r.list) + if e.stat.Some? then [e.name] else []
  {
    hide NameFor, Packed;
    var r' := ReadEntry(cfg, files, r, e);
    if e.stat.Some? {
      assert r'.list[..|r'.list| - 1] == r.list;
    }
  }

  /** The size, date, time and attributes of a host file. */
  predicate CarriesStat(d: Dirent, s: Stat) {
    && d.size == s.size && d.date == s.date && d.time == s.time
    && (ReadOnly in d.attr <==> s.readOnly) && (Directory in d.attr <==> s.directory)
    && (Archive in d.attr <==> !s.directory) && Volume !in d.attr
  }

  /** The Human68k name in two parts: the first filled up to eight bytes with spaces and to eighteen with zeros, the
      second without its period and filled up to three with zeros. */
  predicate ShowsName(f: Filename) {
    f.ext <= 18 && f.ext <= |f.human| ==>
      && |f.dirent.name| == 18 && |f.dirent.ext| == 3
      && (forall i :: 0 <= i < 18 ==> f.dirent.name[i] == if i < f.ext then f.human[i] else if i < 8 then SPACE else 0)
      && (f.ext == |f.human| ==> f.dirent.ext == [0, 0, 0])
      && (f.ext < |f.human| && f.human[f.ext] == PERIOD ==>
            forall i :: 0 <= i < 3 ==>
              f.dirent.ext[i] == if f.ext + 1 + i < |f.human| then f.human[f.ext + 1 + i] else 0)
  }

  lemma PackedCarriesStat(n: Named, s: Stat)
    requires n.ext <= |n.human|
    ensures CarriesStat(Packed(n, s), s)
  {
    hide Padded, PaddedBase;
  }

  lemma PackedShowsName(n: Named, host: Name, s: Stat)
    requires n.ext <= |n.human|
    ensures ShowsName(Filename(host, n.human, n.ext, Packed(n, s)))
  {
    hide Padded, PaddedBase;
    if n.ext <= 18 {
      var base, rest := n.human[..n.ext], n.human[n.ext..];
      var ext := if rest != [] && rest[0] == PERIOD then rest[1..] else rest;
      PaddedBaseAt(base);
      PaddedAt(ext, 3, 0);
      var d := Packed(n, s);
      assert d.name == PaddedBase(base) && d.ext == Padded(ext, 3, 0);
      hide Packed;
      if n.ext < |n.human| && n.human[n.ext] == PERIOD {
        assert ext == n.human[n.ext + 1..];
      }
    }
  }

  /** The entry carries the name and the stat of its host file. */
  predicate IsDescribed(n: Node, listing: seq<HostEntry>) {
    && ShowsName(n.f)
    && exists e :: e in listing && e.name == n.f.host && e.stat.Some? && CarriesStat(n.f.dirent, e.stat.value)
  }

  /** Every entry that a reading adds to the list describes its host file as it is now. */
  lemma {:induction false} ReadingDescribesAll(cfg: Config, files: set<Name>, r: Reading, listing: seq<HostEntry>)
    requires ListingOk(listing) && forall c :: c in r.cache ==> ShowsName(c.f)
    ensures var r' := ReadAll(cfg, files, r, listing);
            && |r.list| <= |r'.list| && (forall c :: c in r'.cache ==> ShowsName(c.f))
            && forall i :: |r.list| <= i < |r'.list| ==> IsDescribed(r'.list[i], listing)
  {
    hide ReadEntry, ShowsName, CarriesStat;
    if listing != [] {
      var before, e := listing[..|listing| - 1], listing[|listing| - 1];
      ReadingDescribesAll(cfg, files, r, before);
      var r1 := ReadAll(cfg, files, r, before);
      ReadEntryDescribes(cfg, files, r1, e);
      var r2 := ReadEntry(cfg, files, r1, e);
      forall i | |r.list| <= i < |r2.list| ensures IsDescribed(r2.list[i], listing) {
        if i < |r1.list| {
          assert IsDescribed(r1.list[i], before);
        }
      }
    }
  }

  lemma ReadEntryDescribes(cfg: Config, files: set<Name>, r: Reading, e: HostEntry)
    requires WellFormed(e.name) && forall c :: c in r.cache ==> ShowsName(c.f)
    ensures var r' := ReadEntry(cfg, files, r, e);
            && r.list <= r'.list && |r'.list| <= |r.list| + 1 && (forall c :: c in r'.cache ==> ShowsName(c.f))
            && (|r'.list| > |r.list| ==>
                  var f := r'.list[|r.list|].f;
                  e.stat.Some? && f.host == e.name && ShowsName(f) && CarriesStat(f.dirent, e.stat.value))
  {
    hide NameFor, Packed, ShowsName, CarriesStat;
    var k := IndexOfHost(r.cache, e.name);
    var cached := if k < |r.cache| then Some(r.cache[k].f.human) else None;
    var n := NameFor(cfg, e.name, cached, r.list, files);
    ExtInName(cfg, e.name, cached, r.list, files);
    if e.stat.Some? {
      PackedShowsName(n, e.name, e.stat.value);
      PackedCarriesStat(n, e.stat.value);
    }
  }

  lemma {:induction false} HostsAt(list: seq<Node>, i: nat)
    requires i < |list|
    ensures Hosts(list)[i] == list[i].f.host
  {
    if i < |list| - 1 {
      HostsAt(list[..|list| - 1], i);
    }
  }

  /** A refresh of an unchanged directory with a single entry lists that entry twice. */
  lemma SingleIsListedTwice(cfg: Config, listing: seq<HostEntry>, root: bool, next0: nat, next: nat)
    requires ListingOk(listing) && |Reread(cfg, [], next0, listing, root).list| == 1
    ensures var first := Reread(cfg, [], next0, listing, root).list;
            var again := Reread(cfg, first, next, listing, root).list;
            |again| == 2 && again[0] == first[0] && again[1].f.host == first[0].f.host
  {
    hide ReadAll, Visible, Real, WellFormed;
    VisibleIsListed(listing, root);
    var files, visible := Real(listing), Visible(listing, root);
    var first := Reread(cfg, [], next0, listing, root).list;
    ReadingListsAll(cfg, files, Reading([], [], next0, false), visible);
    ReadingListsAll(cfg, files, Reading(first, [], next, false), visible);
    var again := Reread(cfg, first, next, listing, root).list;
    assert Hosts(again) == Hosts(first) + Hosts(first);
    HostsAt(first, 0);
    HostsAt(again, 1);
  }

  /** Reading an unchanged directory again keeps its entries, the very same nodes, unless there is just one of them or
      names are split differently when they are copied. */
  lemma RefreshKeeps(cfg: Config, listing: seq<HostEntry>, root: bool, next0: nat, next: nat)
    requires ListingOk(listing) && OwnNames(Visible(listing, root))
    requires var first := Reread(cfg, [], next0, listing, root).list; |first| != 1 && StableSplit(first)
    ensures var first := Reread(cfg, [], next0, listing, root).list;
            Reread(cfg, first, next, listing, root) == Reading(first, [], next, !AllThere(Visible(listing, root)))
  {
    hide ReadAll, Visible, Real, WellFormed, OwnNames, StableSplit, AllThere;
    VisibleIsListed(listing, root);
    var files, visible := Real(listing), Visible(listing, root);
    var r := First(cfg, files, visible, next0);
    assert Reread(cfg, [], next0, listing, root).list == r.list;
    FirstCache(cfg, files, visible, next0);
    RereadingKeeps(cfg, files, visible, next0, next, r.list);
  }

  // ---------- reading, step by step ----------

  method FindFilename(cfg: Config, names: seq<Node>, human: Name, mask: set<Attribute>) returns (k: nat)
    ensures k == FindIndex(cfg, names, human, mask)
  {
    k := 0;
    while k < |names|
      invariant k <= |names| && FindIndex(cfg, names, human, mask) == k + FindIndex(cfg, names[k..], human, mask)
    {
      assert names[k..][1..] == names[k + 1..];
      var f := names[k].f;
      if f.dirent.attr * mask != {} && |human| == |f.human| {
        var r := Compare(cfg.alphabet, human, f.human);
        if r == 0 {
          return;
        }
      }
      k := k + 1;
    }
  }

  method FindCached(cache: seq<Node>, host: Name) returns (k: nat)
    ensures k == IndexOfHost(cache, host)
  {
    k := 0;
    while k < |cache| && cache[k].f.host != host
      invariant k <= |cache| && forall i :: 0 <= i < k ==> cache[i].f.host != host
    {
      k := k + 1;
    }
  }

  /** Generates names until one is free. */
  method ChooseName(cfg: Config, host: Name, cached: Option<Name>, list: seq<Node>, files: set<Name>) returns (n: Named)
    requires WellFormed(host)
    ensures n == NameFor(cfg, host, cached, list, files)
  {
    hide WellFormed, Variant, FindIndex;
    if cached.Some? {
      n := Copied(cached.value);
    } else {
      n := Convert(cfg, host, -1);
    }
    if n.human == host && n.correct {
      return;
    }
    ghost var first := n;
    var round := 0;
    while round < ROUNDS
      invariant round <= ROUNDS
      invariant Settled(cfg, host, list, files, first, 0) == Settled(cfg, host, list, files, n, round)
    {
      if n.correct {
        var k := FindFilename(cfg, list, n.human, ANY);
        if k == |list| && n.human !in files {
          break;
        }
      }
      n := Convert(cfg, host, round);
      round := round + 1;
    }
  }

  method Convert(cfg: Config, host: Name, count: int) returns (n: Named)
    requires WellFormed(host)
    ensures n == Variant(cfg, host, count)
  {
    var filename := new CHostFilename(host);
    filename.ConvertHuman(cfg.o, count);
    n := Named(filename.human, filename.ext, filename.correct);
  }

  /** Reads one entry of a host directory. */
  method ReadOne(cfg: Config, files: set<Name>, r: Reading, e: HostEntry) returns (r': Reading)
    requires WellFormed(e.name)
    ensures r' == ReadEntry(cfg, files, r, e)
  {
    hide WellFormed, NameFor, Packed;
    var k := FindCached(r.cache, e.name);
    var cached := if k < |r.cache| then Some(r.cache[k].f.human) else None;
    var n := ChooseName(cfg, e.name, cached, r.list, files);
    ExtInName(cfg, e.name, cached, r.list, files);
    r' := r.(changed := r.changed || cached.None?);
    if e.stat.None? {
      return;
    }
    var f := Filename(e.name, n.human, n.ext, Packed(n, e.stat.value));
    var node := Node(r.next, f);
    if cached.Some? && r.cache[k].f.dirent == f.dirent {
      node := r.cache[k];
    } else {
      r' := r'.(next := r.next + 1, changed := true);
    }
    if cached.Some? {
      r' := r'.(cache := Except(r.cache, k));
    }
    r' := r'.(list := r.list + [node]);
  }

  /** Reads the host directory of a path again. Only if something has changed does it get a new identifier. */
  method Refresh(cfg: Config, p: CRing<HostPath>, listing: seq<HostEntry>, lastId: nat, next: nat)
      returns (lastId': nat, next': nat)
    requires ListingOk(listing)
    modifies p`f
    ensures var r := Reread(cfg, old(p.f).names, next, listing, IsRoot(old(p.f).human));
            && next' == r.next && lastId' == (if r.changed then lastId + 1 else lastId)
            && p.f == old(p.f).(refresh := false, names := r.list, id := if r.changed then lastId' else old(p.f).id)
  {
    hide WellFormed, ReadEntry;
    p.f := p.f.(refresh := false);
    var files, root := Real(listing), IsRoot(p.f.human);
    var r := SetAside(p.f.names, next);
    VisibleIsListed(listing, root);
    var i := 0;
    while i < |listing|
      invariant i <= |listing| && p.f == old(p.f).(refresh := false)
      invariant ListingOk(Visible(listing[..i], root))
      invariant r == ReadAll(cfg, files, SetAside(p.f.names, next), Visible(listing[..i], root))
    {
      var e := listing[i];
      assert e in listing && listing[..i + 1][..i] == listing[..i];
      i := i + 1;
      if root && Special(e.name) {
        continue;
      }
      ghost var visible := Visible(listing[..i], root);
      assert visible[..|visible| - 1] == Visible(listing[..i - 1], root);
      r := ReadOne(cfg, files, r, e);
    }
    assert listing[..|listing|] == listing;
    var changed := r.changed || r.cache != [];
    next' := r.next;
    lastId' := if changed then lastId + 1 else lastId;
    p.f := p.f.(names := r.list, id := if changed then lastId' else p.f.id);
  }
}
