/** Host directories that show a single entry. A refresh lists it twice, and the next one once again; whether that shows
    depends on the name that it gets the second time. */
module Singles {
  import opened Bytes
  import opened HumanNames
  import opened NameCompares
  import opened Rings
  import opened Directories
  import opened Paths

  // ---------- the name of the second copy ----------

  /** The file alone keeps its name when it is named beside itself: its own name will do, or none of its variants ever
      will. */
  predicate KeepsName(cfg: Config, host: Name, files: set<Name>)
    requires WellFormed(host)
  {
    var own := Variant(cfg, host, -1);
    (own.correct && own.human == host) || NoneFree(cfg, host, [], files)
  }

  lemma SecondLater(f: Full, room: nat, less: nat)
    requires f.ext <= |f.name| && 2 <= less <= room
    ensures Second(f, room) <= Second(f, less)
  {
  }

  lemma SameLast(s: Name, i: nat, j: nat, k: nat)
    requires i <= j <= k <= |s| && s[j..k] != []
    ensures s[i..k] != [] && s[i..k][k - i - 1] == s[j..k][k - j - 1]
  {
  }

  /** If a variant has an end of the base name, the variants with no longer number have it too. */
  lemma EndsAlike(o: Options, host: Name, j: int, k: nat)
    requires WellFormed(host) && -1 <= j < 36 && k < 36 && Shortened(o, host, k).end != []
    ensures var p, q := Shortened(o, host, j).end, Shortened(o, host, k).end; p != [] && p[|p| - 1] == q[|q| - 1]
  {
    hide Shortened, Prepared, Second, WellFormed, Number;
    RoomOf(o, j);
    RoomOf(o, k);
    EndOf(o, host, j);
    EndOf(o, host, k);
    var f := Prepared(o, host);
    SecondLater(f, Room(o, j), Room(o, k));
    hide Room;
    SameLast(f.name, Second(f, Room(o, j)), Second(f, Room(o, k)), f.ext);
  }

  predicate Usable(p: Pieces) {
    p.Base() != [] && p.Base()[|p.Base()| - 1] != SPACE && !Special(p.Whole())
  }

  lemma NumberedIsUsable(p: Pieces, k: nat)
    requires |p.number| == 2 && k < 36 && p.number[1] == Digit(k) && (p.end != [] ==> p.end[|p.end| - 1] != SPACE)
    ensures Usable(p)
  {
    assert p.Whole()[|p.start| + 1] == Digit(k);
    assert p.end == [] ==> p.Base()[|p.Base()| - 1] == Digit(k);
  }

  /** If one variant of a name can be used, all numbered ones can. */
  lemma NumberedIsCorrect(o: Options, host: Name, j: int, k: nat)
    requires WellFormed(host) && !Special(host) && -1 <= j < 36 && k < 36 && Correct(o, host, j)
    ensures Correct(o, host, k)
  {
    NumberOf(o, k);
    hide Number;
    var p, q := Shortened(o, host, j), Shortened(o, host, k);
    assert q.number == Number(o, k);
    if q.end != [] {
      EndsAlike(o, host, j, k);
    }
    hide Shortened;
    assert Usable(p);
    NumberedIsUsable(q, k);
  }

  lemma {:induction false} MatchesAt(alphabet: bool, pattern: Name, name: Name, trailC: bool, trailD: bool, i: nat)
    requires Matches(alphabet, pattern, name, trailC, trailD) && i < |pattern| == |name|
    ensures pattern[i] == QUESTION || Folded(alphabet, pattern[i]) == Folded(alphabet, name[i])
  {
    if i > 0 {
      MatchesAt(alphabet, pattern[1..], name[1..], !trailC && Lead(pattern[0]), !trailD && Lead(name[0]), i - 1);
    }
  }

  lemma DigitsFoldApart(alphabet: bool, j: nat, k: nat)
    requires j < 36 && k < 36 && Folded(alphabet, Digit(j)) == Folded(alphabet, Digit(k))
    ensures j == k
  {
  }

  /** A name is matched by at most one numbered variant of another. */
  lemma MatchedOnce(cfg: Config, host: Name, j: nat, k: nat, human: Name)
    requires WellFormed(host) && !Special(host) && j < 36 && k < 36
    requires Same(cfg, Human(cfg.o, host, j), human) && Same(cfg, Human(cfg.o, host, k), human)
    ensures j == k
  {
    NumberedPieces(cfg.o, host, j, k);
    NumberOf(cfg.o, j);
    NumberOf(cfg.o, k);
    hide Number, Matches;
    var p, q := Shortened(cfg.o, host, j), Shortened(cfg.o, host, k);
    assert p.number == Number(cfg.o, j) && q.number == Number(cfg.o, k);
    hide Shortened;
    var i := |p.start| + 1;
    assert p.Whole()[i] == Digit(j) && q.Whole()[i] == Digit(k);
    MatchesAt(cfg.alphabet, p.Whole(), human, false, false, i);
    MatchesAt(cfg.alphabet, q.Whole(), human, false, false, i);
    DigitsFoldApart(cfg.alphabet, j, k);
  }

  /** A directory in which the host has nothing but one file, and perhaps the directory itself and its parent. */
  predicate Alone(host: Name, files: set<Name>) {
    host in files && forall f :: f in files ==> f == host || Special(f)
  }

  lemma TakenByOne(cfg: Config, y: Node, human: Name)
    ensures Taken(cfg, [y], human) <==> Found(cfg, y.f, human, ANY)
    ensures !Taken(cfg, [], human)
  {
  }

  lemma NotFree(cfg: Config, host: Name, y: Node, files: set<Name>, k: nat)
    requires WellFormed(host) && !Special(host) && Alone(host, files) && k < 36 && Correct(cfg.o, host, k)
    requires !Free(cfg, [y], files, Variant(cfg, host, k))
    ensures Human(cfg.o, host, k) == host || Same(cfg, Human(cfg.o, host, k), y.f.human)
  {
    hide Human, HumanExt, Taken, WellFormed, Same, Special;
    TakenByOne(cfg, y, Human(cfg.o, host, k));
    NotSpecial(cfg.o, host, k);
  }

  lemma NotSpecial(o: Options, host: Name, k: nat)
    requires WellFormed(host) && !Special(host) && Correct(o, host, k)
    ensures !Special(Human(o, host, k))
  {
    hide Shortened, WellFormed;
  }

  /** Of three numbered variants, one is the host name at most, and one is taken at most. */
  lemma SomeFreeBeside(cfg: Config, host: Name, y: Node, files: set<Name>, j: int)
    requires WellFormed(host) && !Special(host) && Alone(host, files) && -1 <= j < 36 && Correct(cfg.o, host, j)
    ensures SomeFree(cfg, host, [y], files, 0)
  {
    forall k: nat | k < 3 ensures Correct(cfg.o, host, k) {
      NumberedIsCorrect(cfg.o, host, j, k);
    }
    hide Human, HumanExt, Correct, Free, WellFormed, Special, Alone, Same;
    if !SomeFree(cfg, host, [y], files, 0) {
      forall k: nat | k < 3 ensures Human(cfg.o, host, k) == host || Same(cfg, Human(cfg.o, host, k), y.f.human) {
        assert !Free(cfg, [y], files, Variant(cfg, host, k));
        NotFree(cfg, host, y, files, k);
      }
      ThreeVariants(cfg, host, y.f.human);
      assert false;
    }
  }

  lemma ThreeVariants(cfg: Config, host: Name, human: Name)
    requires WellFormed(host) && !Special(host)
    ensures exists k: nat :: k < 3 && Human(cfg.o, host, k) != host && !Same(cfg, Human(cfg.o, host, k), human)
  {
    var o := cfg.o;
    VariantsDiffer(o, host, 0, 1);
    VariantsDiffer(o, host, 0, 2);
    VariantsDiffer(o, host, 1, 2);
    hide Human, Same, WellFormed;
    forall j: nat, k: nat | j < 3 && k < 3 && Same(cfg, Human(o, host, j), human) && Same(cfg, Human(o, host, k), human)
      ensures j == k
    {
      MatchedOnce(cfg, host, j, k, human);
    }
    var k := if Human(o, host, 0) != host && !Same(cfg, Human(o, host, 0), human) then 0
             else if Human(o, host, 1) != host && !Same(cfg, Human(o, host, 1), human) then 1 else 2;
    assert Human(o, host, k) != host && !Same(cfg, Human(o, host, k), human);
  }

  lemma TakesItsName(cfg: Config, y: Node)
    requires y.f.dirent.attr * ANY != {}
    ensures Taken(cfg, [y], y.f.human)
  {
    EveryNameMatchesItself(cfg.alphabet, y.f.human, false);
    TakenByOne(cfg, y, y.f.human);
  }

  lemma FreerAlone(cfg: Config, y: Node, files: set<Name>, n: Named)
    requires Free(cfg, [y], files, n)
    ensures Free(cfg, [], files, n)
  {
    TakenByOne(cfg, y, n.human);
  }

  lemma NoneFreeBeside(cfg: Config, host: Name, y: Node, files: set<Name>)
    requires WellFormed(host) && NoneFree(cfg, host, [], files)
    ensures NameFor(cfg, host, None, [y], files) == NameFor(cfg, host, None, [], files)
  {
    hide Variant, WellFormed, Settled, Free;
    var own := Variant(cfg, host, -1);
    SettledFindsFree(cfg, host, [], files, own, 0);
    SettledFindsFree(cfg, host, [y], files, own, 0);
    forall count | -1 <= count < 36 && Free(cfg, [y], files, Variant(cfg, host, count))
      ensures Free(cfg, [], files, Variant(cfg, host, count))
    {
      FreerAlone(cfg, y, files, Variant(cfg, host, count));
    }
  }

  lemma OtherNameBeside(cfg: Config, host: Name, y: Node, files: set<Name>)
    requires WellFormed(host) && SomeFree(cfg, host, [y], files, 0) && y.f.dirent.attr * ANY != {}
    requires var own := Variant(cfg, host, -1); !(own.correct && own.human == host)
    ensures !Taken(cfg, [y], NameFor(cfg, host, None, [y], files).human)
    ensures NameFor(cfg, host, None, [y], files).human != y.f.human
  {
    hide Variant, WellFormed, Settled, Taken;
    SettledFindsFree(cfg, host, [y], files, Variant(cfg, host, -1), 0);
    TakesItsName(cfg, y);
  }

  /** When the only file is named beside itself, it gets the same name exactly if it keeps its name; otherwise it gets a
      name under which it could not be found before. */
  lemma NamedBesideItself(cfg: Config, host: Name, y: Node, files: set<Name>)
    requires WellFormed(host) && Alone(host, files)
    requires y.f.human == NameFor(cfg, host, None, [], files).human && y.f.dirent.attr * ANY != {}
    ensures var human := NameFor(cfg, host, None, [y], files).human;
            if KeepsName(cfg, host, files) then human == y.f.human else human != y.f.human && !Taken(cfg, [y], human)
  {
    var own := Variant(cfg, host, -1);
    if own.correct && own.human == host {
    } else if NoneFree(cfg, host, [], files) {
      NoneFreeBeside(cfg, host, y, files);
    } else {
      hide NameFor, Variant, Free, WellFormed, Alone;
      var count :| -1 <= count < 36 && Free(cfg, [], files, Variant(cfg, host, count));
      FreeIsNotSpecial(cfg, host, files, own, count);
      SomeFreeBeside(cfg, host, y, files, count);
      OtherNameBeside(cfg, host, y, files);
    }
  }

  /** The directory itself and its parent have their own names. */
  lemma FreeIsNotSpecial(cfg: Config, host: Name, files: set<Name>, own: Named, count: int)
    requires WellFormed(host) && own == Variant(cfg, host, -1) && !(own.correct && own.human == host)
    requires Free(cfg, [], files, Variant(cfg, host, count))
    ensures !Special(host) && Correct(cfg.o, host, count)
  {
  }

  // ---------- reading a directory with one entry ----------

  /** The one entry of a listing of which the host knows something. */
  function OnlyEntry(listing: seq<HostEntry>): (e: HostEntry)
    requires |Present(listing)| == 1
    ensures e in listing && e.stat.Some? && Present(listing) == [e.name]
  {
    var e := listing[|listing| - 1];
    if e.stat.Some? then e else OnlyEntry(listing[..|listing| - 1])
  }

  lemma {:induction false} NothingPresent(cfg: Config, files: set<Name>, r: Reading, listing: seq<HostEntry>)
    requires ListingOk(listing) && Present(listing) == []
    ensures var s := ReadAll(cfg, files, r, listing); s == r.(changed := s.changed) && (r.changed ==> s.changed)
  {
    if listing != [] {
      NothingPresent(cfg, files, r, listing[..|listing| - 1]);
    }
  }

  /** All that happens is that this entry is read. */
  lemma {:induction false} OnlyOneIsRead(cfg: Config, files: set<Name>, r: Reading, listing: seq<HostEntry>)
    requires ListingOk(listing) && |Present(listing)| == 1
    ensures var s, t := ReadAll(cfg, files, r, listing), ReadEntry(cfg, files, r, OnlyEntry(listing));
            s.list == t.list && s.cache == t.cache && (t.changed ==> s.changed)
  {
    hide NameFor, Packed, WellFormed;
    var before := listing[..|listing| - 1];
    if listing[|listing| - 1].stat.Some? {
      NothingPresent(cfg, files, r, before);
    } else {
      OnlyOneIsRead(cfg, files, r, before);
    }
  }

  /** An entry as it is named when nothing else is listed. */
  predicate NamedFirst(cfg: Config, files: set<Name>, e: HostEntry, f: Filename)
    requires WellFormed(e.name)
  {
    && f.host == e.name && f.human == NameFor(cfg, e.name, None, [], files).human
    && e.stat.Some? && f.dirent.attr == Packed(Named([], 0, true), e.stat.value).attr
  }

  /** An entry that is not in the cache is added. */
  lemma ReadNew(cfg: Config, files: set<Name>, e: HostEntry, list: seq<Node>, next: nat, changed: bool)
      returns (x: Node)
    requires WellFormed(e.name) && e.stat.Some?
    ensures ReadEntry(cfg, files, Reading(list, [], next, changed), e) == Reading(list + [x], [], next + 1, true)
    ensures var n := NameFor(cfg, e.name, None, list, files);
            n.ext <= |n.human| && x == Node(next, Filename(e.name, n.human, n.ext, Packed(n, e.stat.value)))
    ensures x.f.dirent.attr == Packed(Named([], 0, true), e.stat.value).attr
  {
    hide NameFor, WellFormed;
    ExtInName(cfg, e.name, None, list, files);
    var n := NameFor(cfg, e.name, None, list, files);
    x := Node(next, Filename(e.name, n.human, n.ext, Packed(n, e.stat.value)));
  }

  lemma ReadFirst(cfg: Config, files: set<Name>, e: HostEntry, next: nat)
    requires WellFormed(e.name) && e.stat.Some?
    ensures var list := ReadEntry(cfg, files, Reading([], [], next, false), e).list;
            |list| == 1 && NamedFirst(cfg, files, e, list[0].f)
  {
    hide NameFor, WellFormed, ReadEntry;
    var x := ReadNew(cfg, files, e, [], next, false);
  }

  lemma AttributesShow(s: Stat)
    ensures Packed(Named([], 0, true), s).attr * ANY != {}
  {
    assert (if s.directory then Directory else Archive) in Packed(Named([], 0, true), s).attr * ANY;
  }

  /** The entry is read beside itself. */
  lemma ReadBeside(cfg: Config, files: set<Name>, e: HostEntry, y: Node, next: nat)
    requires WellFormed(e.name) && Alone(e.name, files) && NamedFirst(cfg, files, e, y.f)
    ensures var t := ReadEntry(cfg, files, Reading([y], [], next, false), e);
            && |t.list| == 2 && t.list[0] == y && t.changed
            && (if KeepsName(cfg, e.name, files) then Alikes(t.list[1].f, y.f)
                else t.list[1].f.human != y.f.human && !Taken(cfg, [y], t.list[1].f.human))
  {
    hide NameFor, KeepsName, Alone, WellFormed, ReadEntry, Packed, Taken;
    AttributesShow(e.stat.value);
    NamedBesideItself(cfg, e.name, y, files);
    var x := ReadNew(cfg, files, e, [y], next, false);
    assert ([y] + [x])[1] == x;
  }

  /** The entry is read again from two copies. */
  lemma ReadFromTwo(cfg: Config, files: set<Name>, e: HostEntry, y: Node, z: Node, next: nat)
    requires WellFormed(e.name) && NamedFirst(cfg, files, e, y.f)
    ensures var t := ReadEntry(cfg, files, Reading([], [y, z], next, false), e);
            |t.list| == 1 && Alikes(t.list[0].f, y.f) && t.cache == [z]
  {
    hide NameFor, WellFormed, Packed;
    NameForAgain(cfg, e.name, [], files);
    ExtInName(cfg, e.name, Some(y.f.human), [], files);
    var m := NameFor(cfg, e.name, Some(y.f.human), [], files);
    PackedAttributes(m, Named([], 0, true), e.stat.value);
    assert IndexOfHost([y, z], e.name) == 0 && Except([y, z], 0) == [z];
  }

  // ---------- what a directory shows ----------

  /** The names show what the listing shows, or its single entry twice. */
  predicate SameOrTwice(names: seq<Node>, first: seq<Node>) {
    || SameView(names, first)
    || (|first| == 1 && |names| == 2 && Alikes(names[0].f, first[0].f) && Alikes(names[1].f, first[0].f))
  }

  /** A name is found in what shows the same exactly if it is found in the listing, and then it is the same file. */
  lemma ShownIsFound(cfg: Config, names: seq<Node>, first: seq<Node>, human: Name, mask: set<Attribute>)
    requires SameOrTwice(names, first)
    ensures var k, j := FindIndex(cfg, names, human, mask), FindIndex(cfg, first, human, mask);
            if j < |first| then k == j < |names| && Alikes(names[k].f, first[j].f) else k == |names|
  {
    if SameView(names, first) {
      SameFound(cfg, names, first, human, mask);
    } else {
      hide Same;
      var rest := names[1..];
      assert rest[0] == names[1] && rest[1..] == [];
      assert FindIndex(cfg, rest, human, mask) == if Found(cfg, names[1].f, human, mask) then 0 else 1;
      assert FindIndex(cfg, first, human, mask) == if Found(cfg, first[0].f, human, mask) then 0 else 1;
    }
  }

  /** A file that is the only entry to be listed keeps its name. */
  predicate KeptAlone(cfg: Config, listing: seq<HostEntry>, root: bool)
    requires ListingOk(listing)
  {
    forall e :: e in listing && e.stat.Some? && !(root && Special(e.name)) ==> KeepsName(cfg, e.name, Real(listing))
  }

  lemma {:induction false} VisibleUnlessSpecial(listing: seq<HostEntry>, root: bool, e: HostEntry)
    requires e in listing
    ensures e in Visible(listing, root) <==> !(root && Special(e.name))
  {
    var before, last := listing[..|listing| - 1], listing[|listing| - 1];
    if e in before {
      VisibleUnlessSpecial(before, root, e);
    } else {
      assert e == last;
      if root && Special(e.name) {
        VisibleIsListed(before, root);
      }
    }
  }

  lemma {:induction false} PresentIfKnown(listing: seq<HostEntry>, e: HostEntry)
    requires e in listing && e.stat.Some?
    ensures e.name in Present(listing)
  {
    var before := listing[..|listing| - 1];
    if e != listing[|listing| - 1] {
      PresentIfKnown(before, e);
    }
  }

  lemma NothingElseIsKnown(listing: seq<HostEntry>, root: bool, f: HostEntry)
    requires |Present(Visible(listing, root))| == 1 && f in listing && f.stat.Some?
    ensures f.name == OnlyEntry(Visible(listing, root)).name || (root && Special(f.name))
  {
    VisibleUnlessSpecial(listing, root, f);
    if f in Visible(listing, root) {
      PresentIfKnown(Visible(listing, root), f);
    }
  }

  lemma OnlyEntryIsListed(listing: seq<HostEntry>, root: bool)
    requires |Present(Visible(listing, root))| == 1
    ensures var e := OnlyEntry(Visible(listing, root)); e in listing && !(root && Special(e.name))
  {
    VisibleIsListed(listing, root);
    VisibleUnlessSpecial(listing, root, OnlyEntry(Visible(listing, root)));
  }

  /** The only entry that is listed is alone, and it keeps its name exactly if all that are listed do. */
  lemma OnlyEntryIsAlone(cfg: Config, listing: seq<HostEntry>, root: bool)
    requires ListingOk(listing) && |Present(Visible(listing, root))| == 1
    ensures var e := OnlyEntry(Visible(listing, root));
            && e in listing && Alone(e.name, Real(listing))
            && (KeptAlone(cfg, listing, root) <==> KeepsName(cfg, e.name, Real(listing)))
  {
    hide KeepsName, WellFormed, Special, Visible, Present, OnlyEntry;
    OnlyEntryIsListed(listing, root);
    forall f | f in listing && f.stat.Some?
      ensures f.name == OnlyEntry(Visible(listing, root)).name || (root && Special(f.name))
    {
      NothingElseIsKnown(listing, root, f);
    }
  }

  lemma SingleListing(cfg: Config, listing: seq<HostEntry>, root: bool, next: nat)
    requires ListingOk(listing) && |Reread(cfg, [], next, listing, root).list| == 1
    ensures ListingOk(Visible(listing, root)) && |Present(Visible(listing, root))| == 1
    ensures NamedFirst(cfg, Real(listing), OnlyEntry(Visible(listing, root)),
        Reread(cfg, [], next, listing, root).list[0].f)
  {
    hide WellFormed, Visible, Real, ReadEntry, NameFor, Packed;
    VisibleIsListed(listing, root);
    var files, visible := Real(listing), Visible(listing, root);
    var r := Reading([], [], next, false);
    ReadingListsAll(cfg, files, r, visible);
    assert |Hosts(ReadAll(cfg, files, r, visible).list)| == 1;
    OnlyOneIsRead(cfg, files, r, visible);
    ReadFirst(cfg, files, OnlyEntry(visible), next);
  }

  /** The refresh of a directory with a single entry shows nothing else exactly if the file keeps its name. Otherwise
      the second copy has another name, under which nothing was found before. */
  lemma SingleIsTransparent(cfg: Config, listing: seq<HostEntry>, root: bool, next0: nat, names: seq<Node>, next: nat)
    requires ListingOk(listing)
    requires var first := Reread(cfg, [], next0, listing, root).list; |first| == 1 && SameView(names, first)
    ensures var first := Reread(cfg, [], next0, listing, root).list;
            var r := Reread(cfg, names, next, listing, root);
            && r.changed && |r.list| == 2 && r.list[0] == names[0]
            && (SameOrTwice(r.list, first) <==> KeptAlone(cfg, listing, root))
            && (!KeptAlone(cfg, listing, root) ==>
                  r.list[1].f.human != first[0].f.human && !Taken(cfg, names, r.list[1].f.human))
  {
    hide WellFormed, Visible, Real, ReadEntry, NameFor, Packed, KeepsName, Reread, Alone, KeptAlone, Taken;
    SingleListing(cfg, listing, root, next0);
    OnlyEntryIsAlone(cfg, listing, root);
    var files, visible := Real(listing), Visible(listing, root);
    var first := Reread(cfg, [], next0, listing, root).list;
    assert Alikes(names[0].f, first[0].f) && names == [names[0]];
    RereadSingle(cfg, listing, root, names, next);
    OnlyOneIsRead(cfg, files, Reading(names, [], next, false), visible);
    ReadBeside(cfg, files, OnlyEntry(visible), names[0], next);
  }

  lemma RereadSingle(cfg: Config, listing: seq<HostEntry>, root: bool, names: seq<Node>, next: nat)
    requires ListingOk(listing) && ListingOk(Visible(listing, root))
    ensures var r := Reread(cfg, names, next, listing, root);
            var s := ReadAll(cfg, Real(listing), SetAside(names, next), Visible(listing, root));
            r == s.(cache := [], changed := s.changed || s.cache != [])
  {
  }

  /** Where the entry is listed twice, the next refresh lists it once again. */
  lemma TwoBecomeOne(cfg: Config, listing: seq<HostEntry>, root: bool, next0: nat, names: seq<Node>, next: nat)
    requires ListingOk(listing)
    requires var first := Reread(cfg, [], next0, listing, root).list;
             |first| == 1 && |names| == 2 && Alikes(names[0].f, first[0].f)
    ensures var first := Reread(cfg, [], next0, listing, root).list;
            var r := Reread(cfg, names, next, listing, root);
            r.changed && SameView(r.list, first)
  {
    hide WellFormed, Visible, Real, ReadEntry, NameFor, Packed, Reread;
    SingleListing(cfg, listing, root, next0);
    var files, visible := Real(listing), Visible(listing, root);
    assert names == [names[0], names[1]];
    RereadSingle(cfg, listing, root, names, next);
    OnlyOneIsRead(cfg, files, Reading([], names, next, false), visible);
    ReadFromTwo(cfg, files, OnlyEntry(visible), names[0], names[1], next);
  }
}
