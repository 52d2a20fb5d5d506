/** When a refresh of an unchanged directory does not show in a search, for whatever pattern and wherever the search
    stands. */
module SearchesAgain {
  import opened Bytes
  import opened HumanNames
  import opened NameCompares
  import opened Rings
  import opened Directories
  import opened Searches
  import opened Paths
  import opened Splits
  import opened Singles
  import opened FileSearches

  // ---------- patterns ----------

  /** `??????????????????.???` */
  const EVERYTHING: Name := seq(18, _ => QUESTION) + ANY_EXT

  lemma {:induction false} QuestionMarksMatch(alphabet: bool, pattern: Name, name: Name, trailC: bool, trailD: bool)
    requires |name| <= |pattern| && forall i :: 0 <= i < |pattern| ==> pattern[i] == QUESTION
    ensures Matches(alphabet, pattern, name, trailC, trailD)
  {
    if pattern != [] {
      var d := if name == [] then 0 else name[0];
      QuestionMarksMatch(alphabet, pattern[1..], if name == [] then [] else name[1..],
                         !trailC && Lead(pattern[0]), !trailD && Lead(d));
    }
  }

  lemma {:induction false} LongerNameDiffers(alphabet: bool, pattern: Name, name: Name, trailC: bool, trailD: bool)
    requires |name| > |pattern|
    ensures !Matches(alphabet, pattern, name, trailC, trailD)
  {
    if pattern != [] {
      LongerNameDiffers(alphabet, pattern[1..], name[1..], !trailC && Lead(pattern[0]), !trailD && Lead(name[0]));
    }
  }

  /** Past the end of a name only question marks and zeros match. */
  lemma {:induction false} PastTheEnd(alphabet: bool, pattern: Name, name: Name, trailC: bool, trailD: bool, i: nat)
    requires Matches(alphabet, pattern, name, trailC, trailD) && |name| <= i < |pattern|
    ensures pattern[i] == QUESTION || pattern[i] == 0
  {
    var d := if name == [] then 0 else name[0];
    if i > 0 {
      PastTheEnd(alphabet, pattern[1..], if name == [] then [] else name[1..],
                 !trailC && Lead(pattern[0]), !trailD && Lead(d), i - 1);
    }
  }

  lemma EverythingFits(cfg: Config, f: Filename)
    requires f.ext <= |f.human| && f.ext <= 18 && f.dirent.attr * ANY != {}
    ensures Fits(cfg, EVERYTHING, ANY, f)
  {
    ExtensionStartsAt(EVERYTHING, 18);
    assert EVERYTHING[18..] == ANY_EXT;
    hide SeparateExt, Matches;
    QuestionMarksMatch(cfg.alphabet, EVERYTHING[..18], f.human[..f.ext], false, false);
  }

  /** A file whose name is split elsewhere than a look at it shows is not found under it; one whose name is split there
      is. */
  lemma FoundUnderItsName(cfg: Config, f: Filename)
    requires Shaped(f.human, f.ext) && f.dirent.attr * ANY != {}
    ensures Fits(cfg, f.human, ANY, f) ==> SplitsAgain(f.human, f.ext)
  {
    var human, again := f.human, SeparateExt(f.human);
    hide SeparateExt;
    if again < f.ext {
      LongerNameDiffers(cfg.alphabet, human[..again], human[..f.ext], false, false);
    } else if again > f.ext && Matches(cfg.alphabet, human[..again], human[..f.ext], false, false) {
      PastTheEnd(cfg.alphabet, human[..again], human[..f.ext], false, false, f.ext);
      assert false;
    }
  }

  lemma FoundWhereItSplits(cfg: Config, f: Filename)
    requires f.ext == SeparateExt(f.human) && f.dirent.attr * ANY != {}
    ensures Fits(cfg, f.human, ANY, f)
  {
    hide SeparateExt, Matches;
    EveryNameMatchesItself(cfg.alphabet, f.human[..f.ext], false);
    EveryNameMatchesItself(cfg.alphabet, f.human[f.ext..], false);
  }

  // ---------- a directory that is read again ----------

  /** The entry as a refresh leaves it: kept, or split as a look at its name shows. */
  predicate Resplit(f: Filename, g: Filename) {
    Alikes(g, f) && if SplitsAgain(f.human, f.ext) then g == f else g.ext == SeparateExt(f.human)
  }

  predicate AllResplit(a: seq<Node>, b: seq<Node>) {
    |a| == |b| && forall i :: 0 <= i < |a| ==> Resplit(a[i].f, b[i].f)
  }

  lemma ResplitShowsSame(a: seq<Node>, b: seq<Node>)
    requires AllResplit(a, b)
    ensures SameView(b, a)
  {
    hide SplitsAgain, SeparateExt;
    forall i | 0 <= i < |a| ensures Alikes(b[i].f, a[i].f) {
      assert Resplit(a[i].f, b[i].f);
    }
  }

  lemma OneMoreResplit(a: seq<Node>, b: seq<Node>, x: Node, y: Node)
    requires AllResplit(a, b) && Resplit(x.f, y.f)
    ensures AllResplit(a + [x], b + [y])
  {
    hide Resplit;
  }

  lemma NothingResplit()
    ensures AllResplit([], [])
  {
  }

  lemma SameFree(cfg: Config, a: seq<Node>, b: seq<Node>, files: set<Name>, n: Named)
    requires SameView(a, b)
    ensures Free(cfg, a, files, n) <==> Free(cfg, b, files, n)
  {
    hide FindIndex, SameView;
    SameFound(cfg, a, b, n.human, ANY);
    SameLength(a, b);
  }

  lemma SameNamable(cfg: Config, host: Name, a: seq<Node>, b: seq<Node>, files: set<Name>)
    requires WellFormed(host) && SameView(a, b)
    ensures Namable(cfg, host, a, files) <==> Namable(cfg, host, b, files)
  {
    hide WellFormed, Variant, Free, SameView;
    forall count | -1 <= count < ROUNDS
      ensures Free(cfg, a, files, Variant(cfg, host, count)) <==> Free(cfg, b, files, Variant(cfg, host, count))
    {
      SameFree(cfg, a, b, files, Variant(cfg, host, count));
    }
  }

  /** The first of the old entries is read again. */
  lemma EntryResplit(cfg: Config, files: set<Name>, r: Reading, e: HostEntry, first: seq<Node>, x: Node)
    requires WellFormed(e.name) && e.stat.Some? && r.cache != [] && AllResplit(first, r.list)
             && Namable(cfg, e.name, first, files)
    requires var n := NameFor(cfg, e.name, None, first, files);
             n.ext <= |n.human| && x.f == Filename(e.name, n.human, n.ext, Packed(n, e.stat.value))
    requires r.cache[0] == x
    ensures var r' := ReadEntry(cfg, files, r, e);
            AllResplit(first + [x], r'.list) && r'.cache == r.cache[1..]
  {
    hide NameFor, WellFormed, ReadEntry, Packed, AllResplit, SameView, SplitsAgain, SeparateExt, Namable;
    ResplitShowsSame(first, r.list);
    SameNames(cfg, e.name, r.list, first, files);
    SameNamable(cfg, e.name, r.list, first, files);
    var n := NameFor(cfg, e.name, None, first, files);
    if SplitsAgain(x.f.human, x.f.ext) {
      FoundAgain(cfg, files, r, e);
      OneMoreResplit(first, r.list, x, x);
    } else {
      ReplacedUnlessSplitAgain(cfg, files, r, e);
      var f := Filename(e.name, n.human, SeparateExt(n.human), Packed(Copied(n.human), e.stat.value));
      PackedAttributes(Copied(n.human), n, e.stat.value);
      OneMoreResplit(first, r.list, x, Node(r.next, f));
    }
  }

  /** Reading an unchanged directory again keeps its entries or splits them anew, one by one. */
  lemma {:induction false} RereadingResplits(
      cfg: Config, files: set<Name>, listing: seq<HostEntry>, next0: nat, next: nat, names: seq<Node>)
    requires ListingOk(listing) && OwnNames(listing) && AllNamable(cfg, files, listing, next0)
    requires First(cfg, files, listing, next0).list <= names && First(cfg, files, listing, next0).cache == []
    requires forall i, e :: |First(cfg, files, listing, next0).list| <= i < |names| && e in listing ==>
        names[i].f.host != e.name
    ensures var first := First(cfg, files, listing, next0).list;
            var r := ReadAll(cfg, files, Reading([], names, next, false), listing);
            AllResplit(first, r.list) && r.cache == names[|first|..]
  {
    hide NameFor, WellFormed, Packed, First, ReadEntry, Namable, AllResplit;
    if listing == [] {
      NothingRead(cfg, files, next0);
      NothingResplit();
    } else {
      ReadAllStep(cfg, files, Reading([], names, next, false), listing);
      hide ReadAll;
      var before, e := listing[..|listing| - 1], listing[|listing| - 1];
      FirstCache(cfg, files, before, next0);
      FirstStep(cfg, files, listing, next0);
      var first, later := First(cfg, files, before, next0).list, First(cfg, files, listing, next0).list;
      hide OwnNames;
      StillToCome(cfg, files, listing, next0, names);
      RereadingResplits(cfg, files, before, next0, next, names);
      var r := ReadAll(cfg, files, Reading([], names, next, false), before);
      if e.stat.None? {
        MissingAgain(cfg, files, r, e);
      } else {
        assert later == first + [later[|first|]] && names[|first|..][0] == later[|first|];
        EntryResplit(cfg, files, r, e, first, later[|first|]);
      }
    }
  }

  // ---------- what a search finds ----------

  /** The names of the files that fit, from an entry on. */
  function FoundNames(cfg: Config, pattern: Name, mask: set<Attribute>, names: seq<Node>, from: nat): seq<Name>
    requires Extended(names) && from <= |names|
  {
    HumansOf(AllFits(cfg, pattern, mask, names, from))
  }

  function HumansOf(files: seq<Filename>): seq<Name> {
    if files == [] then [] else [files[0].human] + HumansOf(files[1..])
  }

  lemma FoundStep(cfg: Config, pattern: Name, mask: set<Attribute>, names: seq<Node>, from: nat)
    requires Extended(names) && from < |names|
    ensures names[from].f.ext <= |names[from].f.human|
    ensures FoundNames(cfg, pattern, mask, names, from) ==
            (if Fits(cfg, pattern, mask, names[from].f) then [names[from].f.human] else [])
            + FoundNames(cfg, pattern, mask, names, from + 1)
  {
    hide Fits, AllFits, NextFit;
    FitsHere(cfg, pattern, mask, names, from);
  }

  lemma FoundNoMore(cfg: Config, pattern: Name, mask: set<Attribute>, names: seq<Node>)
    requires Extended(names)
    ensures FoundNames(cfg, pattern, mask, names, |names|) == []
  {
  }

  lemma {:induction false} FitsIsFound(cfg: Config, pattern: Name, mask: set<Attribute>, names: seq<Node>, from: nat,
      k: nat)
    requires Extended(names) && from <= k < |names| && Fits(cfg, pattern, mask, names[k].f)
    ensures names[k].f.human in FoundNames(cfg, pattern, mask, names, from)
    decreases k - from
  {
    hide Fits, FoundNames;
    FoundStep(cfg, pattern, mask, names, from);
    if from < k {
      FitsIsFound(cfg, pattern, mask, names, from + 1, k);
    }
  }

  lemma {:induction false} NotFound(cfg: Config, pattern: Name, mask: set<Attribute>, names: seq<Node>, from: nat,
      k: nat)
    requires Extended(names) && from <= |names| && k < |names| && HumansDiffer(names)
    requires !Fits(cfg, pattern, mask, names[k].f)
    ensures names[k].f.human !in FoundNames(cfg, pattern, mask, names, from)
    decreases |names| - from
  {
    hide Fits, FoundNames;
    if from < |names| {
      FoundStep(cfg, pattern, mask, names, from);
      NotFound(cfg, pattern, mask, names, from + 1, k);
    } else {
      FoundNoMore(cfg, pattern, mask, names);
    }
  }

  /** Where a search that has passed `k` entries goes on when the directory has been read again. */
  function ResumedIn(first: seq<Node>, again: seq<Node>, k: nat): (p: nat)
    ensures p <= |again|
  {
    if k == 0 then 0 else PlaceByContents(again, EntryAt(first, k), k)
  }

  /** Wherever a search stands when the directory is read again, and whatever it is for, it finds what it would have
      found. */
  ghost predicate SearchedAlike(cfg: Config, first: seq<Node>, again: seq<Node>)
    requires Extended(first) && Extended(again)
  {
    forall pattern: Name, mask: set<Attribute>, k: nat :: k <= |first| ==>
      FoundNames(cfg, pattern, mask, again, ResumedIn(first, again, k)) == FoundNames(cfg, pattern, mask, first, k)
  }

  // ---------- one entry ----------

  lemma NamedWithin(cfg: Config, host: Name, list: seq<Node>, files: set<Name>)
    requires WellFormed(host)
    ensures var n := NameFor(cfg, host, None, list, files); n.ext <= 18 && n.ext <= |n.human|
  {
    hide Settled, WellFormed, Human, HumanExt, Correct;
    HumanShape(cfg.o, host, -1);
    var c := SettledIsVariant(cfg, host, list, files, -1, 0);
    HumanShape(cfg.o, host, c);
  }

  lemma PackedFits(cfg: Config, n: Named, s: Stat, f: Filename)
    requires n.ext <= 18 && n.ext <= |n.human| && f.human == n.human && f.ext == n.ext && f.dirent == Packed(n, s)
    ensures Fits(cfg, EVERYTHING, ANY, f) && f.dirent != NO_DIRENT
  {
    PaddedBaseAt(n.human[..n.ext]);
    hide PaddedBase, Padded;
    assert f.dirent.name != [];
    AttributesShow(s);
    PackedAttributes(n, Named([], 0, true), s);
    EverythingFits(cfg, f);
  }

  /** A first reading with a single entry, and the refresh after it. */
  lemma SingleReadAgain(cfg: Config, listing: seq<HostEntry>, root: bool, next0: nat, next: nat)
      returns (x: Node, z: Node)
    requires ListingOk(listing) && |Reread(cfg, [], next0, listing, root).list| == 1
    ensures Reread(cfg, [], next0, listing, root).list == [x] && Reread(cfg, [x], next, listing, root).list == [x, z]
    ensures x.f.ext <= |x.f.human| && Fits(cfg, EVERYTHING, ANY, x.f) && x.f.dirent != NO_DIRENT
    ensures z.f.ext <= |z.f.human| && Fits(cfg, EVERYTHING, ANY, z.f) && z.f.dirent != NO_DIRENT && z.f.host == x.f.host
  {
    hide WellFormed, Visible, Real, ReadEntry, NameFor, Packed, Reread, Fits;
    SingleListing(cfg, listing, root, next0);
    var files, visible := Real(listing), Visible(listing, root);
    var e := OnlyEntry(visible);
    RereadSingle(cfg, listing, root, [], next0);
    OnlyOneIsRead(cfg, files, Reading([], [], next0, false), visible);
    x := ReadNew(cfg, files, e, [], next0, false);
    assert [] + [x] == [x];
    RereadSingle(cfg, listing, root, [x], next);
    OnlyOneIsRead(cfg, files, Reading([x], [], next, false), visible);
    z := ReadNew(cfg, files, e, [x], next, false);
    assert [x] + [z] == [x, z];
    NamedWithin(cfg, e.name, [], files);
    NamedWithin(cfg, e.name, [x], files);
    PackedFits(cfg, NameFor(cfg, e.name, None, [], files), e.stat.value, x.f);
    PackedFits(cfg, NameFor(cfg, e.name, None, [x], files), e.stat.value, z.f);
  }

  lemma TwoFound(cfg: Config, x: Node, z: Node)
    requires x.f.ext <= |x.f.human| && Fits(cfg, EVERYTHING, ANY, x.f)
    requires z.f.ext <= |z.f.human| && Fits(cfg, EVERYTHING, ANY, z.f)
    ensures Extended([x]) && Extended([x, z])
    ensures FoundNames(cfg, EVERYTHING, ANY, [x], 0) == [x.f.human] && FoundNames(cfg, EVERYTHING, ANY, [x], 1) == []
    ensures FoundNames(cfg, EVERYTHING, ANY, [x, z], 1) == [z.f.human]
  {
    hide Fits, FoundNames;
    assert [x][0] == [x, z][0];
    FoundStep(cfg, EVERYTHING, ANY, [x], 0);
    FoundNoMore(cfg, EVERYTHING, ANY, [x]);
    FoundStep(cfg, EVERYTHING, ANY, [x, z], 1);
    FoundNoMore(cfg, EVERYTHING, ANY, [x, z]);
  }

  lemma NotAmongTwo(a: Node, b: Node, entry: Dirent)
    requires a.f.dirent != entry && b.f.dirent != entry
    ensures IndexOfEntry([a, b], entry) == 2
  {
    assert [a, b][1..] == [b] && [b][1..] == [];
  }

  /** In every directory with a single entry, a search for everything finds the file; if the directory is read again
      then, the search goes on by counting and finds the second copy. */
  lemma SingleIsFoundTwice(cfg: Config, listing: seq<HostEntry>, root: bool, next0: nat, next: nat)
    requires ListingOk(listing) && |Reread(cfg, [], next0, listing, root).list| == 1
    ensures var first := Reread(cfg, [], next0, listing, root).list;
            var again := Reread(cfg, first, next, listing, root).list;
            && |again| == 2 && again[1].f.host == first[0].f.host && Extended(first) && Extended(again)
            && FoundNames(cfg, EVERYTHING, ANY, first, 0) == [first[0].f.human]
            && FoundNames(cfg, EVERYTHING, ANY, first, 1) == [] && ResumedIn(first, again, 1) == 1
            && FoundNames(cfg, EVERYTHING, ANY, again, 1) == [again[1].f.human]
  {
    hide Reread, Fits, FoundNames, WellFormed;
    var x, z := SingleReadAgain(cfg, listing, root, next0, next);
    TwoFound(cfg, x, z);
    NotAmongTwo(x, z, NO_DIRENT);
  }

  // ---------- other than one entry ----------

  lemma NamesDiffer(cfg: Config, listing: seq<HostEntry>, root: bool, next: nat)
    requires ListingOk(listing) && CanBeNamed(cfg, listing, root, next)
    ensures var first := Reread(cfg, [], next, listing, root).list;
            && HumansDiffer(first) && EntriesDiffer(first) && Extended(first)
            && forall i :: 0 <= i < |first| ==>
                Shaped(first[i].f.human, first[i].f.ext) && first[i].f.dirent.attr * ANY != {}
  {
    hide WellFormed, Visible, Real, ReadAll, AllNamable, OwnNames, Shaped, EntriesDiffer, HumansDiffer;
    VisibleIsListed(listing, root);
    VisibleIsReal(listing, root);
    var files, visible := Real(listing), Visible(listing, root);
    FirstReadingTellsApart(cfg, files, visible, next);
    NamableEntriesDiffer(cfg, files, visible, next);
    FirstReadingIsTidy(cfg, files, visible, next);
    ListingAllocates(cfg, files, visible, next);
    var first := First(cfg, files, visible, next).list;
    assert first == Reread(cfg, [], next, listing, root).list;
    hide First, Reread;
    forall i | 0 <= i < |first| ensures Shaped(first[i].f.human, first[i].f.ext) {
      assert Tidy(first[i].f);
    }
  }

  lemma RefreshResplits(cfg: Config, listing: seq<HostEntry>, root: bool, next0: nat, next: nat)
    requires ListingOk(listing) && CanBeNamed(cfg, listing, root, next0)
    requires |Reread(cfg, [], next0, listing, root).list| != 1
    ensures var first := Reread(cfg, [], next0, listing, root).list;
            AllResplit(first, Reread(cfg, first, next, listing, root).list)
  {
    hide ReadAll, Visible, Real, WellFormed, OwnNames, AllNamable, AllResplit;
    VisibleIsListed(listing, root);
    var files, visible := Real(listing), Visible(listing, root);
    var first := First(cfg, files, visible, next0).list;
    assert first == Reread(cfg, [], next0, listing, root).list;
    FirstCache(cfg, files, visible, next0);
    RereadingResplits(cfg, files, visible, next0, next, first);
  }

  lemma ResplitIsExtended(a: seq<Node>, b: seq<Node>)
    requires AllResplit(a, b) && Extended(a)
    ensures Extended(b)
  {
    hide SeparateExt, SplitsAgain;
    forall i | 0 <= i < |b| ensures b[i].f.ext <= |b[i].f.human| {
      assert Resplit(a[i].f, b[i].f) && a[i].f.ext <= |a[i].f.human|;
    }
  }

  /** In a directory where every file can be named, and a name does not split again, that file is found under its name
      only when the directory has been read again. */
  lemma UnstableIsFoundLater(cfg: Config, listing: seq<HostEntry>, root: bool, next0: nat, next: nat) returns (k: nat)
    requires ListingOk(listing) && CanBeNamed(cfg, listing, root, next0)
    requires var first := Reread(cfg, [], next0, listing, root).list; |first| != 1 && !StableSplit(first)
    ensures var first := Reread(cfg, [], next0, listing, root).list;
            var again := Reread(cfg, first, next, listing, root).list;
            && k < |first| == |again| && again[k].f.host == first[k].f.host && Extended(first) && Extended(again)
            && !Fits(cfg, first[k].f.human, ANY, first[k].f) && Fits(cfg, first[k].f.human, ANY, again[k].f)
            && first[k].f.human !in FoundNames(cfg, first[k].f.human, ANY, first, 0)
            && first[k].f.human in FoundNames(cfg, first[k].f.human, ANY, again, 0)
  {
    hide Reread, WellFormed, CanBeNamed, SplitsAgain, SeparateExt, Fits, FoundNames, Shaped, EntriesDiffer;
    NamesDiffer(cfg, listing, root, next0);
    RefreshResplits(cfg, listing, root, next0, next);
    var first := Reread(cfg, [], next0, listing, root).list;
    var again := Reread(cfg, first, next, listing, root).list;
    ResplitIsExtended(first, again);
    k :| 0 <= k < |first| && !SplitsAgain(first[k].f.human, first[k].f.ext);
    assert Resplit(first[k].f, again[k].f);
    FoundUnderItsName(cfg, first[k].f);
    FoundWhereItSplits(cfg, again[k].f);
    NotFound(cfg, first[k].f.human, ANY, first, 0, k);
    FitsIsFound(cfg, first[k].f.human, ANY, again, 0, k);
  }

  /** Where entries differ, a search that goes on in the same entries goes on where it was. */
  lemma ResumedInPlace(names: seq<Node>, k: nat)
    requires EntriesDiffer(names) && k <= |names|
    ensures ResumedIn(names, names, k) == k
  {
    if 0 < k < |names| {
      assert names[k].f.dirent == EntryAt(names, k);
    }
  }

  /** For a directory in which every file can be named, every search is the same over a refresh, if and only if it can
      be searched: there is not just one entry, and all names split again. */
  lemma SearchedAlikeExactly(cfg: Config, listing: seq<HostEntry>, root: bool, next0: nat, next: nat)
    requires ListingOk(listing) && CanBeNamed(cfg, listing, root, next0)
    ensures var first := Reread(cfg, [], next0, listing, root).list;
            var again := Reread(cfg, first, next, listing, root).list;
            && Extended(first) && Extended(again)
            && (SearchedAlike(cfg, first, again) <==> Searchable(first))
            && (Searchable(first) <==> |first| != 1 && StableSplit(first))
  {
    hide Reread, WellFormed, CanBeNamed, StableSplit, Fits, FoundNames, EntriesDiffer, Extended, ResumedIn;
    var first := Reread(cfg, [], next0, listing, root).list;
    var again := Reread(cfg, first, next, listing, root).list;
    NamesDiffer(cfg, listing, root, next0);
    if |first| == 1 {
      SingleIsFoundTwice(cfg, listing, root, next0, next);
      assert FoundNames(cfg, EVERYTHING, ANY, again, ResumedIn(first, again, 1))
             != FoundNames(cfg, EVERYTHING, ANY, first, 1);
    } else if !StableSplit(first) {
      var k := UnstableIsFoundLater(cfg, listing, root, next0, next);
      var pattern := first[k].f.human;
      StartsAtFirst(first, again);
      assert FoundNames(cfg, pattern, ANY, again, ResumedIn(first, again, 0))
             != FoundNames(cfg, pattern, ANY, first, 0);
    } else {
      RefreshKeepsExactly(cfg, listing, root, next0, next);
      forall k: nat | k <= |first| ensures ResumedIn(first, again, k) == k {
        ResumedInPlace(first, k);
      }
    }
  }

  lemma StartsAtFirst(first: seq<Node>, again: seq<Node>)
    ensures ResumedIn(first, again, 0) == 0
  {
  }
}
