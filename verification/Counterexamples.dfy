/** Inputs on which the file system does not do what it does on all others: directories that a refresh changes although
    the host has not, and paths that the cache takes for others. */
module Counterexamples {
  import opened Bytes
  import opened HumanNames
  import opened NameCompares
  import opened Rings
  import opened Directories
  import opened Searches
  import opened Paths
  import opened Splits
  import opened Singles
  import opened PathCaches
  import opened FileSearches
  import opened SearchesAgain

  // ---------- evaluating names ----------

  lemma {:induction false} PrintableIsWellFormed(s: Name)
    requires Printable(s)
    ensures WellFormed(s)
  {
    if s != [] {
      PrintableIsWellFormed(s[1..]);
    }
  }

  lemma {:induction false} PrintableBoundary(s: Name, k: nat)
    requires Printable(s) && k <= |s|
    ensures Boundary(s, k)
  {
    if k > 0 {
      PrintableBoundary(s[1..], k - 1);
    }
  }

  /** Where the start of a printable base name ends. */
  function CutAt(period: nat, end: nat, room: nat): nat
    requires end <= room
  {
    var cut := if period > room then room else period;
    if cut + end > room then room - end else cut
  }

  lemma PrintableCut(f: Full, period: nat, second: nat, room: nat)
    requires Printable(f.name) && 0 < f.ext <= |f.name| && 2 <= room && f.ext - second <= room && second <= f.ext
    requires FirstPeriod(f.name, 1) == period && Second(f, room) == second
    ensures FirstWidth(f) == 1
    ensures Cut(f, room) == CutAt(period, f.ext - second, room) <= |f.name|
  {
    assert !Lead(f.name[0]);
    hide Second, Boundary, FirstPeriod;
    var cut := Fitting(f, room);
    PrintableBoundary(f.name, cut);
  }

  /** The pieces of a printable name, given its first period behind its first byte and the place where its end
      starts. */
  lemma PrintablePieces(o: Options, host: Name, count: int, f: Full, period: nat, second: nat, room: nat)
    requires WellFormed(host) && Prepared(o, host) == f && Printable(f.name) && 0 < f.ext <= |f.name|
    requires Room(o, count) == room && FirstPeriod(f.name, 1) == period && Second(f, room) == second
    ensures second <= f.ext && f.ext - second <= room && CutAt(period, f.ext - second, room) <= |f.name|
    ensures Shortened(o, host, count) ==
            Pieces(f.name[..CutAt(period, f.ext - second, room)], Number(o, count), f.name[second..f.ext],
                f.name[f.ext..])
  {
    hide Prepared, Second, WellFormed, Boundary, Number, Room, FirstPeriod, Cut, CutAt;
    PreparedShape(o, host);
    PiecesAreApart(f, room);
    PrintableCut(f, period, second, room);
  }

  const PLAIN := Options(false, false, false, false, false, false, false, false, false, false, false, false, false, 0)

  // ---------- a long name ----------

  /** "This_is_a", ".Very", ".Long.Filename", ".txt" */
  const THIS: Name := [0x54, 0x68, 0x69, 0x73]
  const IS_A: Name := [0x5F, 0x69, 0x73, 0x5F, 0x61]
  const VERY: Name := [0x2E, 0x56, 0x65, 0x72, 0x79]
  const LONG_FILENAME: Name := [0x2E, 0x4C, 0x6F, 0x6E, 0x67, 0x2E, 0x46, 0x69, 0x6C, 0x65, 0x6E, 0x61, 0x6D, 0x65]
  const TXT: Name := [0x2E, 0x74, 0x78, 0x74]

  lemma KeptEnds(f: Full, start: nat, end: nat)
    requires f.ext == 28 < |f.name| && KeepsEnds(f, start, end, 18) && f.name[14] == PERIOD
    requires forall i :: 0 <= i < 14 && i != 9 ==> f.name[i] != PERIOD && !Lead(f.name[i])
    ensures start == 4 && end == 14
  {
  }

  predicate TwoEnds(host: Name) {
    && Printable(host) && |host| == 32 && host[0] != SPACE && host[31] != SPACE
    && host[28] == PERIOD && PeriodFree(host, 29) && host[14] == PERIOD
    && forall i :: 0 <= i < 14 && i != 9 ==> host[i] != PERIOD
  }

  lemma TwoEndsPrepared(host: Name)
    requires TwoEnds(host)
    ensures WellFormed(host) && Prepared(PLAIN, host) == Full(host, 28)
  {
    hide WellFormed, LastPeriod, Prepared;
    PrintableIsWellFormed(host);
    LastPeriodAt(host, 28);
    PreparedAsItIs(PLAIN, host);
  }

  lemma NoNumber()
    ensures Number(PLAIN, -1) == [] && MaxOf(PLAIN) == 18
  {
  }

  lemma BothEndsStay(host: Name)
    requires TwoEnds(host)
    ensures WellFormed(host) && Human(PLAIN, host, -1) == host[..4] + host[14..]
  {
    hide WellFormed, Prepared, Shortened, KeepsEnds, Number;
    TwoEndsPrepared(host);
    ShortenedKeepsEnds(PLAIN, host, -1);
    NumberOfShortened(PLAIN, host, -1);
    var p := Shortened(PLAIN, host, -1);
    NoNumber();
    KeptEnds(Full(host, 28), |p.start|, |p.end|);
    assert host[14..28] + host[28..] == host[14..];
  }

  /** This_is_a.Very.Long.Filename.txt becomes This.Long.Filename.txt. */
  lemma LongNameKeepsItsEnds()
    ensures var host := THIS + IS_A + VERY + LONG_FILENAME + TXT;
            WellFormed(host) && Human(PLAIN, host, -1) == THIS + LONG_FILENAME + TXT
  {
    hide WellFormed, Human;
    var host := THIS + IS_A + VERY + LONG_FILENAME + TXT;
    ThisIsPrintable();
    BothEndsStay(host);
    assert host[..4] == THIS && host[14..] == LONG_FILENAME + TXT;
  }

  lemma ThisIsPrintable()
    ensures TwoEnds(THIS + IS_A + VERY + LONG_FILENAME + TXT)
  {
    var front, back := THIS + IS_A + VERY, LONG_FILENAME + TXT;
    assert Printable(front) && Printable(back);
    assert forall i :: 0 <= i < 14 && i != 9 ==> front[i] != PERIOD;
    assert PeriodFree(back, 15);
    assert THIS + IS_A + VERY + LONG_FILENAME + TXT == front + back;
  }

  // ---------- names that are split differently when they are copied ----------

  /** A name like `ab.defghijklmnopq .x.`: 21 bytes, with periods at bytes 2, 18 and 20 and a space in front of byte
      18. */
  predicate TwoEndPeriods(host: Name) {
    && |host| == 21 && Printable(host) && host[0] != SPACE && host[1] != PERIOD
    && host[2] == host[18] == host[20] == PERIOD && host[17] == SPACE
    && forall i :: 3 <= i < 18 ==> host[i] != PERIOD
  }

  lemma ExtensionOfLongName(host: Name)
    requires TwoEndPeriods(host)
    ensures WellFormed(host) && Prepared(PLAIN, host) == Full(host, 18)
  {
    PrintableIsWellFormed(host);
    assert SeparateExt(host) == 18;
    assert Prepared(PLAIN, host) == Full(host, 18) by {
      hide SeparateExt;
      NothingToConvert(PLAIN, host, 18, |host|);
      NothingToConvert(PLAIN, host, 18, 18);
      assert host[..21] == host;
    }
  }

  lemma SecondOfLongName(host: Name)
    requires TwoEndPeriods(host)
    ensures FirstPeriod(host, 1) == 2 && Second(Full(host, 18), 18) == 2 && Second(Full(host, 18), 16) == 18
  {
    var base := host[..18];
    assert base[2] == PERIOD && base[1] != PERIOD && forall i :: 3 <= i < 18 ==> base[i] != PERIOD;
    assert FirstPeriod(base, 1) == 2 && FirstPeriod(base, 3) == 18;
  }

  lemma LongNamePieces(host: Name)
    requires TwoEndPeriods(host)
    ensures WellFormed(host)
    ensures Shortened(PLAIN, host, -1) == Pieces(host[..2], [], host[2..18], host[18..])
    ensures Shortened(PLAIN, host, 0) == Pieces(host[..2], [MARK, 0x30], [], host[18..])
  {
    var f := Full(host, 18);
    ExtensionOfLongName(host);
    SecondOfLongName(host);
    RoomOf(PLAIN, -1);
    RoomOf(PLAIN, 0);
    NumberOf(PLAIN, 0);
    assert Number(PLAIN, -1) == [];
    hide WellFormed, Second, FirstPeriod, Number, Room, Prepared, Shortened;
    PrintablePieces(PLAIN, host, -1, f, 2, 2, 18);
    PrintablePieces(PLAIN, host, 0, f, 2, 18, 16);
  }

  lemma FromPieces(o: Options, host: Name, count: int, p: Pieces)
    requires WellFormed(host) && !Special(host) && Shortened(o, host, count) == p
    ensures Human(o, host, count) == p.Whole() && HumanExt(o, host, count) == |p.Base()|
    ensures Correct(o, host, count) <==> Usable(p)
  {
    hide Shortened, WellFormed;
  }

  lemma NotUsable(p: Pieces)
    requires p.end != [] && p.end[|p.end| - 1] == SPACE
    ensures !Usable(p)
  {
    assert p.Base()[|p.Base()| - 1] == p.end[|p.end| - 1];
  }

  lemma LongNameIsNotUsable(host: Name)
    requires TwoEndPeriods(host)
    ensures WellFormed(host) && !Correct(PLAIN, host, -1)
  {
    hide Shortened, WellFormed, Human, HumanExt, Correct, Usable;
    LongNamePieces(host);
    var p := Pieces(host[..2], [], host[2..18], host[18..]);
    assert host[2..18][15] == host[17] && host[1] != PERIOD && !Special(host);
    hide TwoEndPeriods, Special;
    FromPieces(PLAIN, host, -1, p);
    NotUsable(p);
  }

  /** Without any option, such a name becomes `ab@0.x.`, with the extension at byte 4. It is copied without one. */
  lemma LongNameIsSplitDifferently(host: Name)
    requires TwoEndPeriods(host)
    ensures WellFormed(host) && !Correct(PLAIN, host, -1) && Correct(PLAIN, host, 0)
    ensures Human(PLAIN, host, 0) == host[..2] + [MARK, 0x30] + host[18..] && HumanExt(PLAIN, host, 0) == 4
    ensures SeparateExt(Human(PLAIN, host, 0)) == 7
  {
    LongNamePieces(host);
    LongNameIsNotUsable(host);
    hide Shortened, WellFormed, SeparateExt, Human, HumanExt, Correct, Usable;
    var p := Pieces(host[..2], [MARK, 0x30], [], host[18..]);
    FromPieces(PLAIN, host, 0, p);
    NumberedIsUsable(p, 0);
    assert p.Base() == host[..2] + [MARK, 0x30];
    EndsInPeriod(p.Whole());
  }

  lemma EndsInExt(s: Name, k: nat)
    requires 0 < k < |s| < 20 && s[k] == PERIOD && PeriodFree(s, k + 1) && 2 <= |s| - k <= 4
    ensures SeparateExt(s) == k
  {
    LastPeriodAt(s, k);
  }

  lemma EndsInPeriod(s: Name)
    requires 1 < |s| < 20 && s[|s| - 1] == PERIOD
    ensures SeparateExt(s) == |s|
  {
    LastPeriodAt(s, |s| - 1);
  }

  const DROPPING := PLAIN.(reducedSpace := true)

  /** A name like `foo.a b c`: no extension, but one when its spaces are dropped. */
  predicate SpacedTail(host: Name) {
    && |host| == 9 && Printable(host) && host[3] == PERIOD && host[5] == host[7] == SPACE
    && forall i :: i in {0, 1, 2, 4, 6, 8} ==> host[i] != PERIOD && host[i] != SPACE
  }

  lemma SpacedExample()
    ensures SpacedTail([0x66, 0x6F, 0x6F, 0x2E, 0x61, 0x20, 0x62, 0x20, 0x63])
  {
  }

  lemma SpacesAreDropped(host: Name)
    requires SpacedTail(host)
    ensures Converted(DROPPING, host, 9, 9) == host[..5] + [host[6], host[8]]
  {
    var o := DROPPING;
    assert Converted(o, host, 9, 0) == [];
    assert Converted(o, host, 9, 1) == [host[0]];
    assert Converted(o, host, 9, 2) == [host[0], host[1]];
    assert Converted(o, host, 9, 3) == [host[0], host[1], host[2]];
    assert Converted(o, host, 9, 4) == [host[0], host[1], host[2], host[3]];
    assert Converted(o, host, 9, 5) == host[..5];
    assert Converted(o, host, 9, 6) == host[..5];
    assert Converted(o, host, 9, 7) == host[..5] + [host[6]];
    assert Converted(o, host, 9, 8) == host[..5] + [host[6]];
  }

  lemma SpacedBase(host: Name)
    requires SpacedTail(host)
    ensures WellFormed(host) && Prepared(DROPPING, host) == Full(host[..3] + [PERIOD, host[4], host[6], host[8]], 7)
  {
    hide WellFormed, Converted;
    PrintableIsWellFormed(host);
    assert SeparateExt(host) == 9 by {
      LastPeriodAt(host, 3);
    }
    hide SeparateExt;
    SpacesAreDropped(host);
    assert host[..5] + [host[6], host[8]] == host[..3] + [PERIOD, host[4], host[6], host[8]];
  }

  /** Where spaces are dropped, such a name becomes `foo.abc`, all of it base name. It is copied with the extension
      `.abc`. */
  lemma SpacedNameIsSplitDifferently(host: Name)
    requires SpacedTail(host)
    ensures WellFormed(host) && Correct(DROPPING, host, -1)
    ensures Human(DROPPING, host, -1) == host[..3] + [PERIOD, host[4], host[6], host[8]]
            && HumanExt(DROPPING, host, -1) == 7
    ensures SeparateExt(Human(DROPPING, host, -1)) == 3
  {
    hide Human, HumanExt, Correct, WellFormed, Prepared, SeparateExt;
    SpacedBase(host);
    EndsInExt(host[..3] + [PERIOD, host[4], host[6], host[8]], 3);
    FittingBaseStays(DROPPING, host);
  }

  /** A name like `a.b. `, whose extension consists of a space. */
  predicate BlankExtension(host: Name) {
    && |host| == 5 && Printable(host) && host[1] == host[3] == PERIOD && host[4] == SPACE
    && host[0] !in {PERIOD, SPACE} && host[2] !in {PERIOD, SPACE}
  }

  lemma BlankExample()
    ensures BlankExtension([0x61, 0x2E, 0x62, 0x2E, 0x20])
  {
  }

  lemma BlankIsTrimmed(host: Name)
    requires BlankExtension(host)
    ensures WellFormed(host) && Prepared(PLAIN, host) == Full(host[..3], 3)
  {
    PrintableIsWellFormed(host);
    assert SeparateExt(host) == 3 by {
      LastPeriodAt(host, 3);
    }
    hide SeparateExt, WellFormed;
    NothingToConvert(PLAIN, host, 3, 5);
    NothingToConvert(PLAIN, host, 3, 3);
    hide Converted;
    assert host[..5] == host && host[..5][..4] == host[..4] && host[..4][..3] == host[..3];
    assert Trimmed(host, 3) == Trimmed(host[..4], 3) == host[..4];
  }

  /** Without any option, such a name becomes `a.b`, all of it base name. It is copied with the extension `.b`. */
  lemma BlankNameIsSplitDifferently(host: Name)
    requires BlankExtension(host)
    ensures WellFormed(host) && Correct(PLAIN, host, -1)
    ensures Human(PLAIN, host, -1) == host[..3] && HumanExt(PLAIN, host, -1) == 3 && SeparateExt(host[..3]) == 1
  {
    hide Human, HumanExt, Correct, WellFormed, Prepared, SeparateExt;
    BlankIsTrimmed(host);
    EndsInExt(host[..3], 1);
    FittingBaseStays(PLAIN, host);
  }

  const PERIOD_MARK := PLAIN.(mark := PERIOD)

  /** With a period as mark, the first variant of a name like `a` becomes `a.0`, all of it base name. It is copied with
      the extension `.0`. */
  lemma MarkedNameIsSplitDifferently(c: byte)
    requires c < 0x80 && c !in {0, PERIOD, SPACE}
    ensures WellFormed([c]) && Correct(PERIOD_MARK, [c], 0)
    ensures Human(PERIOD_MARK, [c], 0) == [c, PERIOD, 0x30] && HumanExt(PERIOD_MARK, [c], 0) == 3
    ensures SeparateExt([c, PERIOD, 0x30]) == 1
  {
    var host: Name, human: Name := [c], [c, PERIOD, 0x30];
    MarkedPieces(c);
    LastPeriodAt(human, 1);
    hide Shortened, WellFormed;
    var p := Pieces(host, [PERIOD, 0x30], [], []);
    assert p.Whole() == p.Base() == human;
    FromPieces(PERIOD_MARK, host, 0, p);
  }

  lemma MarkedPieces(c: byte)
    requires c < 0x80 && c !in {0, PERIOD, SPACE}
    ensures WellFormed([c]) && Shortened(PERIOD_MARK, [c], 0) == Pieces([c], [PERIOD, 0x30], [], [])
  {
    var host: Name := [c];
    var f := Full(host, 1);
    PrintableIsWellFormed(host);
    assert host[..1] == host;
    assert SeparateExt(host) == 1;
    PreparedAsItIs(PERIOD_MARK, host);
    assert FirstPeriod(host, 1) == 1 && Second(f, 16) == 1;
    RoomOf(PERIOD_MARK, 0);
    NumberOf(PERIOD_MARK, 0);
    hide WellFormed, Second, FirstPeriod, Number, Room, Prepared, Shortened, SeparateExt;
    PrintablePieces(PERIOD_MARK, host, 0, f, 1, 1, 16);
  }

  // ---------- a search that loses a file ----------

  const CFG := Config(PLAIN, false)
  const FIRST: Name := [0x61, 0x61, 0x40, 0x30, 0x2E, 0x78, 0x79]
  const PATTERN: Name := [0x61, QUESTION, 0x40, 0x30, 0x2E, 0x78, QUESTION]

  /** The names of the two files are `aa@0.xy` and one like `ab.defghijklmnopq .x.`. */
  predicate SecondFile(host: Name) {
    TwoEndPeriods(host) && host[0] == 0x61 && host[19] == 0x78
  }

  function SecondHuman(host: Name): (human: Name)
    requires SecondFile(host)
    ensures |human| == 7
  {
    [0x61, host[1], 0x40, 0x30, 0x2E, 0x78, 0x2E]
  }

  lemma FirstName(list: seq<Node>, files: set<Name>)
    ensures WellFormed(FIRST) && !Special(FIRST) && SeparateExt(FIRST) == 4
            && NameFor(CFG, FIRST, None, list, files) == Named(FIRST, 4, true)
  {
    hide SeparateExt, WellFormed, Human, HumanExt, Correct, LastPeriod;
    assert |FIRST| == 7 && !Special(FIRST);
    EndsInExt(FIRST, 4);
    PrintableIsWellFormed(FIRST);
    FittingNamesStay(PLAIN, FIRST);
  }

  lemma SecondVariant(host: Name)
    requires SecondFile(host)
    ensures WellFormed(host) && !Variant(CFG, host, -1).correct
    ensures Variant(CFG, host, 0) == Named(SecondHuman(host), 4, true) && SeparateExt(SecondHuman(host)) == 7
  {
    hide SeparateExt, WellFormed, Human, HumanExt, Correct;
    LongNameIsSplitDifferently(host);
    assert host[..2] + [MARK, 0x30] + host[18..] == SecondHuman(host);
  }

  lemma SecondIsFree(host: Name, x: Node)
    requires SecondFile(host) && x.f.human == FIRST
    ensures Free(CFG, [x], {FIRST, host}, Named(SecondHuman(host), 4, true))
  {
    var human := SecondHuman(host);
    assert human[6] != FIRST[6] && |human| != |host|;
    if Matches(false, human, FIRST, false, false) {
      MatchesAt(false, human, FIRST, false, false, 6);
      assert false;
    }
    hide Matches;
    TakenByOne(CFG, x, human);
  }

  lemma SecondName(host: Name, x: Node)
    requires SecondFile(host) && x.f.human == FIRST
    ensures WellFormed(host) && !Special(host)
    ensures NameFor(CFG, host, None, [x], {FIRST, host}) == Named(SecondHuman(host), 4, true)
    ensures Namable(CFG, host, [x], {FIRST, host})
  {
    SecondVariant(host);
    SecondIsFree(host, x);
    hide Variant, WellFormed, SecondHuman, SecondFile, NameFor, Namable;
    FirstVariant(CFG, host, [x], {FIRST, host});
  }

  /** A file whose own name will not do gets its first numbered variant if that is free. */
  lemma FirstVariant(cfg: Config, host: Name, list: seq<Node>, files: set<Name>)
    requires WellFormed(host) && !Free(cfg, list, files, Variant(cfg, host, -1))
             && Free(cfg, list, files, Variant(cfg, host, 0))
    requires !(Variant(cfg, host, -1).correct && Variant(cfg, host, -1).human == host)
    ensures NameFor(cfg, host, None, list, files) == Variant(cfg, host, 0) && Namable(cfg, host, list, files)
  {
    hide Variant, Free, WellFormed;
    var own, n := Variant(cfg, host, -1), Variant(cfg, host, 0);
    assert Settled(cfg, host, list, files, own, 0) == Settled(cfg, host, list, files, n, 1) == n;
  }

  function TwoFiles(host: Name, s: Stat, t: Stat): seq<HostEntry> {
    [HostEntry(FIRST, Some(s)), HostEntry(host, Some(t))]
  }

  lemma {:induction false} NothingHidden(listing: seq<HostEntry>)
    requires forall e :: e in listing ==> !Special(e.name)
    ensures Visible(listing, true) == listing
  {
    if listing != [] {
      assert listing[|listing| - 1] in listing;
      NothingHidden(listing[..|listing| - 1]);
    }
  }

  /** A node for a file under a name. */
  function NodeOf(n: Named, e: HostEntry, at: nat): (x: Node)
    requires n.ext <= |n.human| && e.stat.Some?
    ensures x.f.host == e.name && x.f.human == n.human && x.f.ext == n.ext && x.at == at
  {
    Node(at, Filename(e.name, n.human, n.ext, Packed(n, e.stat.value)))
  }

  lemma TwoAreReal(a: HostEntry, b: HostEntry)
    requires a.stat.Some? && b.stat.Some?
    ensures Real([a, b]) == {a.name, b.name}
  {
    assert a in [a, b] && b in [a, b];
  }

  lemma ReadTwo(cfg: Config, files: set<Name>, r: Reading, a: HostEntry, b: HostEntry)
    requires WellFormed(a.name) && WellFormed(b.name)
    ensures ReadAll(cfg, files, r, [a, b]) == ReadEntry(cfg, files, ReadEntry(cfg, files, r, a), b)
  {
    hide ReadEntry, WellFormed;
    assert [a, b][..1] == [a] && [a][..0] == [];
    assert ReadAll(cfg, files, r, [a]) == ReadEntry(cfg, files, r, a);
  }

  /** A root directory with two files is read entry by entry. */
  lemma RereadTwo(cfg: Config, a: HostEntry, b: HostEntry, names: seq<Node>, next: nat)
    requires WellFormed(a.name) && WellFormed(b.name) && a.stat.Some? && b.stat.Some? && |names| != 1
    requires !Special(a.name) && !Special(b.name)
    ensures ListingOk([a, b])
    ensures Reread(cfg, names, next, [a, b], true).list
            == ReadEntry(cfg, {a.name, b.name}, ReadEntry(cfg, {a.name, b.name}, Reading([], names, next, false), a),
                b).list
  {
    hide WellFormed, ReadEntry, ReadAll, Real, Visible, Special;
    NothingHidden([a, b]);
    TwoAreReal(a, b);
    ReadTwo(cfg, {a.name, b.name}, Reading([], names, next, false), a, b);
  }

  /** Two files that are read for the first time. */
  lemma TwoNew(cfg: Config, a: HostEntry, b: HostEntry, n: Named, m: Named)
    requires WellFormed(a.name) && WellFormed(b.name) && a.stat.Some? && b.stat.Some?
    requires !Special(a.name) && !Special(b.name) && n.ext <= |n.human| && m.ext <= |m.human|
    requires n == NameFor(cfg, a.name, None, [], {a.name, b.name})
    requires m == NameFor(cfg, b.name, None, [NodeOf(n, a, 0)], {a.name, b.name})
    ensures ListingOk([a, b]) && Reread(cfg, [], 0, [a, b], true).list == [NodeOf(n, a, 0), NodeOf(m, b, 1)]
  {
    hide WellFormed, Special, Reread, NameFor, ReadEntry, Packed;
    RereadTwo(cfg, a, b, [], 0);
    var x := ReadNew(cfg, {a.name, b.name}, a, [], 0, false);
    assert [] + [x] == [x];
    var y := ReadNew(cfg, {a.name, b.name}, b, [x], 1, true);
    assert [x] + [y] == [x, y];
  }

  /** Two files that are read again, when only the first name splits again. */
  lemma TwoAgain(cfg: Config, a: HostEntry, b: HostEntry, n: Named, m: Named, next: nat)
    requires WellFormed(a.name) && WellFormed(b.name) && a.stat.Some? && b.stat.Some?
    requires !Special(a.name) && !Special(b.name) && n.ext <= |n.human| && m.ext <= |m.human|
    requires n == NameFor(cfg, a.name, None, [], {a.name, b.name})
    requires m == NameFor(cfg, b.name, None, [NodeOf(n, a, 0)], {a.name, b.name})
    requires SplitsAgain(n.human, n.ext) && !SplitsAgain(m.human, m.ext)
    requires Namable(cfg, b.name, [NodeOf(n, a, 0)], {a.name, b.name})
    ensures var x, y, z := NodeOf(n, a, 0), NodeOf(m, b, 1), NodeOf(Copied(m.human), b, next);
            && ListingOk([a, b]) && Reread(cfg, [x, y], next, [a, b], true).list == [x, z]
            && z.f.dirent != y.f.dirent
  {
    hide WellFormed, Special, Reread, NameFor, ReadEntry, Packed, SplitsAgain, Namable, SeparateExt;
    var x, y := NodeOf(n, a, 0), NodeOf(m, b, 1);
    RereadTwo(cfg, a, b, [x, y], next);
    FoundAgain(cfg, {a.name, b.name}, Reading([], [x, y], next, false), a);
    assert [] + [x] == [x] && [x, y][1..] == [y];
    ReplacedUnlessSplitAgain(cfg, {a.name, b.name}, Reading([x], [y], next, false), b);
  }

  /** The two files as they are listed at first. */
  function FirstNode(s: Stat): Node {
    NodeOf(Named(FIRST, 4, true), HostEntry(FIRST, Some(s)), 0)
  }

  function SecondNode(host: Name, t: Stat): Node
    requires SecondFile(host)
  {
    NodeOf(Named(SecondHuman(host), 4, true), HostEntry(host, Some(t)), 1)
  }

  /** The second file as it is listed after a refresh. */
  function CopiedNode(host: Name, t: Stat, next: nat): Node
    requires SecondFile(host)
  {
    NodeOf(Named(SecondHuman(host), 7, true), HostEntry(host, Some(t)), next)
  }

  lemma ListedAtFirst(host: Name, s: Stat, t: Stat)
    requires SecondFile(host)
    ensures ListingOk(TwoFiles(host, s, t))
    ensures Reread(CFG, [], 0, TwoFiles(host, s, t), true).list == [FirstNode(s), SecondNode(host, t)]
  {
    hide Reread, NameFor, WellFormed, SecondHuman, SecondFile, SeparateExt, NodeOf, Special, Namable;
    FirstName([], {FIRST, host});
    SecondName(host, FirstNode(s));
    TwoNew(CFG, HostEntry(FIRST, Some(s)), HostEntry(host, Some(t)), Named(FIRST, 4, true),
        Named(SecondHuman(host), 4, true));
  }

  lemma ListedAgain(host: Name, s: Stat, t: Stat, next: nat)
    requires SecondFile(host)
    ensures ListingOk(TwoFiles(host, s, t))
    ensures Reread(CFG, [FirstNode(s), SecondNode(host, t)], next, TwoFiles(host, s, t), true).list
            == [FirstNode(s), CopiedNode(host, t, next)]
    ensures CopiedNode(host, t, next).f.dirent != SecondNode(host, t).f.dirent
  {
    hide Reread, NameFor, WellFormed, SecondHuman, SecondFile, SeparateExt, NodeOf, Special, Namable;
    FirstName([], {FIRST, host});
    SecondName(host, FirstNode(s));
    SecondVariant(host);
    TwoAgain(CFG, HostEntry(FIRST, Some(s)), HostEntry(host, Some(t)),
             Named(FIRST, 4, true), Named(SecondHuman(host), 4, true), next);
  }

  lemma {:induction false} AgreeingMatches(alphabet: bool, pattern: Name, name: Name)
    requires |pattern| == |name| && Printable(pattern) && Printable(name)
    requires forall i :: 0 <= i < |pattern| ==> pattern[i] == name[i] || pattern[i] == QUESTION
    ensures Matches(alphabet, pattern, name, false, false)
  {
    if pattern != [] {
      assert Agree(alphabet, pattern[0], name[0], false, false);
      AgreeingMatches(alphabet, pattern[1..], name[1..]);
    }
  }

  /** A name that differs from the pattern only where that has question marks. */
  predicate AgreesWithPattern(human: Name) {
    && |human| == 7 && Printable(human)
    && human[0] == PATTERN[0] && human[2] == PATTERN[2] && human[3] == PATTERN[3] && human[4] == PATTERN[4]
    && human[5] == PATTERN[5]
  }

  lemma AgreeingParts(human: Name)
    requires AgreesWithPattern(human)
    ensures Matches(false, PATTERN[..4], human[..4], false, false)
            && Matches(false, PATTERN[4..], human[4..], false, false)
    ensures !Matches(false, PATTERN[..4], human[..7], false, false)
  {
    hide Matches;
    var p, h := PATTERN, human;
    assert forall i :: 0 <= i < 7 ==> p[i] == h[i] || p[i] == QUESTION;
    assert forall i :: 0 <= i < 4 ==> p[..4][i] == p[i] && h[..4][i] == h[i];
    assert forall i :: 0 <= i < 3 ==> p[4..][i] == p[i + 4] && h[4..][i] == h[i + 4];
    AgreeingMatches(false, p[..4], h[..4]);
    AgreeingMatches(false, p[4..], h[4..]);
    LongerNameDiffers(false, p[..4], h[..7], false, false);
  }

  lemma NodeFits(f: Filename, n: Named, s: Stat)
    requires n.ext in {4, 7} && f.human == n.human && f.ext == n.ext && AgreesWithPattern(n.human)
             && f.dirent == Packed(n, s)
    ensures Fits(CFG, PATTERN, ANY, f) <==> n.ext == 4
  {
    hide Packed, SeparateExt, Matches, Printable;
    EndsInExt(PATTERN, 4);
    AttributesShow(s);
    PackedAttributes(n, Named([], 0, true), s);
    AgreeingParts(n.human);
  }

  lemma TwoFit(names: seq<Node>)
    requires |names| == 2 && Sound(names) && Fits(CFG, PATTERN, ANY, names[0].f)
    ensures var rest := if Fits(CFG, PATTERN, ANY, names[1].f) then [names[1].f] else [];
            AllFits(CFG, PATTERN, ANY, names, 0) == [names[0].f] + rest && AllFits(CFG, PATTERN, ANY, names, 1) == rest
  {
    hide Fits;
    assert AllFits(CFG, PATTERN, ANY, names, 2) == [];
  }

  lemma FirstLooksDifferent(host: Name, s: Stat, t: Stat)
    requires SecondFile(host)
    ensures FirstNode(s).f.dirent != SecondNode(host, t).f.dirent
  {
    hide Packed;
    var n, m := Named(FIRST, 4, true), Named(SecondHuman(host), 4, true);
    assert n.human[6] != m.human[6];
    if Packed(n, s) == Packed(m, t) {
      PackedTellsApart(n, m, s, t);
    }
  }

  /** Without any option, the search for `a?@0.x?` finds both files, if nothing else goes on. If the directory is read
      again after the first file, no entry looks like the next one any more, the search goes on by counting, and the
      second file, which is split differently now, does not fit. */
  lemma SearchLosesFile(host: Name, s: Stat, t: Stat, next: nat)
    requires SecondFile(host) && next > 1
    ensures ListingOk(TwoFiles(host, s, t))
    ensures var names := Reread(CFG, [], 0, TwoFiles(host, s, t), true).list;
            var again := Reread(CFG, names, next, TwoFiles(host, s, t), true).list;
            && |names| == |again| == 2 && Sound(names) && Sound(again) && names[0] == again[0]
            && AllFits(CFG, PATTERN, ANY, names, 0) == [names[0].f, names[1].f]
            && IndexOfEntry(again, names[1].f.dirent) == 2 && AllFits(CFG, PATTERN, ANY, again, 1) == []
  {
    hide Reread, Packed, WellFormed, SeparateExt, Fits, AllFits;
    ListedAtFirst(host, s, t);
    ListedAgain(host, s, t, next);
    var x, y, z := FirstNode(s), SecondNode(host, t), CopiedNode(host, t, next);
    NodeFits(x.f, Named(FIRST, 4, true), s);
    NodeFits(y.f, Named(SecondHuman(host), 4, true), t);
    NodeFits(z.f, Named(SecondHuman(host), 7, true), t);
    TwoFit([x, y]);
    TwoFit([x, z]);
    FirstLooksDifferent(host, s, t);
    NotAmongTwo(x, z, y.f.dirent);
  }

  /** A text that the lemmas above are about: `ab.defghijklmnopq .x.`. */
  const EXAMPLE: Name := [0x61, 0x62, 0x2E, 0x64, 0x65, 0x66, 0x67, 0x68, 0x69, 0x6A, 0x6B, 0x6C, 0x6D, 0x6E,
                          0x6F, 0x70, 0x71,
                          0x20, 0x2E, 0x78, 0x2E]

  lemma ExampleFits()
    ensures SecondFile(EXAMPLE)
  {
  }

  // ---------- a path that is found although it leads nowhere ----------

  /** A name of more than 18 small letters. */
  predicate LongName(host: Name) {
    18 < |host| < 250 && forall i :: 0 <= i < |host| ==> 0x61 <= host[i] <= 0x7A
  }

  lemma LongExample()
    ensures LongName(seq(19, _ => 0x61))
  {
  }

  lemma LongNameAsItIs(host: Name)
    requires LongName(host)
    ensures WellFormed(host) && Prepared(PLAIN, host) == Full(host, |host|)
    ensures FirstPeriod(host, 1) == |host|
    ensures forall room :: 2 <= room <= 18 ==> Second(Full(host, |host|), room) == |host|
  {
    PrintableIsWellFormed(host);
    assert PERIOD !in host && host[..|host|] == host;
    assert SeparateExt(host) == |host|;
    hide SeparateExt;
    PreparedAsItIs(PLAIN, host);
  }

  lemma LongNameVariants(host: Name)
    requires LongName(host)
    ensures WellFormed(host)
    ensures Variant(CFG, host, -1) == Named(host[..18], 18, true)
    ensures Variant(CFG, host, 0) == Named(host[..16] + [MARK, 0x30], 18, true)
  {
    LongNameAsItIs(host);
    RoomOf(PLAIN, -1);
    RoomOf(PLAIN, 0);
    NumberOf(PLAIN, 0);
    assert Number(PLAIN, -1) == [];
    hide WellFormed, Second, FirstPeriod, Number, Room, Prepared, Shortened, Human, HumanExt, Correct, Usable;
    var f := Full(host, |host|);
    PrintablePieces(PLAIN, host, -1, f, |host|, |host|, 18);
    PrintablePieces(PLAIN, host, 0, f, |host|, |host|, 16);
    var p, q := Pieces(host[..18], [], [], []), Pieces(host[..16], [MARK, 0x30], [], []);
    FromPieces(PLAIN, host, -1, p);
    FromPieces(PLAIN, host, 0, q);
    LettersAreUsable(host);
    NumberedIsUsable(q, 0);
  }

  lemma LettersAreUsable(host: Name)
    requires LongName(host)
    ensures Usable(Pieces(host[..18], [], [], [])) && Pieces(host[..18], [], [], []).Whole() == host[..18]
  {
    assert Pieces(host[..18], [], [], []).Base() == host[..18];
  }

  function NewName(host: Name): Name
    requires LongName(host)
  {
    host[..16] + [MARK, 0x30]
  }

  lemma NewNameIsFree(host: Name, x: Node)
    requires LongName(host) && x.f.human == host[..18] && x.f.dirent.attr * ANY != {}
    ensures Free(CFG, [x], {host}, Named(NewName(host), 18, true)) && !Same(CFG, NewName(host), x.f.human)
    ensures !Free(CFG, [x], {host}, Named(host[..18], 18, true)) && Free(CFG, [], {host}, Named(host[..18], 18, true))
  {
    var name := NewName(host);
    assert name[16] == MARK && x.f.human[16] == host[16] && |name| == 18;
    if Matches(false, name, x.f.human, false, false) {
      MatchesAt(false, name, x.f.human, false, false, 16);
      assert false;
    }
    hide Matches, LongName, NewName;
    TakenByOne(CFG, x, name);
    TakesItsName(CFG, x);
  }

  lemma LongNameTwice(host: Name, x: Node)
    requires LongName(host) && x.f.human == host[..18] && x.f.dirent.attr * ANY != {}
    ensures WellFormed(host) && !Special(host)
    ensures NameFor(CFG, host, None, [], {host}) == Named(host[..18], 18, true)
    ensures NameFor(CFG, host, None, [x], {host}) == Named(NewName(host), 18, true)
  {
    LongNameVariants(host);
    NewNameIsFree(host, x);
    hide WellFormed, Free, Variant, Namable;
    FirstVariant(CFG, host, [x], {host});
    assert Settled(CFG, host, [], {host}, Variant(CFG, host, -1), 0) == Variant(CFG, host, -1);
  }

  /** The root directory has a single directory with a long name. */
  function OneLong(host: Name, s: Stat): seq<HostEntry> {
    [HostEntry(host, Some(s))]
  }

  function LongNode(host: Name, s: Stat): Node
    requires LongName(host)
  {
    NodeOf(Named(host[..18], 18, true), HostEntry(host, Some(s)), 0)
  }

  function NewNode(host: Name, s: Stat, next: nat): Node
    requires LongName(host)
  {
    NodeOf(Named(NewName(host), 18, true), HostEntry(host, Some(s)), next)
  }

  lemma SingleVisible(e: HostEntry)
    requires !Special(e.name)
    ensures Visible([e], true) == [e]
  {
    hide Special;
    assert [e][..0] == [];
  }

  lemma SingleReal(e: HostEntry)
    requires e.stat.Some?
    ensures Real([e]) == {e.name}
  {
    assert e in [e];
  }

  /** The only entry of a root directory is read beside what is listed of it. */
  lemma ReadSingle(cfg: Config, e: HostEntry, names: seq<Node>, next: nat) returns (x: Node)
    requires WellFormed(e.name) && e.stat.Some? && !Special(e.name) && |names| <= 1
    ensures ListingOk([e]) && Reread(cfg, names, next, [e], true).list == names + [x]
    ensures var n := NameFor(cfg, e.name, None, names, {e.name}); n.ext <= |n.human| && x == NodeOf(n, e, next)
  {
    hide ReadEntry, WellFormed, Special, NameFor, Packed, Visible, Real;
    SingleVisible(e);
    SingleReal(e);
    var r := Reading(names, [], next, false);
    assert SetAside(names, next) == r;
    assert [e][..0] == [] && ReadAll(cfg, {e.name}, r, [e]) == ReadEntry(cfg, {e.name}, r, e);
    x := ReadNew(cfg, {e.name}, e, names, next, false);
  }

  lemma LongIsListed(host: Name, s: Stat)
    requires LongName(host)
    ensures ListingOk(OneLong(host, s))
    ensures Reread(CFG, [], 0, OneLong(host, s), true).list == [LongNode(host, s)]
  {
    hide Reread, NameFor, WellFormed, LongName, NewName, Packed, Special;
    NodeAttributes(host, s);
    LongNameTwice(host, LongNode(host, s));
    var x := ReadSingle(CFG, HostEntry(host, Some(s)), [], 0);
  }

  lemma LongIsListedAgain(host: Name, s: Stat, next: nat)
    requires LongName(host)
    ensures ListingOk(OneLong(host, s))
    ensures Reread(CFG, [LongNode(host, s)], next, OneLong(host, s), true).list
        == [LongNode(host, s), NewNode(host, s, next)]
  {
    hide Reread, NameFor, WellFormed, LongName, NewName, Packed, Special, LongNode;
    NodeAttributes(host, s);
    LongNameTwice(host, LongNode(host, s));
    var z := ReadSingle(CFG, HostEntry(host, Some(s)), [LongNode(host, s)], next);
    assert [LongNode(host, s)] + [z] == [LongNode(host, s), z];
  }

  lemma NodeAttributes(host: Name, s: Stat)
    requires LongName(host)
    ensures LongNode(host, s).f.human == host[..18] && LongNode(host, s).f.dirent.attr * ANY != {}
    ensures s.directory ==> forall next :: NewNode(host, s, next).f.dirent.attr * {Directory} != {}
  {
    AttributesShow(s);
    assert s.directory ==> Directory in Packed(Named(NewName(host), 18, true), s).attr * {Directory};
  }

  /** The root directory before and after a refresh, looked up under the new name. */
  lemma NewNameIsFound(host: Name, s: Stat, next: nat)
    requires LongName(host) && s.directory
    ensures var name, x := NewName(host), LongNode(host, s);
            && FindIndex(CFG, [x], name, {Directory}) == 1
            && FindIndex(CFG, [x, NewNode(host, s, next)], name, {Directory}) == 1
  {
    hide Packed, Matches, FindIndex;
    NodeAttributes(host, s);
    NewNameIsFree(host, LongNode(host, s));
    EveryNameMatchesItself(false, NewName(host), false);
    LookedUpInTwo(LongNode(host, s), NewNode(host, s, next), NewName(host));
  }

  /** In a root directory with a single directory whose name was generated, no path leads through the next variant of
      that name; but after a refresh one does. */
  lemma GeneratedNameMisleads(host: Name, s: Stat, tree: Tree, next: nat)
    requires LongName(host) && s.directory && TreeOk(tree) && [SLASH] in tree && tree[[SLASH]] == OneLong(host, s)
    ensures var name, rest: Name := NewName(host), [SLASH];
            var first := Listed(CFG, tree, [SLASH], true, 0);
            && Walk(CFG, tree, [SLASH] + name + rest, 0, []) == None
            && Enter(CFG, first, name, rest, 1, [SLASH]) == Stop(None)
            && var again := Reread(CFG, first, next, Listing(tree, [SLASH]), true).list;
               Enter(CFG, again, name, rest, 1, [SLASH]) == Go(rest, 19, [SLASH] + host)
  {
    hide Reread, Packed, Same, Separated, FindIndex, TreeOk;
    var name := NewName(host);
    LongIsListed(host, s);
    LongIsListedAgain(host, s, next);
    NewNameIsFound(host, s, next);
    NewNameIsValid(host);
    NameIsSeparated(name);
    hide LongName, NewName;
    assert [] + [SLASH] == [SLASH];
    assert WalkStep(CFG, tree, [SLASH] + name + [SLASH], 0, []) == Stop(None);
  }

  lemma NewNameIsValid(host: Name)
    requires LongName(host)
    ensures var name := NewName(host); |name| == 18 && forall i :: 0 <= i < |name| ==>
        !Separator(name[i]) && !Lead(name[i])
  {
  }

  lemma LookedUpInTwo(x: Node, z: Node, name: Name)
    requires !Same(CFG, name, x.f.human) && Same(CFG, name, z.f.human) && z.f.dirent.attr * {Directory} != {}
    ensures FindIndex(CFG, [x], name, {Directory}) == 1 && FindIndex(CFG, [x, z], name, {Directory}) == 1
  {
    hide Same;
    assert [x][1..] == [] && [x, z][1..] == [z];
  }

  /** A valid name in front of a slash. */
  lemma {:induction false} NameIsMeasured(name: Name, taken: nat)
    requires taken + |name| <= NAME_MAX && (name == [] ==> taken > 0)
    requires forall i :: 0 <= i < |name| ==> !Separator(name[i]) && !Lead(name[i])
    ensures NameLength(name + [SLASH], taken) == Some(|name|)
    decreases |name|
  {
    if name != [] {
      assert (name + [SLASH])[1..] == name[1..] + [SLASH];
      NameIsMeasured(name[1..], taken + 1);
    }
  }

  lemma NameIsSeparated(name: Name)
    requires 0 < |name| <= NAME_MAX && forall i :: 0 <= i < |name| ==> !Separator(name[i]) && !Lead(name[i])
    ensures var path := [SLASH] + name + [SLASH];
            Separated(path) == Some(|name| + 1) && path[1..|name| + 1] == name && path[|name| + 1..] == [SLASH]
  {
    NameIsMeasured(name, 0);
    assert ([SLASH] + name + [SLASH])[1..] == name + [SLASH];
  }

  // ---------- a path that is taken for another ----------

  predicate Letter(c: byte) {
    0x61 <= c <= 0x7A
  }

  lemma LetterHasNoExt(c: byte)
    requires Letter(c)
    ensures SeparateExt([c]) == 1 && !Special([c])
  {
    assert PERIOD !in [c];
  }

  lemma LetterName(c: byte, list: seq<Node>, files: set<Name>)
    requires Letter(c)
    ensures WellFormed([c]) && !Special([c]) && NameFor(CFG, [c], None, list, files) == Named([c], 1, true)
  {
    hide SeparateExt, WellFormed, Human, HumanExt, Correct;
    LetterHasNoExt(c);
    PrintableIsWellFormed([c]);
    FittingNamesStay(PLAIN, [c]);
  }

  function LetterNode(c: byte, s: Stat, at: nat): Node {
    NodeOf(Named([c], 1, true), HostEntry([c], Some(s)), at)
  }

  lemma LettersListed(c: byte, d: byte, s: Stat, t: Stat)
    requires Letter(c) && Letter(d)
    ensures WellFormed([c]) && WellFormed([d])
    ensures var listing := [HostEntry([c], Some(s)), HostEntry([d], Some(t))];
            && ListingOk(listing)
            && Reread(CFG, [], 0, listing, true).list == [LetterNode(c, s, 0), LetterNode(d, t, 1)]
  {
    hide NameFor, Reread, WellFormed, Special, NodeOf;
    LetterName(c, [], {[c], [d]});
    LetterName(d, [LetterNode(c, s, 0)], {[c], [d]});
    TwoNew(CFG, HostEntry([c], Some(s)), HostEntry([d], Some(t)), Named([c], 1, true), Named([d], 1, true));
  }

  lemma LetterIsFound(c: byte, d: byte, s: Stat, t: Stat)
    requires Letter(c) && Letter(d) && c != d && s.directory && t.directory
    ensures var names := [LetterNode(c, s, 0), LetterNode(d, t, 1)];
            FindIndex(CFG, names, [QUESTION], {Directory}) == 0 && FindIndex(CFG, names, [d], {Directory}) == 1
  {
    var x, y := LetterNode(c, s, 0), LetterNode(d, t, 1);
    assert Directory in x.f.dirent.attr * {Directory} && Directory in y.f.dirent.attr * {Directory};
    hide Packed;
    assert [x, y][1..] == [y];
    AgreeingMatches(false, [QUESTION], [c]);
    AgreeingMatches(false, [d], [d]);
    assert !Matches(false, [d], [c], false, false) by {
      assert !Agree(false, d, c, false, false);
    }
  }

  /** In a root directory with two directories `c` and `d`, the path `/?/` leads to the first one; the cache takes it
      for the path `/d/`, which leads to the second one. */
  lemma QuestionMarkMisleads(c: byte, d: byte, s: Stat, t: Stat, tree: Tree)
    requires Letter(c) && Letter(d) && c != d && s.directory && t.directory && TreeOk(tree)
    requires [SLASH] in tree && tree[[SLASH]] == [HostEntry([c], Some(s)), HostEntry([d], Some(t))]
    ensures Walk(CFG, tree, [SLASH, QUESTION, SLASH], 0, []) == Some([SLASH, c, SLASH])
    ensures Walk(CFG, tree, [SLASH, d, SLASH], 0, []) == Some([SLASH, d, SLASH])
    ensures Same(CFG, [SLASH, QUESTION, SLASH], [SLASH, d, SLASH])
  {
    hide Reread, TreeOk, Matches, FindIndex, NodeOf;
    LettersListed(c, d, s, t);
    LetterIsFound(c, d, s, t);
    AgreeingMatches(false, [SLASH, QUESTION, SLASH], [SLASH, d, SLASH]);
    var x, y := LetterNode(c, s, 0), LetterNode(d, t, 1);
    assert Listed(CFG, tree, [SLASH], true, 0) == [x, y];
    StepsInto(tree, QUESTION, x);
    StepsInto(tree, d, y);
    assert [SLASH] + [c] + [SLASH] == [SLASH, c, SLASH] && [SLASH] + [d] + [SLASH] == [SLASH, d, SLASH];
  }

  lemma StepsInto(tree: Tree, name: byte, x: Node)
    requires TreeOk(tree) && !Separator(name) && !Lead(name)
    requires var names := Listed(CFG, tree, [SLASH], true, 0);
             && FindIndex(CFG, names, [name], {Directory}) < |names|
             && names[FindIndex(CFG, names, [name], {Directory})] == x
    requires |x.f.host| == 1
    ensures Walk(CFG, tree, [SLASH, name, SLASH], 0, []) == Some([SLASH] + x.f.host + [SLASH])
  {
    hide Listed, FindIndex, TreeOk;
    var path := [SLASH, name, SLASH];
    NameIsSeparated([name]);
    assert path == [SLASH] + [name] + [SLASH];
    assert [] + [SLASH] == [SLASH];
    assert WalkStep(CFG, tree, path, 0, []) == Go([SLASH], 2, [SLASH] + x.f.host);
    hide Separated;
    LastStep(tree, 2, [SLASH] + x.f.host);
  }

  lemma LastStep(tree: Tree, depth: nat, host: Name)
    requires TreeOk(tree) && depth < 10 && |host| < 10
    ensures Walk(CFG, tree, [SLASH], depth, host) == Some(host + [SLASH])
  {
    hide Listed, FindIndex, TreeOk;
    var path: Name := [SLASH];
    assert path[1..] == [] && Separated(path) == Some(1) && path[1..1] == [];
  }
}
