/** Where the extension of a Human68k name is: where it was generated, and where a look at the name alone finds it. */
module Splits {
  import opened Bytes
  import opened HumanNames
  import opened NameCompares
  import opened Rings
  import opened Directories

  // ---------- names that are split alike ----------

  lemma {:induction false} LastPeriodAt(s: Name, k: nat)
    requires k < |s| && s[k] == PERIOD && PeriodFree(s, k + 1)
    ensures LastPeriod(s) == k
  {
    if k < |s| - 1 {
      assert s[..|s| - 1][k] == PERIOD;
      LastPeriodAt(s[..|s| - 1], k);
    }
  }

  lemma {:induction false} LastPeriodIsLast(s: Name)
    ensures PeriodFree(s, LastPeriod(s) + 1)
  {
    if PERIOD in s && s[|s| - 1] != PERIOD {
      LastPeriodIsLast(s[..|s| - 1]);
      assert forall i :: 0 <= i < |s| - 1 ==> s[i] == s[..|s| - 1][i];
    }
  }

  /** There is no period from `k` on. */
  predicate PeriodFree(s: Name, k: nat) {
    forall j :: k <= j < |s| ==> s[j] != PERIOD
  }

  /** The last period, if there is one behind the first byte, does not have one to three bytes behind it. */
  predicate NoShortTail(s: Name) {
    var last := LastPeriod(s);
    last == 0 || |s| - last < 2 || |s| - last > 4
  }

  /** A name of 20 to 22 bytes with periods at byte 18 and at its end. */
  predicate EndsTwice(s: Name) {
    20 <= |s| <= 22 && s[18] == PERIOD && s[|s| - 1] == PERIOD
  }

  /** Where the extension starts: at the last period, or at the one at byte 18 of a name that ends twice, if one to
      three bytes are behind it. */
  lemma ExtensionStartsAt(s: Name, k: nat)
    requires 0 < k < |s|
    ensures SeparateExt(s) == k <==>
              s[k] == PERIOD && 2 <= |s| - k <= 4 && if EndsTwice(s) then k == 18 else PeriodFree(s, k + 1)
  {
    LastPeriodIsLast(s);
    if s[k] == PERIOD && PeriodFree(s, k + 1) {
      LastPeriodAt(s, k);
    }
  }

  /** The byte disappears wherever it is. */
  predicate Drops(o: Options, c: byte) {
    (c == SPACE && o.reducedSpace) || (c in {EQUALS, PLUS} && o.reducedBadChar) || (c == HYPHEN && o.reducedHyphens)
  }

  /** The byte stays, also at the end of an extension. */
  predicate Remains(o: Options, c: byte) {
    !Drops(o, c) && (c == SPACE ==> o.convertSpace)
  }

  /** Something of an extension remains, and it does not end in a period; where there is no extension, nothing is
      dropped behind the last period, so that none appears. The mark of duplicates is no period. */
  predicate PlainlySplit(o: Options, host: Name) {
    var ext := SeparateExt(host);
    && o.mark != PERIOD
    && if ext < |host| then host[|host| - 1] != PERIOD && exists i :: ext < i < |host| && Remains(o, host[i])
       else forall i :: LastPeriod(host) < i < |host| ==> !Drops(o, host[i])
  }

  /** The same of a converted name. */
  predicate SplitsPlainly(f: Full) {
    if f.ext < |f.name| then PeriodFree(f.name, f.ext + 1) else NoShortTail(f.name)
  }

  /** A byte that is no period does not become one, and one that remains does not become a space. */
  lemma EmittedBytes(o: Options, c: byte, first: bool, start: bool, ext: bool)
    ensures c != PERIOD ==> PERIOD !in Emitted(o, c, first, start, ext)
    ensures c == PERIOD && !first && !ext && (o.reducedPeriods || o.convertPeriods) ==>
        PERIOD !in Emitted(o, c, first, start, ext)
    ensures !first && Remains(o, c) && c != PERIOD ==>
        |Emitted(o, c, first, start, ext)| == 1 && Emitted(o, c, first, start, ext)[0] != SPACE
    ensures !first && !start && !Drops(o, c) && c != PERIOD ==> |Emitted(o, c, first, start, ext)| == 1
  {
  }

  lemma NoPeriodJoined(a: Name, b: Name, k: nat)
    requires PeriodFree(a, k) && PERIOD !in b
    ensures PeriodFree(a + b, k)
  {
  }

  /** Behind the period of an extension no period comes up. */
  lemma {:induction false} ConvertedTail(o: Options, host: Name, ext: nat, k: nat)
    requires ext < k <= |host| && host[ext] == PERIOD && PeriodFree(host, ext + 1)
    ensures var at, r := |Converted(o, host, ext, ext)|, Converted(o, host, ext, k);
            at < |r| && r[at] == PERIOD && PeriodFree(r, at + 1)
  {
    var before := Converted(o, host, ext, k - 1);
    if k > ext + 1 {
      ConvertedTail(o, host, ext, k - 1);
      EmittedBytes(o, host[k - 1], k == 1, before == [], false);
      NoPeriodJoined(before, Emitted(o, host[k - 1], k == 1, before == [], false), |Converted(o, host, ext, ext)| + 1);
      hide Emitted, PeriodFree;
    }
  }

  lemma ConvertedStep(o: Options, host: Name, ext: nat, k: nat)
    requires k < |host|
    ensures var before := Converted(o, host, ext, k);
            Converted(o, host, ext, k + 1) == before + Emitted(o, host[k], k == 0, before == [], k == ext)
  {
    hide Emitted;
  }

  /** What remains of an extension stays behind its period. */
  lemma ConvertedRemains(o: Options, host: Name, ext: nat, i: nat)
    requires ext < i < |host| && host[ext] == PERIOD && host[i] != PERIOD && Remains(o, host[i])
    ensures var at, r := |Converted(o, host, ext, ext)|, Converted(o, host, ext, |host|);
            exists j :: at < j < |r| && r[j] != SPACE
  {
    hide Emitted, Converted, Remains;
    var before, r := Converted(o, host, ext, i), Converted(o, host, ext, |host|);
    EmittedBytes(o, host[i], false, before == [], false);
    EmittedShape(o, PERIOD, ext == 0, Converted(o, host, ext, ext) == [], true);
    ConvertedStep(o, host, ext, ext);
    ConvertedStep(o, host, ext, i);
    ConvertedGrows(o, host, ext, ext + 1, i);
    ConvertedGrows(o, host, ext, i + 1, |host|);
    assert r[|before|] == Converted(o, host, ext, i + 1)[|before|];
  }

  lemma {:induction false} TrimmedKeeps(s: Name, ext: nat, j: nat)
    requires ext < j < |s| && s[j] != SPACE
    ensures j < |Trimmed(s, ext)|
  {
    if s[|s| - 1] == SPACE {
      TrimmedKeeps(s[..|s| - 1], ext, j);
    }
  }

  /** Behind the last period of a name without extension, as many bytes come out as go in, if nothing is dropped. */
  lemma {:induction false} ConvertedBehind(o: Options, host: Name, last: nat, k: nat)
    requires last < k <= |host| && host[last] == PERIOD && Emitted(o, PERIOD, last == 0, false, false) == [PERIOD]
    requires PeriodFree(host, last + 1) && forall i :: last < i < |host| ==> !Drops(o, host[i])
    ensures var at, r := |Converted(o, host, |host|, last)|, Converted(o, host, |host|, k);
            |r| == at + (k - last) && r[at] == PERIOD && PeriodFree(r, at + 1)
  {
    if k > last + 1 {
      ConvertedBehind(o, host, last, k - 1);
      var before := Converted(o, host, |host|, k - 1);
      EmittedBytes(o, host[k - 1], false, false, false);
      hide Emitted;
      NoPeriodJoined(before, Emitted(o, host[k - 1], false, before == [], false),
          |Converted(o, host, |host|, last)| + 1);
    }
  }

  /** No period comes out behind the first byte, if none goes in or none is kept. */
  lemma {:induction false} NoPeriodBehind(o: Options, host: Name, k: nat)
    requires k <= |host|
    requires o.reducedPeriods || o.convertPeriods || PeriodFree(host, 1)
    ensures PeriodFree(Converted(o, host, |host|, k), 1)
  {
    if k > 0 {
      var before := Converted(o, host, |host|, k - 1);
      NoPeriodBehind(o, host, k - 1);
      EmittedBytes(o, host[k - 1], k == 1, before == [], false);
      if k > 1 {
        hide Emitted;
        NoPeriodJoined(before, Emitted(o, host[k - 1], false, before == [], false), 1);
      }
    }
  }

  lemma FewPeriods(s: Name)
    requires PeriodFree(s, 1)
    ensures NoShortTail(s)
  {
    if PERIOD in s {
      LastPeriodAt(s, 0);
    }
  }

  lemma PlainWithoutExt(o: Options, host: Name)
    requires PlainlySplit(o, host) && SeparateExt(host) == |host|
    ensures NoShortTail(Converted(o, host, |host|, |host|))
  {
    LastPeriodIsLast(host);
    var last := LastPeriod(host);
    assert NoShortTail(host);
    hide LastPeriod;
    if last == 0 || last == |host| || o.reducedPeriods || o.convertPeriods {
      assert last == 0 || last == |host| ==> PeriodFree(host, 1) by {
        if last == |host| {
          NoPeriodAtAll(host);
        }
      }
      NoPeriodBehind(o, host, |host|);
      FewPeriods(Converted(o, host, |host|, |host|));
    } else {
      ConvertedBehind(o, host, last, |host|);
      LastPeriodAt(Converted(o, host, |host|, |host|), |Converted(o, host, |host|, last)|);
    }
  }

  lemma NoPeriodAtAll(s: Name)
    requires LastPeriod(s) == |s|
    ensures PeriodFree(s, 0)
  {
  }

  lemma PlainWithExt(o: Options, host: Name)
    requires PlainlySplit(o, host) && SeparateExt(host) < |host|
    ensures var f := Prepared(o, host); f.ext < |f.name| && PeriodFree(f.name, f.ext + 1)
  {
    hide Emitted, Remains;
    var ext := SeparateExt(host);
    LastPeriodIsLast(host);
    assert ext == LastPeriod(host);
    hide SeparateExt, LastPeriod;
    ConvertedTail(o, host, ext, |host|);
    var i :| ext < i < |host| && Remains(o, host[i]);
    ConvertedRemains(o, host, ext, i);
    var all, at := Converted(o, host, ext, |host|), |Converted(o, host, ext, ext)|;
    hide Converted;
    var j :| at < j < |all| && all[j] != SPACE;
    TrimmedKeeps(all, at, j);
  }

  /** A name that is split plainly is split plainly when it is converted. */
  lemma PreparedSplits(o: Options, host: Name)
    requires PlainlySplit(o, host)
    ensures SplitsPlainly(Prepared(o, host))
  {
    if SeparateExt(host) < |host| {
      PlainWithExt(o, host);
    } else {
      PlainWithoutExt(o, host);
    }
  }

  // ---------- generated names ----------

  lemma {:induction false} DigitsArePeriodFree(count: nat, most: nat)
    ensures PERIOD !in Digits(count, most)
    decreases most
  {
    if most > 0 {
      DigitsStep(count, most);
      if count / 36 != 0 {
        DigitsArePeriodFree(count / 36, most - 1);
      }
    }
  }

  lemma NumberIsPeriodFree(o: Options, count: int)
    requires o.mark != PERIOD
    ensures PERIOD !in Number(o, count)
  {
    if count >= 0 {
      DigitsArePeriodFree(count, 5);
    }
  }

  /** The start of a shortened base name ends at its first period. */
  lemma StartIsPeriodFree(o: Options, host: Name, count: int)
    requires WellFormed(host)
    ensures PeriodFree(Shortened(o, host, count).start, 1)
    ensures var end := Shortened(o, host, count).end; end != [] ==> end[0] == PERIOD
  {
    PreparedShape(o, host);
    var f, room := Prepared(o, host), Room(o, count);
    PiecesAreApart(f, room);
    FirstCharacterEnds(f);
    EndLeavesRoom(f, room);
    hide Prepared, Number, Second, WellFormed, Boundary;
  }

  lemma TailKeepsDistance(a: Name, b: Name, end: Name)
    requires NoShortTail(a + end) && end != [] && end[0] == PERIOD && a != []
    ensures NoShortTail(b + end)
  {
    LastPeriodIsLast(a + end);
    var k := LastPeriod(end);
    LastPeriodIsLast(end);
    assert end[0] in end;
    hide LastPeriod;
    LastPeriodAt(a + end, |a| + k);
    LastPeriodAt(b + end, |b| + k);
  }

  lemma PiecesSplit(p: Pieces)
    requires 0 < |p.Base()| <= 18 && |p.ext| <= 4
    requires if p.ext == [] then NoShortTail(p.Base()) else |p.ext| >= 2 && p.ext[0] == PERIOD && PeriodFree(p.ext, 1)
    ensures SeparateExt(p.Whole()) == |p.Base()|
  {
    var base, whole := p.Base(), p.Whole();
    assert whole == base + p.ext;
    if p.ext == [] {
      assert whole == base;
    } else {
      LastPeriodAt(whole, |base|);
      hide LastPeriod;
      assert whole[|whole| - 1] == p.ext[|p.ext| - 1];
    }
  }

  /** A plainly split name is split plainly under each of its Human68k names. */
  lemma VariantSplits(o: Options, host: Name, count: int)
    requires WellFormed(host) && PlainlySplit(o, host) && Correct(o, host, count)
    ensures SeparateExt(Human(o, host, count)) == HumanExt(o, host, count)
  {
    if Special(host) {
      SpecialIsWhole(host);
      return;
    }
    PreparedSplits(o, host);
    StartIsPeriodFree(o, host, count);
    NumberIsPeriodFree(o, count);
    ShortenedFits(o, host, count);
    PreparedShape(o, host);
    hide PlainlySplit, WellFormed, SeparateExt, Number, Prepared;
    var p, f := Shortened(o, host, count), Prepared(o, host);
    assert p.number == Number(o, count);
    hide Shortened;
    ShortTailOfPieces(p, f);
    PiecesSplit(p);
  }

  lemma SpecialIsWhole(host: Name)
    requires Special(host)
    ensures SeparateExt(host) == |host|
  {
    LastPeriodAt(host, |host| - 1);
  }

  lemma ShortTailOfPieces(p: Pieces, f: Full)
    requires SplitsPlainly(f) && f.ext <= |f.name| && PeriodFree(p.start, 1) && PERIOD !in p.number
    requires p.ext == f.name[f.ext..] && (f.ext < |f.name| ==> f.name[f.ext] == PERIOD && 2 <= |f.name| - f.ext)
    requires |p.start| + |p.end| <= f.ext && p.end == f.name[f.ext - |p.end|..f.ext]
    requires (f.ext > 0 ==> p.start != []) && (p.end != [] ==> p.end[0] == PERIOD)
    ensures if p.ext == [] then NoShortTail(p.Base()) else |p.ext| >= 2 && p.ext[0] == PERIOD && PeriodFree(p.ext, 1)
  {
    if p.ext == [] {
      if p.end == [] {
        hide LastPeriod;
        FewPeriods(p.Base());
      } else {
        assert f.name == f.name[..f.ext - |p.end|] + p.end;
        TailKeepsDistance(f.name[..f.ext - |p.end|], p.start + p.number, p.end);
      }
    }
  }

  // ---------- directories ----------

  /** A proper name of a plainly split file is found again with its extension. */
  lemma NameSplits(cfg: Config, host: Name, list: seq<Node>, files: set<Name>)
    requires WellFormed(host) && PlainlySplit(cfg.o, host)
             && Proper(cfg, host, list, files, NameFor(cfg, host, None, list, files))
    ensures var n := NameFor(cfg, host, None, list, files); SeparateExt(n.human) == n.ext
  {
    hide Settled, WellFormed, PlainlySplit, Human, HumanExt, Correct, SeparateExt;
    var c := SettledIsVariant(cfg, host, list, files, -1, 0);
    if Correct(cfg.o, host, -1) {
      VariantSplits(cfg.o, host, -1);
    }
    if Correct(cfg.o, host, c) {
      VariantSplits(cfg.o, host, c);
    }
  }

  predicate AllPlain(o: Options, listing: seq<HostEntry>) {
    forall e :: e in listing && e.stat.Some? ==> PlainlySplit(o, e.name)
  }

  /** In a directory of plainly split files that can all be named, names that are copied are split as they were. */
  lemma {:induction false} PlainListingIsStable(cfg: Config, files: set<Name>, listing: seq<HostEntry>, next: nat)
    requires ListingOk(listing) && AllNamable(cfg, files, listing, next) && AllPlain(cfg.o, listing)
    ensures StableSplit(First(cfg, files, listing, next).list)
  {
    hide NameFor, WellFormed, Packed, Namable, First, Proper, PlainlySplit, SeparateExt;
    if listing == [] {
      NothingRead(cfg, files, next);
    } else {
      var before, e := listing[..|listing| - 1], listing[|listing| - 1];
      assert e in listing;
      PlainListingIsStable(cfg, files, before, next);
      FirstCache(cfg, files, before, next);
      FirstStep(cfg, files, listing, next);
      var r := First(cfg, files, before, next);
      if e.stat.Some? {
        ProperIfNamable(cfg, e.name, r.list, files);
        NameSplits(cfg, e.name, r.list, files);
      }
    }
  }

  /** The directory entries of a name, split as it was generated and as it is copied, are the same exactly if it splits
      again. */
  lemma SameEntryIfSplitAgain(human: Name, ext: nat, s: Stat)
    requires Shaped(human, ext)
    ensures Packed(Named(human, ext, true), s) == Packed(Copied(human), s) <==> SplitsAgain(human, ext)
  {
    var again := SeparateExt(human);
    var b := if again < 18 then again else 18;
    if b != ext {
      BasesDiffer(human, ext, b);
    }
  }

  lemma BasesDiffer(human: Name, ext: nat, b: nat)
    requires Shaped(human, ext) && b <= |human| && b <= 18 && b != ext
    ensures PaddedBase(human[..ext]) != PaddedBase(human[..b])
  {
    PaddedBaseAt(human[..ext]);
    PaddedBaseAt(human[..b]);
    hide PaddedBase;
    assert forall i :: 0 <= i < |human| ==> human[i] in human;
    var i := if ext < b then ext else if ext > 8 && b < 8 then 8 else ext - 1;
    assert PaddedBase(human[..ext])[i] != PaddedBase(human[..b])[i];
  }

  /** A proper name is copied as it is. */
  lemma ProperIsCopied(cfg: Config, host: Name, list: seq<Node>, files: set<Name>)
    requires WellFormed(host) && Proper(cfg, host, list, files, NameFor(cfg, host, None, list, files))
    ensures var human := NameFor(cfg, host, None, list, files).human;
            NameFor(cfg, host, Some(human), list, files) == Copied(human)
  {
    hide WellFormed, SeparateExt, Taken, Variant;
    var n := NameFor(cfg, host, None, list, files);
    assert Free(cfg, list, files, n) ==> Free(cfg, list, files, Copied(n.human));
  }

  /** An entry that is kept splits again. */
  lemma KeptSplitsAgain(cfg: Config, files: set<Name>, r: Reading, e: HostEntry)
    requires WellFormed(e.name) && e.stat.Some? && r.cache != [] && Namable(cfg, e.name, r.list, files)
    requires var n := NameFor(cfg, e.name, None, r.list, files);
             n.ext <= |n.human| && r.cache[0].f == Filename(e.name, n.human, n.ext, Packed(n, e.stat.value))
    requires ReadEntry(cfg, files, r, e).list == r.list + [r.cache[0]]
    ensures SplitsAgain(r.cache[0].f.human, r.cache[0].f.ext)
  {
    hide NameFor, WellFormed, Namable, Proper, SeparateExt, SplitsAgain;
    ProperIfNamable(cfg, e.name, r.list, files);
    ProperIsShaped(cfg, e.name, r.list, files);
    ProperIsCopied(cfg, e.name, r.list, files);
    var n := NameFor(cfg, e.name, None, r.list, files);
    ExtInName(cfg, e.name, Some(n.human), r.list, files);
    var r' := ReadEntry(cfg, files, r, e);
    assert IndexOfHost(r.cache, e.name) == 0;
    assert r'.list[|r.list|] == r.cache[0];
    PackedAgain(n, e.stat.value);
    assert Packed(n, e.stat.value) == Packed(Copied(n.human), e.stat.value);
    SameEntryIfSplitAgain(n.human, n.ext, e.stat.value);
  }

  /** An entry whose name does not split again is replaced by one that is split as a look at the name shows. */
  lemma ReplacedUnlessSplitAgain(cfg: Config, files: set<Name>, r: Reading, e: HostEntry)
    requires WellFormed(e.name) && e.stat.Some? && r.cache != [] && Namable(cfg, e.name, r.list, files)
    requires var n := NameFor(cfg, e.name, None, r.list, files);
             n.ext <= |n.human| && r.cache[0].f == Filename(e.name, n.human, n.ext, Packed(n, e.stat.value))
    requires !SplitsAgain(r.cache[0].f.human, r.cache[0].f.ext)
    ensures var human := r.cache[0].f.human;
            var f := Filename(e.name, human, SeparateExt(human), Packed(Copied(human), e.stat.value));
            && ReadEntry(cfg, files, r, e).list == r.list + [Node(r.next, f)] && f.dirent != r.cache[0].f.dirent
            && ReadEntry(cfg, files, r, e).cache == r.cache[1..]
  {
    hide NameFor, WellFormed, Namable, Proper, SeparateExt, SplitsAgain, Packed;
    ProperIfNamable(cfg, e.name, r.list, files);
    ProperIsShaped(cfg, e.name, r.list, files);
    ProperIsCopied(cfg, e.name, r.list, files);
    var n := NameFor(cfg, e.name, None, r.list, files);
    ExtInName(cfg, e.name, Some(n.human), r.list, files);
    assert IndexOfHost(r.cache, e.name) == 0 && Except(r.cache, 0) == r.cache[1..];
    PackedAgain(n, e.stat.value);
    SameEntryIfSplitAgain(n.human, n.ext, e.stat.value);
  }

  /** If reading an unchanged directory again keeps all its nodes, their names split again. */
  lemma {:induction false} KeptMeansStable(cfg: Config, files: set<Name>, listing: seq<HostEntry>, next0: nat,
      next: nat, names: seq<Node>)
    requires ListingOk(listing) && OwnNames(listing) && AllNamable(cfg, files, listing, next0)
    requires First(cfg, files, listing, next0).list <= names && First(cfg, files, listing, next0).cache == []
    requires forall i, e :: |First(cfg, files, listing, next0).list| <= i < |names| && e in listing ==>
        names[i].f.host != e.name
    requires ReadAll(cfg, files, Reading([], names, next, false), listing).list
        == First(cfg, files, listing, next0).list
    ensures StableSplit(First(cfg, files, listing, next0).list)
  {
    hide NameFor, WellFormed, Packed, First, ReadEntry, Namable, StableSplit;
    if listing == [] {
      NothingRead(cfg, files, next0);
      NothingSplits();
    } else {
      ReadAllStep(cfg, files, Reading([], names, next, false), listing);
      hide ReadAll;
      var before, e := listing[..|listing| - 1], listing[|listing| - 1];
      FirstCache(cfg, files, before, next0);
      FirstStep(cfg, files, listing, next0);
      var list, later := First(cfg, files, before, next0).list, First(cfg, files, listing, next0).list;
      hide OwnNames;
      StillToCome(cfg, files, listing, next0, names);
      var r := ReadAll(cfg, files, Reading([], names, next, false), before);
      ReadEntryAdds(cfg, files, r, e);
      HostsLength(r.list, ReadEntry(cfg, files, r, e).list, e);
      assert r.list == list;
      KeptMeansStable(cfg, files, before, next0, next, names);
      if e.stat.Some? {
        RereadingKeeps(cfg, files, before, next0, next, names);
        assert later == list + [later[|list|]] && names[|list|..][0] == later[|list|];
        KeptSplitsAgain(cfg, files, r, e);
        OneMoreSplits(list, later[|list|]);
      }
    }
  }

  lemma NothingSplits()
    ensures StableSplit([])
  {
  }

  lemma OneMoreSplits(list: seq<Node>, x: Node)
    requires StableSplit(list) && SplitsAgain(x.f.human, x.f.ext)
    ensures StableSplit(list + [x])
  {
  }

  lemma HostsLength(a: seq<Node>, b: seq<Node>, e: HostEntry)
    requires Hosts(b) == Hosts(a) + if e.stat.Some? then [e.name] else []
    ensures |b| == |a| + if e.stat.Some? then 1 else 0
  {
    assert |Hosts(b)| == |b| && |Hosts(a)| == |a|;
  }

  /** A directory whose files all have names of their own and can all be named. */
  predicate CanBeNamed(cfg: Config, listing: seq<HostEntry>, root: bool, next: nat)
    requires ListingOk(listing)
  {
    VisibleIsListed(listing, root);
    OwnNames(Visible(listing, root)) && AllNamable(cfg, Real(listing), Visible(listing, root), next)
  }

  /** A refresh of an unchanged directory in which every file can be named keeps its nodes if and only if there is not
      just one of them and all names split again. */
  lemma RefreshKeepsExactly(cfg: Config, listing: seq<HostEntry>, root: bool, next0: nat, next: nat)
    requires ListingOk(listing) && CanBeNamed(cfg, listing, root, next0)
    ensures var first := Reread(cfg, [], next0, listing, root).list;
            var again := Reread(cfg, first, next, listing, root);
            again.list == first <==> |first| != 1 && StableSplit(first)
  {
    hide ReadAll, Visible, Real, WellFormed, OwnNames, StableSplit, AllNamable;
    VisibleIsListed(listing, root);
    var files, visible := Real(listing), Visible(listing, root);
    var r := First(cfg, files, visible, next0);
    assert Reread(cfg, [], next0, listing, root).list == r.list;
    if |r.list| == 1 {
      SingleIsListedTwice(cfg, listing, root, next0, next);
    } else if StableSplit(r.list) {
      RefreshKeeps(cfg, listing, root, next0, next);
    } else {
      FirstCache(cfg, files, visible, next0);
      if Reread(cfg, r.list, next, listing, root).list == r.list {
        KeptMeansStable(cfg, files, visible, next0, next, r.list);
      }
    }
  }
}
