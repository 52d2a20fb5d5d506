/** Shortening of host file names to the 18+3 bytes of Human68k. Names are Shift-JIS: a lead byte makes a two-byte
    character together with the byte that follows it, which is 0x40 or higher. */
module HumanNames {
  import opened Bytes

  type Name = seq<byte>
  type Ascii = b: byte | 0 <= b < 0x80 witness 0

  const SPACE: byte := 0x20
  const PLUS: byte := 0x2B
  const HYPHEN: byte := 0x2D
  const PERIOD: byte := 0x2E
  const EQUALS: byte := 0x3D
  const UNDERSCORE: byte := 0x5F
  const MARK: byte := 0x40

  /** The first byte of a two-byte character. */
  predicate Lead(c: byte) {
    0x80 <= c <= 0x9F || 0xE0 <= c
  }

  /** A sequence of whole characters, without a terminator. */
  predicate WellFormed(s: Name) {
    if s == [] then true
    else if Lead(s[0]) then |s| >= 2 && s[1] >= 0x40 && WellFormed(s[2..])
    else s[0] != 0 && WellFormed(s[1..])
  }

  /** A character of `s` starts, or `s` ends, at `k`. */
  predicate Boundary(s: Name, k: nat) {
    if k == 0 || s == [] then k == 0
    else if Lead(s[0]) then |s| >= 2 && k >= 2 && Boundary(s[2..], k - 2)
    else Boundary(s[1..], k - 1)
  }

  lemma {:induction false} Joined(s: Name, t: Name)
    requires WellFormed(s) && WellFormed(t)
    ensures WellFormed(s + t)
  {
    if s == [] {
      assert s + t == t;
    } else if Lead(s[0]) {
      Joined(s[2..], t);
      assert (s + t)[2..] == s[2..] + t;
    } else {
      Joined(s[1..], t);
      assert (s + t)[1..] == s[1..] + t;
    }
  }

  lemma NothingIsWellFormed()
    ensures WellFormed([])
  {
  }

  /** Cutting at a boundary leaves whole characters on both sides. */
  lemma {:induction false} CutAtBoundary(s: Name, k: nat)
    requires WellFormed(s) && Boundary(s, k)
    ensures k <= |s| && WellFormed(s[..k]) && WellFormed(s[k..])
  {
    if k == 0 {
      assert s[0..] == s;
    } else if Lead(s[0]) {
      CutAtBoundary(s[2..], k - 2);
      assert s[..k][2..] == s[2..][..k - 2] && s[k..] == s[2..][k - 2..];
    } else {
      CutAtBoundary(s[1..], k - 1);
      assert s[..k][1..] == s[1..][..k - 1] && s[k..] == s[1..][k - 1..];
    }
  }

  /** Bytes below 0x40 are characters of their own. */
  lemma {:induction false} SmallBytesAreCharacters(s: Name, k: nat)
    requires WellFormed(s) && k < |s| && s[k] < 0x40
    ensures Boundary(s, k) && Boundary(s, k + 1)
  {
    if k > 0 {
      if Lead(s[0]) {
        SmallBytesAreCharacters(s[2..], k - 2);
      } else {
        SmallBytesAreCharacters(s[1..], k - 1);
      }
    }
  }

  lemma {:induction false} EndIsBoundary(s: Name)
    requires WellFormed(s)
    ensures Boundary(s, |s|)
  {
    if s != [] {
      EndIsBoundary(if Lead(s[0]) then s[2..] else s[1..]);
    }
  }

  /** Of two neighbouring places one is a boundary. */
  lemma {:induction false} BoundaryOrBefore(s: Name, k: nat)
    requires WellFormed(s) && 0 < k <= |s| && !Boundary(s, k)
    ensures Boundary(s, k - 1)
  {
    if Lead(s[0]) {
      if k > 1 {
        BoundaryOrBefore(s[2..], k - 2);
      }
    } else if k > 1 {
      BoundaryOrBefore(s[1..], k - 1);
    }
  }

  lemma {:induction false} BoundariesCompose(s: Name, j: nat, k: nat)
    requires Boundary(s, j) && j <= |s| && Boundary(s[j..], k)
    ensures Boundary(s, j + k)
  {
    if j == 0 {
      assert s[0..] == s;
    } else if s != [] {
      var w := if Lead(s[0]) then 2 else 1;
      assert s[j..] == s[w..][j - w..];
      BoundariesCompose(s[w..], j - w, k);
    }
  }

  // ---------- extensions ----------

  /** The last period, or the length if there is none. */
  function LastPeriod(s: Name): (k: nat)
    ensures k <= |s|
    ensures k < |s| ==> s[k] == PERIOD
  {
    if PERIOD !in s then |s|
    else if s[|s| - 1] == PERIOD then |s| - 1
    else LastPeriod(s[..|s| - 1])
  }

  /** The first period from `k` on, or the length if there is none. */
  function FirstPeriod(s: Name, k: nat): (j: nat)
    requires k <= |s|
    ensures k <= j <= |s|
    ensures forall i :: k <= i < j ==> s[i] != PERIOD
    ensures j < |s| ==> s[j] == PERIOD
    decreases |s| - k
  {
    if k == |s| || s[k] == PERIOD then k else FirstPeriod(s, k + 1)
  }

  /** Where the Human68k extension of a name starts, or its length if it has none: at a period that is not its first
      byte and has one to three bytes behind it. */
  function SeparateExt(s: Name): (k: nat)
    ensures k <= |s|
    ensures k < |s| ==> 0 < k && s[k] == PERIOD && 2 <= |s| - k <= 4
  {
    var last := LastPeriod(s);
    var ext := if 20 <= |s| <= 22 && s[18] == PERIOD && s[|s| - 1] == PERIOD then 18 else last;
    if ext == 0 || |s| - ext < 2 || |s| - ext > 4 then |s| else ext
  }

  // ---------- replacing and dropping characters ----------

  /** Bits 7 to 30 of the file system options. */
  datatype Options = Options(
    convertLength: bool, convertSpace: bool, convertBadChar: bool,
    convertHyphens: bool, convertHyphen: bool, convertPeriods: bool, convertPeriod: bool,
    reducedSpace: bool, reducedBadChar: bool,
    reducedHyphens: bool, reducedHyphen: bool, reducedPeriods: bool, reducedPeriod: bool,
    mark: Ascii)

  /** The number of bytes for the base name. */
  function MaxOf(o: Options): nat {
    if o.convertLength then 8 else 18
  }

  /** What becomes of a byte: nothing or one byte. `first`: it is the first of the host name; `start`: nothing has been
      written yet; `ext`: it is the period of the extension. */
  function Emitted(o: Options, c: byte, first: bool, start: bool, ext: bool): Name {
    if c == SPACE then
      if o.reducedSpace then [] else if o.convertSpace then [UNDERSCORE] else if start then [] else [c]
    else if c == EQUALS || c == PLUS then
      if o.reducedBadChar then [] else if o.convertBadChar then [UNDERSCORE] else [c]
    else if c == HYPHEN then
      if first then if o.reducedHyphen then [] else if o.convertHyphen then [UNDERSCORE] else [c]
      else if o.reducedHyphens then [] else if o.convertHyphens then [UNDERSCORE] else [c]
    else if c == PERIOD && !ext then
      if first then if o.reducedPeriod then [] else if o.convertPeriod then [UNDERSCORE] else [c]
      else if o.reducedPeriods then [] else if o.convertPeriods then [UNDERSCORE] else [c]
    else [c]
  }

  /** The first `k` bytes of a host name after conversion; its extension starts at `ext`. */
  function Converted(o: Options, host: Name, ext: nat, k: nat): (r: Name)
    requires k <= |host|
    ensures |r| <= k
    decreases k
  {
    if k == 0 then [] else
      var before := Converted(o, host, ext, k - 1);
      before + Emitted(o, host[k - 1], k == 1, before == [], k - 1 == ext)
  }

  lemma EmittedAtMostOne(o: Options, c: byte, first: bool, start: bool, ext: bool)
    ensures |Emitted(o, c, first, start, ext)| <= 1
  {
  }

  lemma {:induction false} ConvertedGrows(o: Options, host: Name, ext: nat, j: nat, k: nat)
    requires j <= k <= |host|
    ensures Converted(o, host, ext, j) <= Converted(o, host, ext, k)
    ensures |Converted(o, host, ext, k)| <= |Converted(o, host, ext, j)| + (k - j)
    decreases k
  {
    hide Emitted;
    if j < k {
      ConvertedGrows(o, host, ext, j, k - 1);
      EmittedAtMostOne(o, host[k - 1], k == 1, Converted(o, host, ext, k - 1) == [], k - 1 == ext);
    }
  }

  lemma EmittedShape(o: Options, c: byte, first: bool, start: bool, ext: bool)
    ensures c >= 0x40 ==> Emitted(o, c, first, start, ext) == [c]
    ensures c != 0 && !Lead(c) ==> WellFormed(Emitted(o, c, first, start, ext))
    ensures ext && c == PERIOD ==> Emitted(o, c, first, start, ext) == [c]
  {
    var e := Emitted(o, c, first, start, ext);
    if e != [] {
      assert e[1..] == [];
    }
  }

  lemma TwoBytes(s: Name, c: byte, d: byte)
    requires WellFormed(s) && Lead(c) && d >= 0x40
    ensures WellFormed(s + [c] + [d])
  {
    assert [c, d][2..] == [] && s + [c] + [d] == s + [c, d];
    Joined(s, [c, d]);
  }

  lemma FirstCharacter(host: Name, k: nat)
    requires k < |host| && WellFormed(host[k..])
    ensures if Lead(host[k]) then k + 2 <= |host| && host[k + 1] >= 0x40 && WellFormed(host[k + 2..])
            else host[k] != 0 && WellFormed(host[k + 1..])
  {
    var rest := host[k..];
    if Lead(host[k]) {
      assert rest[2..] == host[k + 2..];
    } else {
      assert rest[1..] == host[k + 1..];
    }
  }

  /** Conversion keeps two-byte characters whole. */
  lemma {:induction false} ConvertedIsWellFormed(o: Options, host: Name, ext: nat, k: nat)
    requires k <= |host| && WellFormed(host[k..]) && WellFormed(Converted(o, host, ext, k))
    ensures WellFormed(Converted(o, host, ext, |host|))
    decreases |host| - k
  {
    hide WellFormed, Emitted;
    if k < |host| {
      var before := Converted(o, host, ext, k);
      FirstCharacter(host, k);
      EmittedShape(o, host[k], k == 0, before == [], k == ext);
      if Lead(host[k]) {
        assert Converted(o, host, ext, k + 1) == before + [host[k]];
        EmittedShape(o, host[k + 1], false, false, k + 1 == ext);
        TwoBytes(before, host[k], host[k + 1]);
        ConvertedIsWellFormed(o, host, ext, k + 2);
      } else {
        Joined(before, Emitted(o, host[k], k == 0, before == [], k == ext));
        ConvertedIsWellFormed(o, host, ext, k + 1);
      }
    }
  }

  /** Without options a byte only disappears if it is a leading space. */
  lemma {:induction false} NothingToConvert(o: Options, host: Name, ext: nat, k: nat)
    requires k <= |host| && (host != [] ==> host[0] != SPACE) && NoOption(o)
    ensures Converted(o, host, ext, k) == host[..k]
    decreases k
  {
    if k > 0 {
      NothingToConvert(o, host, ext, k - 1);
      assert host[..k] == host[..k - 1] + [host[k - 1]];
    }
  }

  predicate NoOption(o: Options) {
    && !o.convertSpace && !o.convertBadChar && !o.convertHyphens && !o.convertHyphen
    && !o.convertPeriods && !o.convertPeriod
    && !o.reducedSpace && !o.reducedBadChar && !o.reducedHyphens && !o.reducedHyphen
    && !o.reducedPeriods && !o.reducedPeriod
  }

  /** No option drops anything, and no space stands at the front. */
  predicate NothingDropped(o: Options, host: Name) {
    && !o.reducedSpace && !o.reducedBadChar && !o.reducedHyphens && !o.reducedHyphen
    && !o.reducedPeriods && !o.reducedPeriod && (host != [] && host[0] == SPACE ==> o.convertSpace)
  }

  /** Where an option replaces the byte at `i` of a host name: spaces, equals and plus signs, and hyphens and periods at
      the front and elsewhere each have their option; the period of the extension has none. */
  predicate Replaced(o: Options, host: Name, ext: nat, i: nat)
    requires i < |host|
  {
    || (host[i] == 0x20 && o.convertSpace)
    || (host[i] in {0x3D, 0x2B} && o.convertBadChar)
    || (host[i] == 0x2D && if i == 0 then o.convertHyphen else o.convertHyphens)
    || (host[i] == 0x2E && i != ext && if i == 0 then o.convertPeriod else o.convertPeriods)
  }

  lemma EmittedInPlace(o: Options, host: Name, ext: nat, i: nat, start: bool)
    requires NothingDropped(o, host) && i < |host| && (start ==> i == 0)
    ensures Emitted(o, host[i], i == 0, start, i == ext) == [if Replaced(o, host, ext, i) then UNDERSCORE else host[i]]
  {
  }

  /** If nothing is dropped, underscores take the places of what is replaced. */
  lemma {:induction false} ReplacedInPlace(o: Options, host: Name, ext: nat, k: nat)
    requires NothingDropped(o, host) && k <= |host|
    ensures |Converted(o, host, ext, k)| == k
    ensures forall i :: 0 <= i < k ==>
              Converted(o, host, ext, k)[i] == if Replaced(o, host, ext, i) then UNDERSCORE else host[i]
  {
    hide Emitted, Replaced, NothingDropped;
    if k > 0 {
      ReplacedInPlace(o, host, ext, k - 1);
      EmittedInPlace(o, host, ext, k - 1, Converted(o, host, ext, k - 1) == []);
    }
  }

  /** An option to drop goes before the one to replace, and both leave nothing of their bytes. */
  lemma EmittedLeaves(o: Options, c: byte, first: bool, start: bool, ext: bool)
    ensures var e := Emitted(o, c, first, start, ext);
            && (o.reducedSpace || o.convertSpace ==> SPACE !in e)
            && (o.reducedBadChar || o.convertBadChar ==> EQUALS !in e && PLUS !in e)
            && ((if first then o.reducedHyphen || o.convertHyphen else o.reducedHyphens || o.convertHyphens) ==>
                  HYPHEN !in e)
            && (!ext && (if first then o.reducedPeriod || o.convertPeriod else o.reducedPeriods || o.convertPeriods) ==>
                  PERIOD !in e)
            && (UNDERSCORE in e ==> c == UNDERSCORE || SomeReplaced(o))
  {
  }

  predicate SomeReplaced(o: Options) {
    || (o.convertSpace && !o.reducedSpace) || (o.convertBadChar && !o.reducedBadChar)
    || (o.convertHyphens && !o.reducedHyphens) || (o.convertHyphen && !o.reducedHyphen)
    || (o.convertPeriods && !o.reducedPeriods) || (o.convertPeriod && !o.reducedPeriod)
  }

  /** What is at the front of a converted name comes from the front of the host name, so that the options for the front
      decide there. */
  lemma {:induction false} NothingIsLeft(o: Options, host: Name, ext: nat, k: nat)
    requires k <= |host|
    ensures var r := Converted(o, host, ext, k);
            && (o.reducedSpace || o.convertSpace ==> SPACE !in r)
            && (o.reducedBadChar || o.convertBadChar ==> EQUALS !in r && PLUS !in r)
            && (UNDERSCORE in r ==> UNDERSCORE in host || SomeReplaced(o))
    decreases k
  {
    hide Emitted, SomeReplaced;
    if k > 0 {
      NothingIsLeft(o, host, ext, k - 1);
      EmittedLeaves(o, host[k - 1], k == 1, Converted(o, host, ext, k - 1) == [], k - 1 == ext);
    }
  }

  /** The byte is at most at the front. */
  predicate OnlyInFront(s: Name, c: byte) {
    forall i :: 0 < i < |s| ==> s[i] != c
  }

  lemma StillInFront(s: Name, e: Name, c: byte)
    requires OnlyInFront(s, c) && c !in e
    ensures OnlyInFront(s + e, c)
  {
  }

  lemma {:induction false} HyphensInFront(o: Options, host: Name, ext: nat, k: nat)
    requires k <= |host| && (o.reducedHyphens || o.convertHyphens)
    ensures var r := Converted(o, host, ext, k);
            OnlyInFront(r, HYPHEN) && (o.reducedHyphen || o.convertHyphen ==> HYPHEN !in r)
    decreases k
  {
    hide Emitted, OnlyInFront;
    if k > 1 {
      var before := Converted(o, host, ext, k - 1);
      HyphensInFront(o, host, ext, k - 1);
      EmittedLeaves(o, host[k - 1], false, before == [], k - 1 == ext);
      StillInFront(before, Emitted(o, host[k - 1], false, before == [], k - 1 == ext), HYPHEN);
    } else {
      FirstInFront(o, host, ext, k, HYPHEN);
    }
  }

  lemma {:induction false} PeriodsInFront(o: Options, host: Name, ext: nat, k: nat)
    requires k <= |host| && k <= ext && (o.reducedPeriods || o.convertPeriods)
    ensures var r := Converted(o, host, ext, k);
            OnlyInFront(r, PERIOD) && (o.reducedPeriod || o.convertPeriod ==> PERIOD !in r)
    decreases k
  {
    hide Emitted, OnlyInFront;
    if k > 1 {
      var before := Converted(o, host, ext, k - 1);
      PeriodsInFront(o, host, ext, k - 1);
      EmittedLeaves(o, host[k - 1], false, before == [], k - 1 == ext);
      StillInFront(before, Emitted(o, host[k - 1], false, before == [], k - 1 == ext), PERIOD);
    } else {
      FirstInFront(o, host, ext, k, PERIOD);
    }
  }

  lemma FirstInFront(o: Options, host: Name, ext: nat, k: nat, c: byte)
    requires k <= |host| && k <= 1
    ensures OnlyInFront(Converted(o, host, ext, k), c)
    ensures Converted(o, host, ext, k) == if k == 0 then [] else Emitted(o, host[0], true, true, ext == 0)
    ensures k == 1 ==> (o.reducedHyphen || o.convertHyphen ==> HYPHEN !in Emitted(o, host[0], true, true, ext == 0))
    ensures k == 1 && ext > 0 ==>
              (o.reducedPeriod || o.convertPeriod ==> PERIOD !in Emitted(o, host[0], true, true, ext == 0))
  {
    hide Emitted;
    assert Converted(o, host, ext, 0) == [];
    if k == 1 {
      EmittedLeaves(o, host[0], true, true, ext == 0);
    }
  }

  /** `s` without trailing spaces behind its byte at `ext`. */
  function Trimmed(s: Name, ext: nat): (r: Name)
    requires ext < |s|
    ensures r <= s && ext < |r|
  {
    if |s| - 1 > ext && s[|s| - 1] == SPACE then Trimmed(s[..|s| - 1], ext) else s
  }

  /** A converted name, and where its extension starts. */
  datatype Full = Full(name: Name, ext: nat)

  function Prepared(o: Options, host: Name): (f: Full)
    ensures f.ext <= |f.name|
  {
    var ext := SeparateExt(host);
    var all := Converted(o, host, ext, |host|);
    if ext == |host| then Full(all, |all|)
    else
      var at := |Converted(o, host, ext, ext)|;
      ConvertedExtension(o, host);
      var name := Trimmed(all, at);
      if at + 1 >= |name| then Full(name[..at], at) else Full(name, at)
  }

  lemma {:induction false} TrimmedIsWellFormed(s: Name, ext: nat)
    requires WellFormed(s) && ext < |s| && s[ext] == PERIOD
    ensures WellFormed(Trimmed(s, ext)) && Trimmed(s, ext)[ext] == PERIOD
  {
    if |s| - 1 > ext && s[|s| - 1] == SPACE {
      SmallBytesAreCharacters(s, |s| - 1);
      CutAtBoundary(s, |s| - 1);
      TrimmedIsWellFormed(s[..|s| - 1], ext);
    }
  }

  /** The period of the extension survives conversion, and nothing is added behind it. */
  lemma ConvertedExtension(o: Options, host: Name)
    requires SeparateExt(host) < |host|
    ensures var ext := SeparateExt(host);
            var all, at := Converted(o, host, ext, |host|), |Converted(o, host, ext, ext)|;
            at < |all| && all[at] == PERIOD && |all| - at <= 4
  {
    hide Emitted, SeparateExt, WellFormed;
    var ext := SeparateExt(host);
    EmittedShape(o, PERIOD, ext == 0, Converted(o, host, ext, ext) == [], true);
    assert Converted(o, host, ext, ext + 1) == Converted(o, host, ext, ext) + [PERIOD];
    ConvertedGrows(o, host, ext, ext + 1, |host|);
    var at, all := |Converted(o, host, ext, ext)|, Converted(o, host, ext, |host|);
    hide Converted;
    assert all[at] == all[..at + 1][at];
  }

  lemma ConvertedWhole(o: Options, host: Name, ext: nat)
    requires WellFormed(host)
    ensures WellFormed(Converted(o, host, ext, |host|))
  {
    assert host[0..] == host;
    ConvertedIsWellFormed(o, host, ext, 0);
  }

  /** The prepared name consists of whole characters, and its extension of a period and one to three bytes. */
  lemma PreparedShape(o: Options, host: Name)
    requires WellFormed(host)
    ensures var f := Prepared(o, host);
            && WellFormed(f.name) && (f.ext < |f.name| ==> f.name[f.ext] == PERIOD && 2 <= |f.name| - f.ext <= 4)
  {
    hide WellFormed, Boundary, Trimmed, Converted, SeparateExt;
    var ext := SeparateExt(host);
    var all := Converted(o, host, ext, |host|);
    ConvertedWhole(o, host, ext);
    if ext < |host| {
      ConvertedExtension(o, host);
      var at := |Converted(o, host, ext, ext)|;
      TrimmedIsWellFormed(all, at);
      var name := Trimmed(all, at);
      SmallBytesAreCharacters(name, at);
      CutAtBoundary(name, at);
    }
  }

  // ---------- shortening ----------

  function Digit(n: nat): byte
    requires n < 36
  {
    if n < 10 then 0x30 + n else 0x41 - 10 + n
  }

  /** The last digits of a number to base 36, at most `most`. */
  function Digits(count: nat, most: nat): (d: Name)
    ensures |d| <= most
    ensures WellFormed(d) && (most > 0 ==> d != [])
  {
    if most == 0 then []
    else
      var before := if count / 36 == 0 then [] else Digits(count / 36, most - 1);
      assert WellFormed([Digit(count % 36)]) by {
        assert [Digit(count % 36)][1..] == [];
      }
      Joined(before, [Digit(count % 36)]);
      before + [Digit(count % 36)]
  }

  lemma DigitsStep(count: nat, most: nat)
    requires most > 0
    ensures Digits(count, most) == (if count / 36 == 0 then [] else Digits(count / 36, most - 1)) + [Digit(count % 36)]
    ensures Digits(count, 0) == []
  {
  }

  /** What tells the variants of a name apart; nothing for a negative count. */
  function Number(o: Options, count: int): (d: Name)
    ensures |d| <= 6
  {
    if count < 0 then [] else [if o.mark == 0 then MARK else o.mark] + Digits(count, 5)
  }

  /** The bytes left for the base name beside the number. */
  function Room(o: Options, count: int): (n: nat)
    ensures 2 <= n <= 18
  {
    MaxOf(o) - |Number(o, count)|
  }

  /** The length of the first character of the base name. */
  function FirstWidth(f: Full): nat {
    if f.ext == 0 || f.name == [] then 0 else if Lead(f.name[0]) then 2 else 1
  }

  /** Where the end of a long base name starts: at its first period that leaves room for the first character. */
  function Second(f: Full, room: nat): (k: nat)
    requires f.ext <= |f.name| && 2 <= room
    ensures k <= f.ext
  {
    var stop := if f.ext == 0 then 0 else f.ext - room + FirstWidth(f) - 1;
    var from := if stop < 0 then 1 else stop + 1;
    if from > f.ext then f.ext else FirstPeriod(f.name[..f.ext], from)
  }

  /** How much of the start of the base name fits, in bytes. */
  function Fitting(f: Full, room: nat): nat
    requires f.ext <= |f.name| && 2 <= room && FirstWidth(f) <= |f.name| && f.ext - Second(f, room) <= room
  {
    var period := FirstPeriod(f.name, FirstWidth(f));
    var cut := if period > room then room else period;
    var end := f.ext - Second(f, room);
    if cut + end > room then room - end else cut
  }

  /** The same in whole characters. */
  function Cut(f: Full, room: nat): nat
    requires f.ext <= |f.name| && 2 <= room && FirstWidth(f) <= |f.name| && f.ext - Second(f, room) <= room
  {
    var cut := Fitting(f, room);
    if Boundary(f.name, cut) || cut == 0 then cut else cut - 1
  }

  /** The end of the base name and the number always leave room for the first character. */
  lemma EndLeavesRoom(f: Full, room: nat)
    requires WellFormed(f.name) && f.ext <= |f.name| && 2 <= room
    requires f.ext > 0 && f.ext < |f.name| ==> f.name[f.ext] == PERIOD
    ensures FirstWidth(f) <= |f.name| && FirstWidth(f) <= f.ext
    ensures f.ext - Second(f, room) + FirstWidth(f) <= room
    ensures Second(f, room) < f.ext ==> f.name[Second(f, room)] == PERIOD
  {
    if f.ext > 0 && Lead(f.name[0]) {
      assert f.ext != 1;
    }
  }

  /** The two pieces of the base name do not overlap, and each consists of whole characters. */
  lemma PiecesAreApart(f: Full, room: nat)
    requires WellFormed(f.name) && f.ext <= |f.name| && 2 <= room
    requires f.ext < |f.name| ==> f.name[f.ext] == PERIOD
    ensures FirstWidth(f) <= |f.name| && f.ext - Second(f, room) <= room
    ensures FirstWidth(f) <= Cut(f, room) <= Second(f, room) <= f.ext
    ensures Boundary(f.name, Cut(f, room)) && Boundary(f.name, Second(f, room)) && Boundary(f.name, f.ext)
    ensures Cut(f, room) + (f.ext - Second(f, room)) <= room
  {
    EndLeavesRoom(f, room);
    FirstCharacterEnds(f);
    var second, fitting := Second(f, room), Fitting(f, room);
    PeriodIsBoundary(f.name, second);
    PeriodIsBoundary(f.name, f.ext);
    hide Boundary, WellFormed, Second;
    if fitting > 0 && !Boundary(f.name, fitting) {
      BoundaryOrBefore(f.name, fitting);
    } else if fitting == 0 {
      NothingIsWellFormed();
    }
  }

  lemma PeriodIsBoundary(s: Name, k: nat)
    requires WellFormed(s) && k <= |s| && (k < |s| ==> s[k] == PERIOD)
    ensures Boundary(s, k)
  {
    if k < |s| {
      SmallBytesAreCharacters(s, k);
    } else {
      EndIsBoundary(s);
    }
  }

  lemma FirstCharacterEnds(f: Full)
    requires WellFormed(f.name) && f.ext <= |f.name|
    ensures FirstWidth(f) <= |f.name| && Boundary(f.name, FirstWidth(f)) && Boundary(f.name, 0)
    ensures FirstWidth(f) == 2 ==> f.name[1] != PERIOD
  {
  }

  /** A shortened name: the start of the base name, the number of the variant, the end of the base name, the
      extension. */
  datatype Pieces = Pieces(start: Name, number: Name, end: Name, ext: Name) {
    function Base(): Name {
      start + number + end
    }

    function Whole(): Name {
      Base() + ext
    }
  }

  predicate Special(host: Name) {
    host == [PERIOD] || host == [PERIOD, PERIOD]
  }

  function Shortened(o: Options, host: Name, count: int): Pieces
    requires WellFormed(host)
  {
    PreparedShape(o, host);
    var f, room := Prepared(o, host), Room(o, count);
    PiecesAreApart(f, room);
    Pieces(f.name[..Cut(f, room)], Number(o, count), f.name[Second(f, room)..f.ext], f.name[f.ext..])
  }

  /** The Human68k name of a host name; the special names stay as they are. */
  function Human(o: Options, host: Name, count: int): Name
    requires WellFormed(host)
  {
    if Special(host) then host else Shortened(o, host, count).Whole()
  }

  function HumanExt(o: Options, host: Name, count: int): nat
    requires WellFormed(host)
  {
    if Special(host) then |host| else |Shortened(o, host, count).Base()|
  }

  /** Whether Human68k can use the name: it has a base name, which does not end in a space, and is not special. */
  predicate Correct(o: Options, host: Name, count: int)
    requires WellFormed(host)
  {
    Special(host) ||
    (var p := Shortened(o, host, count);
     p.Base() != [] && p.Base()[|p.Base()| - 1] != SPACE && !Special(p.Whole()))
  }

  /** Every name fits, in whole characters; the pieces of its base name come from its two ends without overlapping, and
      the first character is always among them. */
  lemma ShortenedFits(o: Options, host: Name, count: int)
    requires WellFormed(host)
    ensures var p, f := Shortened(o, host, count), Prepared(o, host);
            && |p.Base()| <= MaxOf(o) && |p.ext| <= 4
            && WellFormed(p.start) && WellFormed(p.end) && WellFormed(p.ext)
            && |p.start| + |p.end| <= f.ext && p.start <= f.name
            && p.end == f.name[f.ext - |p.end|..f.ext] && p.ext == f.name[f.ext..]
            && FirstWidth(f) <= |p.start|
  {
    hide Prepared, WellFormed, Boundary, Second, Cut, Number, FirstWidth;
    PreparedShape(o, host);
    var f, room := Prepared(o, host), Room(o, count);
    PiecesAreApart(f, room);
    WholePieces(f.name, Cut(f, room), Second(f, room), f.ext);
  }

  /** What is kept of a base name: its end starts at the earliest period behind its first byte that leaves room for its
      first character, and is empty only if there is none. Its start goes up to the first period behind its first
      character, or to where the base name ends, or else as far as there is room: a byte is left over only where the
      next character has two. */
  predicate KeepsEnds(f: Full, start: nat, end: nat, room: nat)
    requires 0 < f.ext <= |f.name|
  {
    var width := if Lead(f.name[0]) then 2 else 1;
    && start + end <= f.ext && start + end <= room && width <= start
    && (end > 0 ==> end < f.ext && f.name[f.ext - end] == PERIOD && end + width <= room)
    && (forall i :: 1 <= i < f.ext - end && f.ext - i + width <= room ==> f.name[i] != PERIOD)
    && (forall i :: width <= i < start ==> f.name[i] != PERIOD)
    && (|| start == f.ext || f.name[start] == PERIOD || start + end == room
        || (start + end == room - 1 && Lead(f.name[start])))
  }

  lemma CutAndSecondKeepEnds(f: Full, room: nat)
    requires WellFormed(f.name) && 0 < f.ext <= |f.name| && 2 <= room
    requires f.ext < |f.name| ==> f.name[f.ext] == PERIOD
    ensures FirstWidth(f) <= |f.name| && f.ext - Second(f, room) <= room
    ensures KeepsEnds(f, Cut(f, room), f.ext - Second(f, room), room)
  {
    hide WellFormed, Boundary;
    PiecesAreApart(f, room);
    EndLeavesRoom(f, room);
    SecondIsEarliest(f, room);
    CutIsLatest(f, room);
  }

  lemma SecondIsEarliest(f: Full, room: nat)
    requires 0 < f.ext <= |f.name| && 2 <= room
    ensures var second, width := Second(f, room), if Lead(f.name[0]) then 2 else 1;
            && (forall i :: 1 <= i < second && f.ext - i + width <= room ==> f.name[i] != PERIOD)
            && 0 < second
  {
    var base, second := f.name[..f.ext], Second(f, room);
    assert forall i :: 0 <= i < f.ext ==> base[i] == f.name[i];
  }

  lemma CutIsLatest(f: Full, room: nat)
    requires WellFormed(f.name) && 0 < f.ext <= |f.name| && 2 <= room && FirstWidth(f) <= |f.name|
    requires f.ext - Second(f, room) <= room && (f.ext < |f.name| ==> f.name[f.ext] == PERIOD)
    requires FirstWidth(f) <= Cut(f, room) <= f.ext
    ensures var c := Cut(f, room);
            && (forall i :: FirstWidth(f) <= i < c ==> f.name[i] != PERIOD)
            && (|| c == f.ext || f.name[c] == PERIOD || c + (f.ext - Second(f, room)) == room
                || (c + (f.ext - Second(f, room)) == room - 1 && Lead(f.name[c])))
  {
    hide Second, WellFormed, Boundary;
    var c, fitting := Cut(f, room), Fitting(f, room);
    var period := FirstPeriod(f.name, FirstWidth(f));
    PeriodIsBoundary(f.name, period);
    if c < fitting {
      BoundaryOrBefore(f.name, fitting);
      BoundaryStep(f.name, c);
    }
  }

  /** A base name keeps its two ends as far as they fit. */
  lemma ShortenedKeepsEnds(o: Options, host: Name, count: int)
    requires WellFormed(host) && Prepared(o, host).ext > 0
    ensures var p, f := Shortened(o, host, count), Prepared(o, host);
            && |p.number| <= MaxOf(o) && KeepsEnds(f, |p.start|, |p.end|, MaxOf(o) - |p.number|)
            && |p.start| <= |f.name| && p.start == f.name[..|p.start|]
            && |p.end| <= f.ext && p.end == f.name[f.ext - |p.end|..f.ext] && p.ext == f.name[f.ext..]
  {
    hide Prepared, WellFormed, Boundary, Second, Cut, Number, FirstWidth, KeepsEnds;
    PreparedShape(o, host);
    var f, room := Prepared(o, host), Room(o, count);
    PiecesAreApart(f, room);
    CutAndSecondKeepEnds(f, room);
  }

  /** Cutting at boundaries leaves whole characters. */
  lemma WholePieces(s: Name, i: nat, j: nat, k: nat)
    requires WellFormed(s) && i <= j <= k <= |s| && Boundary(s, i) && Boundary(s, j) && Boundary(s, k)
    ensures WellFormed(s[..i]) && WellFormed(s[j..k]) && WellFormed(s[k..])
  {
    hide WellFormed, Boundary;
    CutAtBoundary(s, i);
    CutAtBoundary(s, k);
    BoundaryInPrefix(s, j, k);
    CutAtBoundary(s[..k], j);
    assert s[..k][j..] == s[j..k];
  }

  lemma {:induction false} NoZeroBytes(s: Name)
    requires WellFormed(s)
    ensures 0 !in s
  {
    if s != [] {
      var w := if Lead(s[0]) then 2 else 1;
      NoZeroBytes(s[w..]);
      assert s == s[..w] + s[w..];
    }
  }

  lemma NumberIsWellFormed(o: Options, count: int)
    ensures WellFormed(Number(o, count))
  {
    if count >= 0 {
      var mark := if o.mark == 0 then MARK else o.mark;
      assert [mark][1..] == [];
      Joined([mark], Digits(count, 5));
    }
  }

  /** A generated name has no zero bytes, a base of at most 18 bytes, and an extension of a period and one to three
      bytes. */
  lemma HumanShape(o: Options, host: Name, count: int)
    requires WellFormed(host)
    ensures var human, ext := Human(o, host, count), HumanExt(o, host, count);
            && ext <= 18 && ext <= |human| <= ext + 4 && 0 !in human
            && (ext < |human| ==> human[ext] == PERIOD && ext + 2 <= |human|)
            && (Correct(o, host, count) ==> ext > 0 && human[ext - 1] != SPACE)
  {
    if Special(host) {
      return;
    }
    hide WellFormed, Shortened, Prepared, Number, Special, FirstWidth, MaxOf;
    ShortenedFits(o, host, count);
    PreparedShape(o, host);
    NumberIsWellFormed(o, count);
    NumberOfShortened(o, host, count);
    var p := Shortened(o, host, count);
    var f := Prepared(o, host);
    MaxIsEighteen(o);
    ShapeOfPieces(p);
    hide Pieces.Base, Pieces.Whole;
    JoinedShape(p.Base(), p.ext, f);
  }

  lemma JoinedShape(base: Name, ext: Name, f: Full)
    requires f.ext <= |f.name| && ext == f.name[f.ext..]
    requires f.ext < |f.name| ==> f.name[f.ext] == PERIOD && 2 <= |f.name| - f.ext
    ensures var human := base + ext;
            && (|base| < |human| ==> human[|base|] == PERIOD && |base| + 2 <= |human|)
            && (base != [] ==> human[|base| - 1] == base[|base| - 1])
  {
  }

  lemma MaxIsEighteen(o: Options)
    ensures MaxOf(o) <= 18
  {
  }

  lemma NumberOfShortened(o: Options, host: Name, count: int)
    requires WellFormed(host)
    ensures Shortened(o, host, count).number == Number(o, count)
  {
    hide WellFormed, Boundary, Prepared, Second, Cut, Number;
  }

  lemma ShapeOfPieces(p: Pieces)
    requires WellFormed(p.start) && WellFormed(p.number) && WellFormed(p.end) && WellFormed(p.ext)
    ensures 0 !in p.Whole() && p.Whole() == p.Base() + p.ext
  {
    hide WellFormed;
    NoZeroBytes(p.start);
    NoZeroBytes(p.end);
    NoZeroBytes(p.number);
    NoZeroBytes(p.ext);
  }

  lemma {:induction false} BoundaryInPrefix(s: Name, j: nat, k: nat)
    requires WellFormed(s) && Boundary(s, j) && Boundary(s, k) && j <= k <= |s|
    ensures Boundary(s[..k], j)
  {
    if j > 0 {
      var w := if Lead(s[0]) then 2 else 1;
      assert s[..k][w..] == s[w..][..k - w];
      BoundaryInPrefix(s[w..], j - w, k - w);
    }
  }

  lemma KeptPieces(o: Options, host: Name) returns (cut: nat)
    requires WellFormed(host) && Prepared(o, host).ext <= MaxOf(o)
    ensures var f := Prepared(o, host);
            && cut <= f.ext <= |f.name|
            && Shortened(o, host, -1) == Pieces(f.name[..cut], [], f.name[cut..f.ext], f.name[f.ext..])
  {
    var f, room := Prepared(o, host), Room(o, -1);
    PreparedShape(o, host);
    hide Prepared, WellFormed, Boundary;
    ShortBaseIsKept(f, room);
    PiecesAreApart(f, room);
    hide Second;
    cut := Cut(f, room);
    hide Cut;
  }

  /** A name whose base fits is not shortened. */
  lemma FittingBaseStays(o: Options, host: Name)
    requires WellFormed(host) && !Special(host) && Prepared(o, host).ext <= MaxOf(o)
    ensures var f := Prepared(o, host);
            && Human(o, host, -1) == f.name && HumanExt(o, host, -1) == f.ext
            && (Correct(o, host, -1) <==> f.ext > 0 && f.name[f.ext - 1] != SPACE && !Special(f.name))
  {
    hide Prepared, WellFormed, Shortened;
    var cut := KeptPieces(o, host);
    Reassembled(Prepared(o, host).name, cut, Prepared(o, host).ext);
  }

  /** Without options, a name whose base fits, without leading spaces and trailing spaces, is its own Human68k name. */
  lemma FittingNamesStay(o: Options, host: Name)
    requires WellFormed(host) && NoOption(o) && SeparateExt(host) <= MaxOf(o)
    requires host != [] ==> host[0] != SPACE && (SeparateExt(host) < |host| ==> host[|host| - 1] != SPACE)
    ensures Human(o, host, -1) == host && (!Special(host) ==> HumanExt(o, host, -1) == SeparateExt(host))
    ensures !Special(host) ==> (Correct(o, host, -1) <==> SeparateExt(host) > 0 && host[SeparateExt(host) - 1] != SPACE)
  {
    hide Prepared, WellFormed, SeparateExt, Human, HumanExt, Correct;
    PreparedAsItIs(o, host);
    if Special(host) {
      SpecialStays(o, host);
    } else {
      FittingBaseStays(o, host);
    }
  }

  lemma SpecialStays(o: Options, host: Name)
    requires WellFormed(host) && Special(host)
    ensures Human(o, host, -1) == host
  {
  }

  lemma Reassembled(s: Name, j: nat, k: nat)
    requires j <= k <= |s|
    ensures var p := Pieces(s[..j], [], s[j..k], s[k..]); p.Whole() == s && p.Base() == s[..k]
  {
  }

  lemma PreparedAsItIs(o: Options, host: Name)
    requires NoOption(o)
    requires host != [] ==> host[0] != SPACE && (SeparateExt(host) < |host| ==> host[|host| - 1] != SPACE)
    ensures Prepared(o, host) == Full(host, SeparateExt(host))
  {
    var ext := SeparateExt(host);
    NothingToConvert(o, host, ext, |host|);
    NothingToConvert(o, host, ext, ext);
    assert host[..|host|] == host;
  }

  /** The start of a base name that fits ends where its end starts. */
  lemma ShortBaseIsKept(f: Full, room: nat)
    requires WellFormed(f.name) && f.ext <= |f.name| && f.ext <= room && 2 <= room
    requires f.ext < |f.name| ==> f.name[f.ext] == PERIOD
    ensures FirstWidth(f) <= |f.name| && f.ext - Second(f, room) <= room && Cut(f, room) == Second(f, room)
  {
    EndLeavesRoom(f, room);
    FirstCharacterEnds(f);
    PiecesAreApart(f, room);
    hide WellFormed, Boundary;
    var period := FirstPeriod(f.name, FirstWidth(f));
    assert period <= f.ext;
    assert Second(f, room) == period by {
      assert period < f.ext ==> f.name[..f.ext][period] == PERIOD;
    }
    PeriodIsBoundary(f.name, period);
  }

  lemma NumberOf(o: Options, k: nat)
    requires k < 36
    ensures Number(o, k) == [if o.mark == 0 then MARK else o.mark, Digit(k)]
  {
    DigitsStep(k, 5);
  }

  /** The variants are numbered 0 to 9 and A to Z, behind an @ if there is no other mark. */
  lemma NumbersAreDigitsAndLetters(o: Options, k: nat)
    requires k < 36
    ensures |Number(o, k)| == 2 && Number(o, k)[0] == if o.mark == 0 then 0x40 else o.mark
    ensures Number(o, k)[1] == if k < 10 then 0x30 + k else 0x41 + (k - 10)
  {
    NumberOf(o, k);
  }

  /** The numbered variants of a name differ in their numbers only. */
  lemma NumberedPieces(o: Options, host: Name, j: nat, k: nat)
    requires WellFormed(host) && j < 36 && k < 36
    ensures Shortened(o, host, k) == Shortened(o, host, j).(number := Number(o, k))
  {
    NumberOf(o, j);
    NumberOf(o, k);
    hide Prepared, WellFormed, Boundary, Second, Cut, Number;
  }

  lemma EndOf(o: Options, host: Name, count: int)
    requires WellFormed(host)
    ensures var f := Prepared(o, host);
            && Second(f, Room(o, count)) <= f.ext <= |f.name|
            && Shortened(o, host, count).end == f.name[Second(f, Room(o, count))..f.ext]
  {
    hide Prepared, WellFormed, Boundary, Second, Cut, Number;
  }

  lemma RoomOf(o: Options, count: int)
    requires -1 <= count < 36
    ensures Room(o, count) == MaxOf(o) - if count < 0 then 0 else 2
  {
    if count >= 0 {
      NumberOf(o, count);
    }
  }

  /** The numbered variants of a name all differ. */
  lemma VariantsDiffer(o: Options, host: Name, i: nat, j: nat)
    requires WellFormed(host) && i < j < 36 && !Special(host)
    ensures Human(o, host, i) != Human(o, host, j)
  {
    hide Number, Shortened, WellFormed;
    NumberOf(o, i);
    NumberOf(o, j);
    NumberedPieces(o, host, 0, i);
    NumberedPieces(o, host, 0, j);
    var p, q := Shortened(o, host, i), Shortened(o, host, j);
    var k := |p.start| + 1;
    assert p.Whole()[k] == Digit(i) && q.Whole()[k] == Digit(j);
  }

  lemma {:induction false} BoundaryStep(s: Name, p: nat)
    requires WellFormed(s) && Boundary(s, p) && p < |s|
    ensures if Lead(s[p]) then p + 2 <= |s| && Boundary(s, p + 2) && !Boundary(s, p + 1) else Boundary(s, p + 1)
  {
    if p > 0 {
      var w := if Lead(s[0]) then 2 else 1;
      BoundaryStep(s[w..], p - w);
    }
  }

  // ---------- the conversion, step by step ----------

  class CHostFilename {
    var host: Name
    var human: Name
    /** Where the extension of `human` starts. */
    var ext: nat
    var correct: bool

    constructor (host: Name)
      ensures this.host == host
    {
      this.host := host;
      human, ext, correct := [], 0, false;
    }

    /** Converts the host name; a count that is not negative asks for one of its numbered variants. */
    method ConvertHuman(o: Options, count: int)
      requires WellFormed(host)
      modifies `human, `ext, `correct
      ensures human == Human(o, host, count) && ext == HumanExt(o, host, count) && correct == Correct(o, host, count)
    {
      hide Prepared, Second, Cut, WellFormed, Boundary, Number, Digits;
      if host == [PERIOD] || host == [PERIOD, PERIOD] {
        human, ext, correct := host, |host|, true;
        return;
      }
      var number := MakeNumber(o, count);
      var name, at := ConvertCharacters(o);
      PreparedShape(o, host);
      var cut, second := Shorten(Full(name, at), MaxOf(o) - |number|);
      Join(Pieces(name[..cut], number, name[second..at], name[at..]));
    }

    /** Puts the pieces of a name together and looks whether it will do. */
    method Join(p: Pieces)
      modifies `human, `ext, `correct
      ensures human == p.Whole() && ext == |p.Base()|
      ensures correct == (p.Base() != [] && p.Base()[|p.Base()| - 1] != SPACE && !Special(p.Whole()))
    {
      human := p.start + p.number + p.end;
      ext := |human|;
      human := human + p.ext;
      correct := ext > 0 && human[ext - 1] != SPACE && human != [PERIOD] && human != [PERIOD, PERIOD];
    }

    /** Where the start of the base name ends, and where its end starts. */
    method Shorten(f: Full, room: nat) returns (cut: nat, second: nat)
      requires WellFormed(f.name) && f.ext <= |f.name| && 2 <= room
      requires f.ext < |f.name| ==> f.name[f.ext] == PERIOD
      ensures FirstWidth(f) <= |f.name| && f.ext - Second(f, room) <= room
      ensures cut == Cut(f, room) <= second == Second(f, room) <= f.ext
    {
      hide WellFormed, Boundary, FirstPeriod;
      PiecesAreApart(f, room);
      EndLeavesRoom(f, room);
      var width := 0;
      if 0 < f.ext {
        width := if Lead(f.name[0]) then 2 else 1;
      }
      cut := FirstPeriod(f.name, width);
      if cut > room {
        cut := room;
      }
      second := FindSecond(f.name, f.ext, if f.ext == 0 then 0 else f.ext - room + width - 1);
      if cut + (f.ext - second) > room {
        cut := room - (f.ext - second);
      }
      cut := WholeCharacters(f.name, cut);
    }

    method MakeNumber(o: Options, count: int) returns (number: Name)
      ensures number == Number(o, count)
    {
      hide Digits;
      number := [];
      if count < 0 {
        return;
      }
      var n: nat := count;
      var i := 0;
      while i < 5
        invariant i <= 5 && Digits(count, 5) == Digits(n, 5 - i) + number
        decreases 5 - i
      {
        DigitsStep(n, 5 - i);
        number := [Digit(n % 36)] + number;
        n := n / 36;
        i := i + 1;
        if n == 0 {
          break;
        }
      }
      number := [if o.mark == 0 then MARK else o.mark] + number;
    }

    /** Replaces and drops characters, and finds the extension. */
    method ConvertCharacters(o: Options) returns (name: Name, at: nat)
      ensures Full(name, at) == Prepared(o, host)
    {
      hide Emitted, SeparateExt, Trimmed;
      var period := SeparateExt(host);
      name := [];
      var found := false;
      at := 0;
      var i := 0;
      while i < |host|
        invariant i <= |host| && name == Converted(o, host, period, i)
        invariant found <==> period < i
        invariant found ==> at == |Converted(o, host, period, period)|
      {
        if i == period {
          found, at := true, |name|;
        }
        name := name + Emitted(o, host[i], i == 0, name == [], i == period);
        i := i + 1;
      }
      if !found {
        at := |name|;
        return;
      }
      ConvertedExtension(o, host);
      name := TrimSpaces(name, at);
      if at + 1 >= |name| {
        name := name[..at];
      }
    }

    method TrimSpaces(all: Name, at: nat) returns (name: Name)
      requires at < |all|
      ensures name == Trimmed(all, at)
    {
      name := all;
      while at < |name| - 1 && name[|name| - 1] == SPACE
        invariant at < |name| && Trimmed(name, at) == Trimmed(all, at)
      {
        name := name[..|name| - 1];
      }
    }

    method FindSecond(name: Name, at: nat, stop: int) returns (second: nat)
      requires at <= |name|
      ensures second <= at
      ensures var from := if stop < 0 then 1 else stop + 1;
              second == if from > at then at else FirstPeriod(name[..at], from)
    {
      var from := if stop < 0 then 1 else stop + 1;
      second := at;
      var p := at - 1;
      while from <= p
        invariant p < at && second <= at
        invariant from - 1 <= p || from > at
        invariant from > at ==> second == at
        invariant from <= at ==> second == FirstPeriod(name[..at], p + 1)
      {
        if name[p] == PERIOD {
          second := p;
        }
        p := p - 1;
      }
    }

    /** Moves a cut out of the middle of a character. */
    method WholeCharacters(name: Name, cut: nat) returns (k: nat)
      requires WellFormed(name) && cut <= |name|
      ensures k == if Boundary(name, cut) || cut == 0 then cut else cut - 1
    {
      k := cut;
      var p := 0;
      while p < cut
        invariant p <= cut && Boundary(name, p)
      {
        BoundaryStep(name, p);
        if Lead(name[p]) {
          p := p + 1;
          if p >= cut {
            k := cut - 1;
            return;
          }
        }
        p := p + 1;
      }
    }
  }
}
