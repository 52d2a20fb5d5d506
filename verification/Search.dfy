/** The wildcard search of a directory, which can be continued after the directory has been read again. */
module Searches {
  import opened Bytes
  import opened HumanNames
  import opened NameCompares
  import opened Directories

  /** Where a search goes on: the number of entries passed, the identifier of the directory, the next node unless there
      is none, and the directory entry of that node. */
  datatype Find = Find(count: nat, id: nat, pos: Option<nat>, entry: Dirent)

  const START := Find(0, 0, None, NO_DIRENT)

  const ANY_EXT: Name := [PERIOD, QUESTION, QUESTION, QUESTION]

  /** Whether a file has one of the attributes and a name that fits; `.???` fits any extension, and none. */
  predicate Fits(cfg: Config, pattern: Name, mask: set<Attribute>, f: Filename)
    requires f.ext <= |f.human|
  {
    var ext := SeparateExt(pattern);
    && f.dirent.attr * mask != {}
    && Matches(cfg.alphabet, pattern[..ext], f.human[..f.ext], false, false)
    && (pattern[ext..] == ANY_EXT || Matches(cfg.alphabet, pattern[ext..], f.human[f.ext..], false, false))
  }

  /** A pattern in ASCII without question marks fits exactly the names that are split at the same place and look like
      it, byte by byte. */
  lemma FitsIfAlike(cfg: Config, pattern: Name, mask: set<Attribute>, f: Filename)
    requires f.ext <= |f.human| && Printable(pattern) && QUESTION !in pattern && Printable(f.human)
    ensures Fits(cfg, pattern, mask, f) <==>
              && (exists a :: a in f.dirent.attr && a in mask)
              && |pattern| == |f.human| && SeparateExt(pattern) == f.ext
              && forall i :: 0 <= i < |pattern| ==> LookAlike(cfg.alphabet, pattern[i], f.human[i])
  {
    hide SeparateExt, Matches, LookAlike;
    var ext := SeparateExt(pattern);
    var a, b, c, d := pattern[..ext], f.human[..f.ext], pattern[ext..], f.human[f.ext..];
    AsciiNamesLookAlike(cfg.alphabet, a, b);
    AsciiNamesLookAlike(cfg.alphabet, c, d);
    assert c != ANY_EXT by {
      assert ANY_EXT[1] == QUESTION;
    }
    if |a| == |b| && |c| == |d| {
      AlikeInParts(cfg.alphabet, pattern, f.human, ext);
    }
    Meeting(f.dirent.attr, mask);
  }

  lemma AlikeInParts(alphabet: bool, p: Name, q: Name, ext: nat)
    requires ext <= |p| == |q|
    ensures (forall i :: 0 <= i < |p| ==> LookAlike(alphabet, p[i], q[i])) <==>
              && (forall i :: 0 <= i < ext ==> LookAlike(alphabet, p[..ext][i], q[..ext][i]))
              && (forall i :: 0 <= i < |p| - ext ==> LookAlike(alphabet, p[ext..][i], q[ext..][i]))
  {
    hide LookAlike;
    var a, b, c, d := p[..ext], q[..ext], p[ext..], q[ext..];
    if (forall i :: 0 <= i < ext ==> LookAlike(alphabet, a[i], b[i]))
       && (forall i :: 0 <= i < |p| - ext ==> LookAlike(alphabet, c[i], d[i])) {
      forall i | 0 <= i < |p| ensures LookAlike(alphabet, p[i], q[i]) {
        assert if i < ext then LookAlike(alphabet, a[i], b[i]) else LookAlike(alphabet, c[i - ext], d[i - ext]);
      }
    }
  }

  /** Eighteen question marks and `.???` fit every file that has one of the attributes. */
  lemma QuestionMarksFitAll(cfg: Config, pattern: Name, mask: set<Attribute>, f: Filename)
    requires |pattern| == 22 && (forall i :: 0 <= i < 18 ==> pattern[i] == QUESTION) && pattern[18..] == ANY_EXT
    requires f.ext <= 18 && f.ext <= |f.human|
    ensures Fits(cfg, pattern, mask, f) <==> exists a :: a in f.dirent.attr && a in mask
  {
    assert pattern[18] == pattern[18..][0] && pattern[19] == pattern[18..][1] && pattern[20] == pattern[18..][2]
           && pattern[21] == pattern[18..][3];
    LastPeriodOfPattern(pattern);
    assert SeparateExt(pattern) == 18;
    hide SeparateExt, Matches;
    MatchesPlaceByPlace(cfg.alphabet, pattern[..18], f.human[..f.ext]);
    Meeting(f.dirent.attr, mask);
  }

  lemma Meeting(a: set<Attribute>, mask: set<Attribute>)
    ensures a * mask != {} <==> exists x :: x in a && x in mask
  {
    if a * mask != {} {
      var x :| x in a * mask;
    }
    if x :| x in a && x in mask {
      assert x in a * mask;
    }
  }

  lemma LastPeriodOfPattern(s: Name)
    requires |s| == 22 && s[18] == PERIOD && s[19] != PERIOD && s[20] != PERIOD && s[21] != PERIOD
    ensures LastPeriod(s) == 18
  {
    assert LastPeriod(s) == LastPeriod(s[..21]) by {
      assert s[18] in s;
    }
    var a := s[..21];
    assert a[18] in a && a[..20][18] in a[..20] && a[..20][..19][18] == PERIOD;
    assert LastPeriod(a) == LastPeriod(a[..20]) == LastPeriod(a[..20][..19]) == 18;
  }

  predicate Extended(names: seq<Node>) {
    forall i :: 0 <= i < |names| ==> names[i].f.ext <= |names[i].f.human|
  }

  predicate Sound(names: seq<Node>) {
    && Extended(names)
    && (forall i, j :: 0 <= i < j < |names| ==> names[i].at != names[j].at)
  }

  /** The next file that fits, from `from` on, or the length. */
  function NextFit(cfg: Config, pattern: Name, mask: set<Attribute>, names: seq<Node>, from: nat): (k: nat)
    requires Extended(names) && from <= |names|
    ensures from <= k <= |names|
    ensures k < |names| ==> Fits(cfg, pattern, mask, names[k].f)
    ensures forall i :: from <= i < k ==> !Fits(cfg, pattern, mask, names[i].f)
    decreases |names| - from
  {
    if from == |names| || Fits(cfg, pattern, mask, names[from].f) then from
    else NextFit(cfg, pattern, mask, names, from + 1)
  }

  function EntryAt(names: seq<Node>, k: nat): Dirent {
    if k < |names| then names[k].f.dirent else NO_DIRENT
  }

  function PlaceOf(names: seq<Node>, k: nat): Option<nat> {
    if k < |names| then Some(names[k].at) else None
  }

  /** The search has passed the first `k` entries of the directory. */
  predicate StandsAt(find: Find, id: nat, names: seq<Node>, k: nat) {
    && k <= |names| && find.count == k
    && (k > 0 ==> find.entry == EntryAt(names, k) && (find.id == id ==> find.pos == PlaceOf(names, k)))
  }

  /** A search can be resumed by the contents of the directory alone if no earlier entry looks like the next one. */
  predicate Resumable(find: Find, id: nat, names: seq<Node>) {
    find.count > 0 && find.id != id ==> forall i :: 0 <= i < |names| && i < find.count ==>
        names[i].f.dirent != find.entry
  }

  /** The index of the first entry that looks like `entry`, or the length. */
  function IndexOfEntry(names: seq<Node>, entry: Dirent): (k: nat)
    ensures k <= |names|
    ensures k < |names| ==> names[k].f.dirent == entry
    ensures forall i :: 0 <= i < k ==> names[i].f.dirent != entry
  {
    if names == [] then 0 else if names[0].f.dirent == entry then 0 else 1 + IndexOfEntry(names[1..], entry)
  }

  /** Where a search goes on in a directory that was read again since: at the first entry that looks like the next one,
      or else behind as many entries as were passed. */
  function PlaceByContents(names: seq<Node>, entry: Dirent, count: nat): (p: nat)
    ensures p <= |names|
  {
    var k := IndexOfEntry(names, entry);
    if k < |names| then k else if count < |names| then count else |names|
  }

  /** Where a search goes on; `from` is the place of the next node, if the directory has not been read again. */
  function ResumedAt(find: Find, id: nat, names: seq<Node>, from: nat): nat {
    if find.count == 0 then 0 else if find.id == id then from else PlaceByContents(names, find.entry, find.count)
  }

  /** The number of entries passed, as the search counts them: it is kept when there are fewer entries now. */
  function CountAt(find: Find, id: nat, names: seq<Node>): nat {
    if find.count > 0 && find.id != id && IndexOfEntry(names, find.entry) < |names| then IndexOfEntry(names, find.entry)
    else find.count
  }

  /** Goes back to where a search was left. If the directory was read again since, the place is found by its directory
      entry, or else by counting. */
  method Resume(names: seq<Node>, id: nat, find: Find, ghost from: nat) returns (p: nat, count: nat)
    requires Sound(names) && from <= |names| && (find.count > 0 && find.id == id ==> find.pos == PlaceOf(names, from))
    ensures p == ResumedAt(find, id, names, from) <= |names| && count == CountAt(find, id, names)
    ensures find.count == 0 ==> p == count == 0
    ensures find.count > 0 && find.id == id ==> p == from && count == find.count
    ensures find.count > 0 && find.id != id ==>
              if p < |names| && names[p].f.dirent == find.entry
              then count == p && forall i :: 0 <= i < p ==> names[i].f.dirent != find.entry
              else
                && count == find.count && p == (if count < |names| then count else |names|)
                && forall i :: 0 <= i < |names| ==> names[i].f.dirent != find.entry
  {
    p, count := 0, find.count;
    if find.count > 0 {
      if find.id == id {
        while p < |names| && Some(names[p].at) != find.pos
          invariant p <= |names| && forall i :: 0 <= i < p ==> PlaceOf(names, i) != find.pos
        {
          p := p + 1;
        }
        PlacesAreApart(names, p, from);
      } else {
        while p < |names| && names[p].f.dirent != find.entry
          invariant p <= |names| && forall i :: 0 <= i < p ==> names[i].f.dirent != find.entry
        {
          p := p + 1;
        }
        if p < |names| {
          count := p;
        } else {
          p := 0;
          while p < |names| && p < find.count
            invariant p <= |names| && p <= find.count
          {
            p := p + 1;
          }
        }
      }
    }
  }

  lemma PlacesAreApart(names: seq<Node>, i: nat, j: nat)
    requires Sound(names) && i <= |names| && j <= |names| && PlaceOf(names, i) == PlaceOf(names, j)
    ensures i == j
  {
  }

  /** A search that has passed `k` entries goes on there exactly if it can be resumed; an earlier entry that looks like
      the next one would be taken for it, and the entries from there on would be found again. */
  lemma ResumesInPlace(find: Find, id: nat, names: seq<Node>, k: nat)
    requires StandsAt(find, id, names, k)
    ensures ResumedAt(find, id, names, k) == k <==> Resumable(find, id, names)
    ensures ResumedAt(find, id, names, k) == k ==> CountAt(find, id, names) == k
    ensures ResumedAt(find, id, names, k) <= k
  {
    if find.count > 0 && find.id != id && k < |names| {
      assert names[k].f.dirent == find.entry;
    }
  }

  method FitsName(cfg: Config, pattern: Name, mask: set<Attribute>, f: Filename) returns (fits: bool)
    requires f.ext <= |f.human|
    ensures fits == Fits(cfg, pattern, mask, f)
  {
    hide Matches, SeparateExt;
    var ext := SeparateExt(pattern);
    if f.dirent.attr * mask == {} {
      return false;
    }
    var r := Compare(cfg.alphabet, pattern[..ext], f.human[..f.ext]);
    if r != 0 {
      return false;
    }
    if pattern[ext..] == ANY_EXT {
      return true;
    }
    r := Compare(cfg.alphabet, pattern[ext..], f.human[f.ext..]);
    fits := r == 0;
  }

  /** Finds the next file that fits from where the search goes on, and leaves the search behind it. Only if the
      directory has fewer entries than were passed does the search count more than there are. */
  method FindFilenameWildcard(cfg: Config, path: HostPath, pattern: Name, mask: set<Attribute>, find: Find,
      ghost from: nat)
    returns (k: nat, find': Find)
    requires Sound(path.names) && from <= |path.names|
    requires find.count > 0 && find.id == path.id ==> find.count == from && find.pos == PlaceOf(path.names, from)
    ensures ResumedAt(find, path.id, path.names, from) <= |path.names|
    ensures k == NextFit(cfg, pattern, mask, path.names, ResumedAt(find, path.id, path.names, from))
    ensures find'.id == path.id
    ensures if CountAt(find, path.id, path.names) <= |path.names|
            then StandsAt(find', path.id, path.names, if k < |path.names| then k + 1 else k)
            else k == |path.names| && find' == Find(find.count, path.id, None, NO_DIRENT)
  {
    hide Fits;
    var names := path.names;
    var count;
    k, count := Resume(names, path.id, find, from);
    ghost var start, passed := k, count;
    while k < |names|
      invariant start <= k <= |names| && count - k == passed - start
      invariant NextFit(cfg, pattern, mask, names, start) == NextFit(cfg, pattern, mask, names, k)
    {
      count := count + 1;
      var fits := FitsName(cfg, pattern, mask, names[k].f);
      if fits {
        find' := Find(count, path.id, PlaceOf(names, k + 1), EntryAt(names, k + 1));
        return;
      }
      k := k + 1;
    }
    find' := Find(count, path.id, None, NO_DIRENT);
  }
}
