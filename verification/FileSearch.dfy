/** Searches for files with wildcards, one file per call, on a drive whose cache may drop and read directories in
    between. */
module FileSearches {
  import opened Bytes
  import opened HumanNames
  import opened NameCompares
  import opened Rings
  import opened Directories
  import opened Searches
  import opened Paths
  import opened Splits
  import opened PathCaches

  /** All the files that fit, each once and in the order of the directory, from an entry on. */
  function AllFits(cfg: Config, pattern: Name, mask: set<Attribute>, names: seq<Node>, from: nat): seq<Filename>
    requires Extended(names) && from <= |names|
    decreases |names| - from
  {
    if from == |names| then []
    else
      var here := if Fits(cfg, pattern, mask, names[from].f) then [names[from].f] else [];
      here + AllFits(cfg, pattern, mask, names, from + 1)
  }

  lemma FitsHere(cfg: Config, pattern: Name, mask: set<Attribute>, names: seq<Node>, from: nat)
    requires Extended(names) && from < |names|
    ensures names[from].f.ext <= |names[from].f.human|
    ensures if Fits(cfg, pattern, mask, names[from].f) then
              && NextFit(cfg, pattern, mask, names, from) == from
              && AllFits(cfg, pattern, mask, names, from)
                  == [names[from].f] + AllFits(cfg, pattern, mask, names, from + 1)
            else
              && NextFit(cfg, pattern, mask, names, from) == NextFit(cfg, pattern, mask, names, from + 1)
              && AllFits(cfg, pattern, mask, names, from) == AllFits(cfg, pattern, mask, names, from + 1)
  {
    hide Fits;
    if !Fits(cfg, pattern, mask, names[from].f) {
      assert AllFits(cfg, pattern, mask, names, from) == [] + AllFits(cfg, pattern, mask, names, from + 1);
    }
  }

  lemma FitsNoMore(cfg: Config, pattern: Name, mask: set<Attribute>, names: seq<Node>)
    requires Extended(names)
    ensures NextFit(cfg, pattern, mask, names, |names|) == |names| && AllFits(cfg, pattern, mask, names, |names|) == []
  {
  }

  lemma {:induction false} NextIsFirst(cfg: Config, pattern: Name, mask: set<Attribute>, names: seq<Node>, from: nat)
    requires Extended(names) && from <= |names|
    ensures var k := NextFit(cfg, pattern, mask, names, from);
            AllFits(cfg, pattern, mask, names, from) ==
              if k == |names| then [] else [names[k].f] + AllFits(cfg, pattern, mask, names, k + 1)
    decreases |names| - from
  {
    hide Fits, AllFits, NextFit, Extended;
    if from == |names| {
      FitsNoMore(cfg, pattern, mask, names);
    } else {
      FitsHere(cfg, pattern, mask, names, from);
      if !Fits(cfg, pattern, mask, names[from].f) {
        NextIsFirst(cfg, pattern, mask, names, from + 1);
      }
    }
  }

  lemma {:induction false} SameFits(cfg: Config, pattern: Name, mask: set<Attribute>, a: seq<Node>, b: seq<Node>,
      from: nat)
    requires Extended(a) && Extended(b) && SameFiles(a, b) && from <= |a|
    ensures NextFit(cfg, pattern, mask, a, from) == NextFit(cfg, pattern, mask, b, from)
    decreases |a| - from
  {
    hide Fits;
    if from < |a| && !Fits(cfg, pattern, mask, a[from].f) {
      SameFits(cfg, pattern, mask, a, b, from + 1);
    }
  }

  lemma ListingIsSound(cfg: Config, tree: Tree, host: Name, root: bool)
    requires TreeOk(tree)
    ensures Sound(Listed(cfg, tree, host, root, 0))
  {
    hide ReadAll, WellFormed;
    var listing := Listing(tree, host);
    VisibleIsListed(listing, root);
    ListingAllocates(cfg, Real(listing), Visible(listing, root), 0);
  }

  /** The names of a host directory of the drive. */
  function NamesOf(cfg: Config, tree: Tree, base: Name, host: Name): (names: seq<Node>)
    requires TreeOk(tree)
    ensures Sound(names)
  {
    ListingIsSound(cfg, tree, host, host == base + [SLASH]);
    Listed(cfg, tree, host, host == base + [SLASH], 0)
  }

  /** A directory that a search can go through whatever is refreshed: its entries look different, and a refresh keeps
      them. */
  predicate Searchable(names: seq<Node>) {
    EntriesDiffer(names) && StableSplit(names) && |names| != 1
  }

  /** A host directory with other than one entry, in which every file can be named and is split plainly. */
  predicate Orderly(cfg: Config, listing: seq<HostEntry>, root: bool)
    requires ListingOk(listing)
  {
    var visible := Visible(listing, root);
    CanBeNamed(cfg, listing, root, 0) && |Present(visible)| != 1 && AllPlain(cfg.o, visible)
  }

  lemma VisibleIsReal(listing: seq<HostEntry>, root: bool)
    ensures forall e :: e in Visible(listing, root) && e.stat.Some? ==> e.name in Real(listing)
  {
    VisibleIsListed(listing, root);
  }

  lemma OrderlyIsSearchable(cfg: Config, tree: Tree, base: Name, host: Name)
    requires TreeOk(tree) && ListingOk(Listing(tree, host)) && Orderly(cfg, Listing(tree, host), host == base + [SLASH])
    ensures Searchable(NamesOf(cfg, tree, base, host))
  {
    hide WellFormed, Visible, Real, ReadAll, AllNamable, AllPlain, OwnNames, EntriesDiffer, StableSplit;
    var listing, root := Listing(tree, host), host == base + [SLASH];
    VisibleIsListed(listing, root);
    VisibleIsReal(listing, root);
    var files, visible := Real(listing), Visible(listing, root);
    NamableEntriesDiffer(cfg, files, visible, 0);
    PlainListingIsStable(cfg, files, visible, 0);
    var names := First(cfg, files, visible, 0).list;
    ReadingListsAll(cfg, files, Reading([], [], 0, false), visible);
    assert |Hosts(names)| == |names|;
    assert NamesOf(cfg, tree, base, host) == names;
  }

  /** The search has passed the first entries of the directory, as the drive listed them when it was last asked. */
  ghost predicate OnCourse(find: Find, passed: nat, names: seq<Node>, issued: map<nat, seq<Node>>) {
    && find.count == passed <= |names|
    && (passed > 0 ==>
          find.id in issued && SameFiles(issued[find.id], names) && StandsAt(find, find.id, issued[find.id], passed))
  }

  /** However the directory is listed now, the search stands where it stood and can be resumed there. */
  lemma StaysOnCourse(find: Find, passed: nat, names: seq<Node>, issued: map<nat, seq<Node>>, f: HostPath)
    requires OnCourse(find, passed, names, issued) && EntriesDiffer(names) && SameFiles(f.names, names)
    requires f.names == [] || (f.id in issued && issued[f.id] == f.names)
    ensures StandsAt(find, f.id, f.names, passed) && Resumable(find, f.id, f.names)
  {
  }

  lemma AtPlace(find: Find, id: nat, names: seq<Node>, k: nat)
    requires StandsAt(find, id, names, k)
    ensures find.count > 0 && find.id == id ==> find.count == k && find.pos == PlaceOf(names, k)
  {
  }

  lemma OnCourseLater(find: Find, passed: nat, names: seq<Node>, issued: map<nat, seq<Node>>,
      issued': map<nat, seq<Node>>)
    requires OnCourse(find, passed, names, issued) && forall id :: id in issued ==>
        id in issued' && issued'[id] == issued[id]
    ensures OnCourse(find, passed, names, issued')
  {
  }

  lemma BackOnCourse(find: Find, passed: nat, names: seq<Node>, issued: map<nat, seq<Node>>, f: HostPath)
    requires find.id == f.id && StandsAt(find, f.id, f.names, passed) && SameFiles(f.names, names)
    requires f.names == [] || (f.id in issued && issued[f.id] == f.names)
    ensures OnCourse(find, passed, names, issued)
  {
  }

  class CHostFiles {
    const drv: CHostDrv
    var path: Name
    var pattern: Name
    var mask: set<Attribute>
    var find: Find
    /** How many entries of the directory have been passed. */
    ghost var passed: nat

    constructor (drv: CHostDrv)
      ensures this.drv == drv && find == START && passed == 0
    {
      this.drv := drv;
      path, pattern, mask, find, passed := [], [], {}, START, 0;
    }

    /** What the search goes through, if its path leads anywhere. */
    ghost function Names(): Option<seq<Node>>
      requires TreeOk(drv.tree)
      reads `path
    {
      match Walk(drv.cfg, drv.tree, path, 0, drv.base)
      case None => None
      case Some(host) => Some(NamesOf(drv.cfg, drv.tree, drv.base, host))
    }

    ghost predicate Valid()
      reads this, drv`count, drv`lastId, drv`issued, drv.root`members, Nodes(drv.root.Cycle())`next,
          Nodes(drv.root.Cycle())`prev, Nodes(drv.root.members)`f
    {
      && drv.Valid() && Plain(path)
      && match Names()
         case None => true
         case Some(names) =>
           Searchable(names) && OnCourse(find, passed, names, drv.issued)
    }

    /** Starts a search. */
    method SetPath(path: Name, pattern: Name, mask: set<Attribute>)
      requires drv.Valid() && Plain(path)
      requires match Walk(drv.cfg, drv.tree, path, 0, drv.base)
               case None => true
               case Some(host) => Searchable(NamesOf(drv.cfg, drv.tree, drv.base, host))
      modifies `path, `pattern, `mask, `find, `passed
      ensures Valid() && passed == 0 && this.path == path && this.pattern == pattern && this.mask == mask
    {
      hide Linked, Good, Steady, Walk, Reread;
      this.path, this.pattern, this.mask := path, pattern, mask;
      find, passed := START, 0;
      ghost var host := Walk(drv.cfg, drv.tree, path, 0, drv.base);
      if host.Some? {
        assert SteadyAt(drv.cfg, drv.tree, drv.base, host.value);
        SteadyNames(drv.cfg, drv.tree, host.value, host.value == drv.base + [SLASH], 0);
      }
    }

    /** Finds the next file: the first one that fits behind those passed. */
    method FindNext() returns (found: Option<Filename>)
      requires Valid()
      modifies `find, `passed, drv`count, drv`lastId, drv`next, drv`issued,
        drv.root`members, Nodes(drv.root.Cycle())`next, Nodes(drv.root.Cycle())`prev, Nodes(drv.root.Cycle())`f
      ensures Valid() && fresh(Nodes(drv.root.Cycle()) - old(Nodes(drv.root.Cycle())))
      ensures match Names()
              case None => found == None
              case Some(names) =>
                var k := NextFit(drv.cfg, pattern, mask, names, old(passed));
                if k == |names| then found == None && passed == k else found == Some(names[k].f) && passed == k + 1
    {
      hide Linked, Good, Steady, Walk, Listed, NextFit, StandsAt, ResumedAt, CountAt, Fits, OnCourse, Searchable;
      var p := drv.Find(path);
      if p == null {
        return None;
      }
      ghost var names := Names().value;
      OnCourseLater(find, passed, names, old(drv.issued), drv.issued);
      StandsIn(p.f);
      var k;
      k, find := FindFilenameWildcard(drv.cfg, p.f, pattern, mask, find, passed);
      found := if k == |p.f.names| then None else Some(p.f.names[k].f);
      passed := if k == |p.f.names| then k else k + 1;
      BackOnCourse(find, passed, names, drv.issued, p.f);
    }

    /** The search goes on in the directory as it is listed now. */
    lemma StandsIn(f: HostPath)
      requires TreeSteady(drv.cfg, drv.tree, drv.base) && Good(drv.cfg, drv.tree, drv.base, f, drv.issued)
      requires var names := NamesOf(drv.cfg, drv.tree, drv.base, f.host);
               Searchable(names) && OnCourse(find, passed, names, drv.issued)
      ensures var names := NamesOf(drv.cfg, drv.tree, drv.base, f.host);
              && SameFiles(f.names, names) && Sound(f.names) && passed <= |f.names|
              && (find.count > 0 && find.id == f.id ==> find.count == passed && find.pos == PlaceOf(f.names, passed))
              && ResumedAt(find, f.id, f.names, passed) == passed == CountAt(find, f.id, f.names)
              && NextFit(drv.cfg, pattern, mask, f.names, passed) == NextFit(drv.cfg, pattern, mask, names, passed)
      ensures f.names == [] || (f.id in drv.issued && drv.issued[f.id] == f.names)
    {
      assert TreeOk(drv.tree);
      hide Good, TreeSteady, TreeOk, StandsAt, Resumable, ResumedAt, CountAt, NextFit, NamesOf, EntriesDiffer;
      var names := NamesOf(drv.cfg, drv.tree, drv.base, f.host);
      DirectoryNames(f);
      StaysOnCourse(find, passed, names, drv.issued, f);
      ResumesInPlace(find, f.id, f.names, passed);
      AtPlace(find, f.id, f.names, passed);
      SameFits(drv.cfg, pattern, mask, f.names, names, passed);
    }

    lemma DirectoryNames(f: HostPath)
      requires TreeSteady(drv.cfg, drv.tree, drv.base) && Good(drv.cfg, drv.tree, drv.base, f, drv.issued)
      requires Searchable(NamesOf(drv.cfg, drv.tree, drv.base, f.host))
      ensures SameFiles(f.names, NamesOf(drv.cfg, drv.tree, drv.base, f.host)) && Sound(f.names)
      ensures f.names == [] || (f.id in drv.issued && drv.issued[f.id] == f.names)
    {
      hide Walk, Listed, Steady, Reread;
      assert SteadyAt(drv.cfg, drv.tree, drv.base, f.host);
      var next :| f.names == Listed(drv.cfg, drv.tree, f.host, IsRoot(f.human), next);
      SteadyNames(drv.cfg, drv.tree, f.host, IsRoot(f.human), next);
    }

    /** Anything else that goes through the same cache: other paths are resolved, directories are dropped or are to be
        read again. */
    method OtherLookups()
      requires Valid()
      modifies drv`count, drv`lastId, drv`next, drv`issued,
        drv.root`members, Nodes(drv.root.Cycle())`next, Nodes(drv.root.Cycle())`prev, Nodes(drv.root.Cycle())`f
      ensures Valid() && fresh(Nodes(drv.root.Cycle()) - old(Nodes(drv.root.Cycle()))) && Left() == old(Left())
    {
      hide Linked, Good, Steady, Walk, Listed, StandsAt, Searchable, AllFits;
      var n: nat := *;
      while n > 0
        invariant Valid() && fresh(Nodes(drv.root.Cycle()) - old(Nodes(drv.root.Cycle())))
      {
        OtherLookup();
        n := n - 1;
      }
    }

    method OtherLookup()
      requires Valid()
      modifies drv`count, drv`lastId, drv`next, drv`issued,
        drv.root`members, Nodes(drv.root.Cycle())`next, Nodes(drv.root.Cycle())`prev, Nodes(drv.root.Cycle())`f
      ensures Valid() && fresh(Nodes(drv.root.Cycle()) - old(Nodes(drv.root.Cycle())))
    {
      hide Linked, Good, Steady, Walk, Listed, StandsAt, Searchable, Sound, OnCourse;
      var other: Name := *;
      if Plain(other) {
        var _ := drv.Find(other);
      } else {
        drv.CleanCache();
      }
      ghost var names := Names();
      if names.Some? {
        OnCourseLater(find, passed, names.value, old(drv.issued), drv.issued);
      }
    }

    /** The files that are still to be found. */
    ghost function Left(): seq<Filename>
      requires Valid()
      reads this, drv`count, drv`lastId, drv`issued, drv.root`members, Nodes(drv.root.Cycle())`next,
          Nodes(drv.root.Cycle())`prev, Nodes(drv.root.members)`f
    {
      match Names()
      case None => []
      case Some(names) => AllFits(drv.cfg, pattern, mask, names, passed)
    }

    /** Finds the next file, if any is left. */
    method NFiles() returns (found: Option<Filename>)
      requires Valid()
      modifies `find, `passed, drv`count, drv`lastId, drv`next, drv`issued,
        drv.root`members, Nodes(drv.root.Cycle())`next, Nodes(drv.root.Cycle())`prev, Nodes(drv.root.Cycle())`f
      ensures Valid() && fresh(Nodes(drv.root.Cycle()) - old(Nodes(drv.root.Cycle())))
      ensures old(Left()) == match found case None => [] case Some(f) => [f] + Left()
    {
      hide Linked, Good, Steady, Walk, Listed, StandsAt, Searchable, Fits, NextFit, AllFits, Plain;
      ghost var names := Names();
      if names.Some? {
        NextIsFirst(drv.cfg, pattern, mask, names.value, passed);
      }
      found := FindNext();
    }

    /** At the start of a search, all the files that fit are left. */
    lemma LeftAtFirst()
      requires Valid() && passed == 0
      ensures Left() == match Names() case None => [] case Some(names) => AllFits(drv.cfg, pattern, mask, names, 0)
    {
    }

    /** Finds the next file, and then lets others use the cache. */
    method NFilesAmongOthers() returns (found: Option<Filename>)
      requires Valid()
      modifies `find, `passed, drv`count, drv`lastId, drv`next, drv`issued,
        drv.root`members, Nodes(drv.root.Cycle())`next, Nodes(drv.root.Cycle())`prev, Nodes(drv.root.Cycle())`f
      ensures Valid() && fresh(Nodes(drv.root.Cycle()) - old(Nodes(drv.root.Cycle())))
      ensures old(Left()) == match found case None => [] case Some(f) => [f] + Left()
    {
      hide Valid, Left, Names;
      found := NFiles();
      OtherLookups();
    }

    /** Finds all the files that are left, with other lookups after every call: each exactly once, in the order of the
        directory. */
    method SearchRest() returns (all: seq<Filename>)
      requires Valid()
      modifies `find, `passed, drv`count, drv`lastId, drv`next, drv`issued,
        drv.root`members, Nodes(drv.root.Cycle())`next, Nodes(drv.root.Cycle())`prev, Nodes(drv.root.Cycle())`f
      ensures Valid() && fresh(Nodes(drv.root.Cycle()) - old(Nodes(drv.root.Cycle())))
      ensures all == old(Left())
      decreases |Left()|
    {
      hide Valid, Left, Names;
      var found := NFilesAmongOthers();
      if found.None? {
        return [];
      }
      var rest := SearchRest();
      all := [found.value] + rest;
    }

    /** Searches a directory from start to end, with other lookups after every call. In a directory that
        can be searched every file that fits is found exactly once, in the order of the directory. */
    method SearchAll(path: Name, pattern: Name, mask: set<Attribute>) returns (all: seq<Filename>)
      requires drv.Valid() && Plain(path)
      requires match Walk(drv.cfg, drv.tree, path, 0, drv.base)
               case None => true
               case Some(host) => Searchable(NamesOf(drv.cfg, drv.tree, drv.base, host))
      modifies `path, `pattern, `mask, `find, `passed, drv`count, drv`lastId, drv`next, drv`issued,
        drv.root`members, Nodes(drv.root.Cycle())`next, Nodes(drv.root.Cycle())`prev, Nodes(drv.root.Cycle())`f
      ensures Valid() && fresh(Nodes(drv.root.Cycle()) - old(Nodes(drv.root.Cycle())))
      ensures all == match Walk(drv.cfg, drv.tree, path, 0, drv.base)
                     case None => []
                     case Some(host) => AllFits(drv.cfg, pattern, mask, NamesOf(drv.cfg, drv.tree, drv.base, host), 0)
    {
      hide Linked, Good, Steady, Walk, Listed, StandsAt, Searchable, AllFits;
      SetPath(path, pattern, mask);
      LeftAtFirst();
      all := SearchRest();
    }
  }
}
