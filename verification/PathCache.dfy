/** The drive: a cache of up to 16 directories on a ring, the latest used first, through which paths are resolved. */
module PathCaches {
  import opened Bytes
  import opened HumanNames
  import opened NameCompares
  import opened Rings
  import opened Directories
  import opened Paths
  import opened Singles

  const CACHE_MAX: nat := 16

  /** A host directory on which a refresh shows no effect: its names differ, and if there is just one entry, it keeps
      its name. */
  predicate Steady(cfg: Config, tree: Tree, host: Name, root: bool)
    requires TreeOk(tree)
  {
    && OwnNames(Visible(Listing(tree, host), root))
    && (|Listed(cfg, tree, host, root, 0)| == 1 ==> KeptAlone(cfg, Listing(tree, host), root))
  }

  /** A host directory on which a refresh has no effect at all: there is not just one entry, and the names are split as
      a look at them shows. */
  predicate Stable(cfg: Config, tree: Tree, host: Name, root: bool)
    requires TreeOk(tree)
  {
    |Listed(cfg, tree, host, root, 0)| != 1 && StableSplit(Listed(cfg, tree, host, root, 0))
  }

  /** The directories of the host as the drive shows them, the one at `base` being its root. */
  ghost predicate TreeSteady(cfg: Config, tree: Tree, base: Name) {
    TreeOk(tree) && forall host :: SteadyAt(cfg, tree, base, host)
  }

  predicate SteadyAt(cfg: Config, tree: Tree, base: Name, host: Name)
    requires TreeOk(tree)
  {
    Steady(cfg, tree, host, host == base + [SLASH])
  }

  /** The names are those of the host directory, as first read with nodes allocated somewhere. */
  ghost predicate Built(cfg: Config, tree: Tree, names: seq<Node>, host: Name, root: bool)
    requires TreeOk(tree)
  {
    exists next :: names == Listed(cfg, tree, host, root, next)
  }

  /** The names show what the host directory lists, and if it is stable, they are a first reading of it. */
  ghost predicate Shows(cfg: Config, tree: Tree, names: seq<Node>, host: Name, root: bool)
    requires TreeOk(tree)
  {
    && SameOrTwice(names, Listed(cfg, tree, host, root, 0))
    && (Stable(cfg, tree, host, root) ==> Built(cfg, tree, names, host, root))
  }

  /** A cached directory is the one to which its Human68k path leads, and its identifier stands for its names. */
  ghost predicate Good(cfg: Config, tree: Tree, base: Name, f: HostPath, issued: map<nat, seq<Node>>)
    requires TreeOk(tree)
  {
    && Leads(cfg, tree, base, f.human, f.host)
    && Shows(cfg, tree, f.names, f.host, IsRoot(f.human))
    && (f.names == [] || (f.id in issued && issued[f.id] == f.names))
  }

  ghost predicate Leads(cfg: Config, tree: Tree, base: Name, human: Name, host: Name)
    requires TreeOk(tree)
  {
    && Plain(human) && human != [] && human[0] == SLASH && (IsRoot(human) <==> host == base + [SLASH])
    && Walk(cfg, tree, human, 0, base) == Some(host)
  }

  /** Paths that look alike lead to the same place. */
  lemma AlikeLead(cfg: Config, tree: Tree, base: Name, p: Name, q: Name, host: Name)
    requires TreeOk(tree) && Leads(cfg, tree, base, p, host) && Plain(q) && Alike(cfg, p, q)
    ensures Walk(cfg, tree, q, 0, base) == Some(host)
  {
    AlikeWalk(cfg, tree, p, q, 0, base);
  }

  lemma {:induction false} UnchangedIsEmpty(cfg: Config, files: set<Name>, listing: seq<HostEntry>, next: nat)
    requires ListingOk(listing)
    ensures First(cfg, files, listing, next).changed || First(cfg, files, listing, next).list == []
    ensures First(cfg, files, listing, next).cache == []
  {
    hide NameFor, WellFormed, Packed;
    FirstCache(cfg, files, listing, next);
    if listing != [] {
      UnchangedIsEmpty(cfg, files, listing[..|listing| - 1], next);
    }
  }

  /** A refresh shows what the directory lists. Unless it gives a new identifier, the names are the old ones. */
  lemma RefreshBuilds(cfg: Config, tree: Tree, names: seq<Node>, next: nat, host: Name, root: bool)
    requires TreeOk(tree) && Steady(cfg, tree, host, root) && (names == [] || Shows(cfg, tree, names, host, root))
    ensures var r := Reread(cfg, names, next, Listing(tree, host), root);
            && Shows(cfg, tree, r.list, host, root) && (!r.changed ==> r.list == names)
  {
    hide Reread, Steady, SameView, StableSplit, KeptAlone;
    var listing := Listing(tree, host);
    SteadyListing(cfg, tree, host, root);
    SteadyNames(cfg, tree, host, root, next);
    if names == [] {
      FirstIsListed(cfg, tree, host, root, next);
    } else if |Listed(cfg, tree, host, root, 0)| == 1 {
      SteadySingle(cfg, tree, names, next, host, root);
    } else {
      SameLength(names, Listed(cfg, tree, host, root, 0));
      RefreshShowsSame(cfg, listing, root, names, next);
      if Stable(cfg, tree, host, root) {
        var n :| names == Listed(cfg, tree, host, root, n);
        SteadyNames(cfg, tree, host, root, n);
        RefreshKeeps(cfg, listing, root, n, next);
      }
    }
  }

  /** A single entry is listed once and twice by turns. */
  lemma SteadySingle(cfg: Config, tree: Tree, names: seq<Node>, next: nat, host: Name, root: bool)
    requires TreeOk(tree) && Steady(cfg, tree, host, root) && |Listed(cfg, tree, host, root, 0)| == 1
    requires SameOrTwice(names, Listed(cfg, tree, host, root, 0))
    ensures var r := Reread(cfg, names, next, Listing(tree, host), root);
            SameOrTwice(r.list, Listed(cfg, tree, host, root, 0)) && r.changed
  {
    hide Reread, KeptAlone, Visible, OwnNames;
    if |names| == 1 {
      SingleIsTransparent(cfg, Listing(tree, host), root, 0, names, next);
    } else {
      TwoBecomeOne(cfg, Listing(tree, host), root, 0, names, next);
    }
  }

  lemma SteadyListing(cfg: Config, tree: Tree, host: Name, root: bool)
    requires TreeOk(tree) && Steady(cfg, tree, host, root)
    ensures ListingOk(Listing(tree, host)) && OwnNames(Visible(Listing(tree, host), root))
  {
  }

  lemma FirstIsListed(cfg: Config, tree: Tree, host: Name, root: bool, next: nat)
    requires TreeOk(tree) && ListingOk(Listing(tree, host))
    ensures var r := Reread(cfg, [], next, Listing(tree, host), root);
            r.list == Listed(cfg, tree, host, root, next) && (!r.changed ==> r.list == [])
  {
    var listing := Listing(tree, host);
    VisibleIsListed(listing, root);
    UnchangedIsEmpty(cfg, Real(listing), Visible(listing, root), next);
  }

  lemma SteadyNames(cfg: Config, tree: Tree, host: Name, root: bool, next: nat)
    requires TreeOk(tree) && Steady(cfg, tree, host, root)
    ensures var names, names0 := Listed(cfg, tree, host, root, next), Listed(cfg, tree, host, root, 0);
            && (Stable(cfg, tree, host, root) ==> StableSplit(names) && |names| != 1)
            && SameFiles(names, names0) && SameView(names, names0)
            && Allocated(names, next, Reread(cfg, [], next, Listing(tree, host), root).next)
  {
    var listing := Listing(tree, host);
    VisibleIsListed(listing, root);
    SameListing(cfg, Real(listing), Visible(listing, root), next, 0);
    ListingAllocates(cfg, Real(listing), Visible(listing, root), next);
  }

  class CHostDrv {
    const cfg: Config
    const tree: Tree
    const base: Name
    const root: CRing<HostPath>
    var count: nat
    /** The latest identifier, and the next address for a node. */
    var lastId: nat
    var next: nat
    /** The names that each identifier was given for. */
    ghost var issued: map<nat, seq<Node>>

    ghost predicate Structure()
      reads `count, root`members, Nodes(root.Cycle())`next, Nodes(root.Cycle())`prev
    {
      root.Valid() && count == |root.members| <= CACHE_MAX && TreeSteady(cfg, tree, base)
    }

    /** Every directory in the cache is good, and no identifier is above the latest. */
    ghost predicate Contented()
      requires TreeOk(tree)
      reads `lastId, `issued, root`members, Nodes(root.members)`f
    {
      && (forall p :: p in root.members ==> Good(cfg, tree, base, p.f, issued))
      && (forall id :: id in issued ==> id <= lastId)
    }

    ghost predicate Valid()
      reads `count, `lastId, `issued, root`members, Nodes(root.Cycle())`next, Nodes(root.Cycle())`prev,
          Nodes(root.members)`f
    {
      Structure() && Contented()
    }

    constructor (cfg: Config, tree: Tree, base: Name)
      requires TreeSteady(cfg, tree, base)
      ensures Valid() && fresh(Nodes(root.Cycle())) && root.members == []
      ensures this.cfg == cfg && this.tree == tree && this.base == base
    {
      this.cfg, this.tree, this.base := cfg, tree, base;
      root := new CRing(HostPath([], [], true, 0, []));
      count, lastId, next := 0, 0, 0;
      issued := map[];
    }

    /** Looks for a directory under a path that looks like this one. */
    method FindCache(human: Name) returns (p: CRing?<HostPath>)
      requires root.Valid()
      ensures p != null ==> p in root.members && Same(cfg, p.f.human, human)
      ensures p == null ==> forall q :: q in root.members ==> !Same(cfg, q.f.human, human)
    {
      hide Matches;
      Ends(root);
      MembersApart(root);
      p := root.next;
      ghost var k := 0;
      while p != root
        invariant root.Valid() && k <= |root.members| && p == if k < |root.members| then root.members[k] else root
        invariant forall i :: 0 <= i < k ==> !Same(cfg, root.members[i].f.human, human)
        decreases |root.members| - k
      {
        if |p.f.human| == |human| {
          var r := Compare(cfg.alphabet, p.f.human, human);
          if r == 0 {
            return;
          }
        }
        NextOf(root, k);
        p := p.next;
        k := k + 1;
      }
      p := null;
    }

    /** Reads the host directory of a path into the cache again. */
    method Refresh(p: CRing<HostPath>)
      requires TreeSteady(cfg, tree, base) && Leads(cfg, tree, base, p.f.human, p.f.host)
      requires p.f.names == [] || Good(cfg, tree, base, p.f, issued)
      requires forall id :: id in issued ==> id <= lastId
      modifies p`f, `lastId, `next, `issued
      ensures Good(cfg, tree, base, p.f, issued) && !p.f.refresh
      ensures p.f.human == old(p.f).human && p.f.host == old(p.f).host
      ensures forall id :: id in issued ==> id <= lastId
      ensures Issued()
      ensures forall f :: Good(cfg, tree, base, f, old(issued)) ==> Good(cfg, tree, base, f, issued)
    {
      hide Walk, Reread, Steady, WellFormed;
      assert SteadyAt(cfg, tree, base, p.f.host);
      RefreshBuilds(cfg, tree, p.f.names, next, p.f.host, IsRoot(p.f.human));
      SteadyListing(cfg, tree, p.f.host, IsRoot(p.f.human));
      var id;
      id, next := Directories.Refresh(cfg, p, Listing(tree, p.f.host), lastId, next);
      if id != lastId {
        issued := issued[id := p.f.names];
        lastId := id;
      }
    }

    /** All identifiers issued before still stand for the same names. */
    twostate predicate Issued()
      reads `issued
    {
      forall id :: id in old(issued) ==> id in issued && issued[id] == old(issued)[id]
    }

    /** A node for a directory that is not in the cache: a new one, or the one that was used least recently. */
    method Renew(human: Name, host: Name) returns (p: CRing<HostPath>, ghost home: CRing<HostPath>)
      requires Valid() && Leads(cfg, tree, base, human, host)
      modifies `count, `lastId, `next, `issued, Nodes(root.Cycle())`f
      ensures root.Valid() && root.members == old(root.members) && Contented()
      ensures Issued()
      ensures home == root <==> old(count) == CACHE_MAX
      ensures home == root ==> p == root.members[CACHE_MAX - 1]
      ensures if home == root then p in root.members && count == old(count)
              else home == p && fresh(p) && p.members == [] && p.Valid() && count == old(count) + 1 <= CACHE_MAX
      ensures Good(cfg, tree, base, p.f, issued) && p.f.host == host && p.f.human == human && !p.f.refresh
    {
      hide Good, Leads, Steady, Linked;
      p, home := Blank();
      assert home != root ==> Nodes(p.Cycle()) == {p};
      p.f := p.f.(human := human, host := host);
      Refresh(p);
    }

    /** A node without names. */
    method Blank() returns (p: CRing<HostPath>, ghost home: CRing<HostPath>)
      requires root.Valid() && count == |root.members| <= CACHE_MAX
      modifies `count, Nodes(root.Cycle())`f
      ensures root.Valid() && root.members == old(root.members) && p.f.names == []
      ensures forall q :: q in root.members && q != p ==> q.f == old(q.f)
      ensures home == root <==> old(count) == CACHE_MAX
      ensures home == root ==> p == root.members[CACHE_MAX - 1]
      ensures if home == root then p in root.members && count == old(count)
              else home == p && fresh(p) && p.members == [] && p.Valid() && count == old(count) + 1 <= CACHE_MAX
    {
      MembersApart(root);
      if count >= CACHE_MAX {
        Ends(root);
        p, home := root.prev, root;
        assert p == root.members[|root.members| - 1];
        p.f := p.f.(refresh := true, names := []);
      } else {
        p := new CRing(HostPath([], [], true, 0, []));
        home := p;
        count := count + 1;
      }
    }

    /** Moves a directory to the front of the ring. */
    method ToFront(p: CRing<HostPath>, ghost home: CRing<HostPath>)
      requires root.Valid() && TreeOk(tree) && Contented() && Good(cfg, tree, base, p.f, issued)
      requires if home == root then p in root.members
               else home == p && p.members == [] && p.Valid() && p !in root.Cycle()
      modifies root`members, Nodes(root.Cycle())`next, Nodes(root.Cycle())`prev, p`next, p`prev, home`members
      ensures root.Valid() && Contented() && root.members == [p] + Without(old(root.members), p)
      ensures |root.members| == |old(root.members)| + if home == root then 0 else 1
      ensures Nodes(root.Cycle()) == old(Nodes(root.Cycle())) + {p}
    {
      hide Linked, Good;
      ghost var nodes := root.members;
      MembersApart(root);
      WithoutIsSmaller(nodes, p);
      if home != root {
        assert Nodes(p.Cycle()) == {p};
        Strangers(p, root);
      }
      InFront(root, nodes, p);
      p.Insert(root, home);
    }

    lemma InFront(root: CRing<HostPath>, nodes: seq<CRing<HostPath>>, p: CRing<HostPath>)
      ensures var rest := Without(nodes, p);
              && |[p] + rest| == |nodes| + (if p in nodes then 0 else 1)
              && Nodes([root] + ([p] + rest)) == Nodes([root] + nodes) + {p}
    {
      WithoutIsSmaller(nodes, p);
    }

    /** The directory that a path leads to, from the cache or else read into it, at the front of the ring. */
    method Visit(human: Name, host: Name) returns (p: CRing<HostPath>)
      requires Valid() && Leads(cfg, tree, base, human, host)
      modifies `count, `lastId, `next, `issued, root`members, Nodes(root.Cycle())`next, Nodes(root.Cycle())`prev,
          Nodes(root.Cycle())`f
      ensures Valid() && fresh(Nodes(root.Cycle()) - old(Nodes(root.Cycle()))) && Issued()
      ensures root.members != [] && p == root.members[0] && p.f.host == host && !p.f.refresh
              && IsRoot(p.f.human) == IsRoot(human)
    {
      hide Linked, Good, Leads, Steady, Matches;
      var found := FindCache(human);
      ghost var home := root;
      if found == null {
        p, home := Renew(human, host);
      } else {
        p := found;
        FoundLeads(p.f, human, host);
      }
      if p.f.refresh {
        Refresh(p);
      }
      ToFront(p, home);
    }

    lemma FoundLeads(f: HostPath, human: Name, host: Name)
      requires TreeOk(tree) && Good(cfg, tree, base, f, issued) && Same(cfg, f.human, human)
               && Leads(cfg, tree, base, human, host)
      ensures f.host == host && IsRoot(f.human) == IsRoot(human) && Leads(cfg, tree, base, f.human, f.host)
    {
      PlainMatch(cfg.alphabet, f.human, human, false);
      AlikeLead(cfg, tree, base, f.human, human, f.host);
    }

    /** Splits the first component off a path: where it ends, unless it is not valid. */
    method SeparateCopyFilename(path: Name) returns (end: Option<nat>)
      ensures end == Separated(path)
    {
      if path == [] || !Separator(path[0]) {
        return None;
      }
      var p, taken := 1, 0;
      assert Separated(path) == EndFrom(path, p, taken);
      hide EndFrom, Separated;
      while p < |path| && !Separator(path[p])
        invariant 1 <= p <= |path| && Separated(path) == EndFrom(path, p, taken)
        decreases |path| - p
      {
        EndFromNext(path, p, taken);
        var c := path[p];
        if taken >= NAME_MAX {
          return None;
        }
        p, taken := p + 1, taken + 1;
        if Lead(c) {
          if p == |path| || path[p] < 0x40 || taken >= NAME_MAX {
            return None;
          }
          p, taken := p + 1, taken + 1;
        }
      }
      EndFromNext(path, p, taken);
      end := if p < |path| && taken == 0 then None else Some(p);
    }

    /** Takes one component of a path: reads the directory it is in, and looks it up there. */
    method Descend(human: Name, host: Name, rest: Name) returns (p: CRing?<HostPath>, step: Step, name: Name)
      requires Valid() && OnTheWay(human, host) && Plain(rest)
      modifies `count, `lastId, `next, `issued, root`members, Nodes(root.Cycle())`next, Nodes(root.Cycle())`prev,
          Nodes(root.Cycle())`f
      ensures Valid() && fresh(Nodes(root.Cycle()) - old(Nodes(root.Cycle()))) && Issued()
      ensures step == WalkStep(cfg, tree, rest, |human|, host)
      ensures step.Stop? && step.result.Some? ==>
          p != null && p in root.members && p.f.host == step.result.value && !p.f.refresh
      ensures step.Go? ==> Separated(rest).Some? && name == rest[1..Separated(rest).value]
    {
      hide Linked, Good, SteadyAt, Walk, WalkStep, Separated, FindIndex, Leads, OnTheWay, Looked;
      p, step, name := null, Stop(None), [];
      EndsEarly(human, host, rest);
      if |human| + 1 >= HUMAN_PATH_MAX || |host| + 1 >= HOST_PATH_MAX {
        return;
      }
      var end := SeparateCopyFilename(rest);
      if end.None? {
        return;
      }
      name := rest[1..end.value];
      if |human| + 1 + |name| >= HUMAN_PATH_MAX {
        return;
      }
      DirectoryLeads(human, host);
      p := Visit(human + [SLASH], host + [SLASH]);
      LooksUp(p.f, human, host, rest);
      if name == [] {
        step := Stop(Some(host + [SLASH]));
        return;
      }
      var mask := if rest[end.value..] == [] then ANY else {Directory};
      var k := FindFilename(cfg, p.f.names, name, mask);
      step := Looked(p.f.names, k, name, rest[end.value..], |human| + 1, host + [SLASH]);
      LookedInto(p.f.names, k, name, rest[end.value..], |human| + 1, host + [SLASH]);
    }

    /** A path that is too long or not valid ends the walk. */
    lemma EndsEarly(human: Name, host: Name, rest: Name)
      requires TreeOk(tree)
      ensures (|human| + 1 >= HUMAN_PATH_MAX || |host| + 1 >= HOST_PATH_MAX || Separated(rest).None?
               || |human| + Separated(rest).value >= HUMAN_PATH_MAX) ==>
                   WalkStep(cfg, tree, rest, |human|, host) == Stop(None)
    {
      hide Listed, Separated, FindIndex;
    }

    /** Looking into the directory as it is in the cache is as good as reading it afresh. */
    lemma LooksUp(f: HostPath, human: Name, host: Name, rest: Name)
      requires TreeOk(tree) && Good(cfg, tree, base, f, issued)
      requires f.host == host + [SLASH] && IsRoot(f.human) == (|human| == 0) && Separated(rest).Some?
      requires |human| + 1 < HUMAN_PATH_MAX && |host| + 1 < HOST_PATH_MAX
               && |human| + Separated(rest).value < HUMAN_PATH_MAX
      ensures var end := Separated(rest).value;
              var name, more := rest[1..end], rest[end..];
              var k := FindIndex(cfg, f.names, name,
                   if more == [] then ANY else {Directory});
              WalkStep(cfg, tree, rest, |human|, host) ==
                if name == [] then Stop(Some(host + [SLASH]))
                else Looked(f.names, k, name, more, |human| + 1, host + [SLASH])
    {
      hide Listed, Separated, FindIndex, Leads, SameOrTwice;
      var end := Separated(rest).value;
      var name, more := rest[1..end], rest[end..];
      ShownIsFound(cfg, f.names, Listed(cfg, tree, host + [SLASH], |human| == 0, 0), name,
                   if more == [] then ANY else {Directory});
    }

    lemma LookedInto(names: seq<Node>, k: nat, name: Name, rest: Name, depth: nat, dir: Name)
      requires k <= |names|
      ensures var step := Looked(names, k, name, rest, depth, dir);
              step.Stop? && step.result.Some? ==> step.result == Some(dir)
    {
    }

    function Looked(names: seq<Node>, k: nat, name: Name, rest: Name, depth: nat, dir: Name): Step
      requires k <= |names|
    {
      if k == |names| || |dir| + |names[k].f.host| >= HOST_PATH_MAX then Stop(None)
      else if rest == [] then Stop(Some(dir))
      else Go(rest, depth + |name|, dir + names[k].f.host)
    }

    /** A path with valid components so far, and the host path it has led to, neither with a slash at its end. */
    ghost predicate OnTheWay(human: Name, host: Name)
      requires TreeOk(tree)
    {
      && Reaches(cfg, tree, base, human, host) && Plain(human)
      && if human == [] then host == base else human[0] == SLASH && |host| > |base|
    }

    lemma DirectoryLeads(human: Name, host: Name)
      requires TreeOk(tree) && OnTheWay(human, host)
      requires |human| + 1 < HUMAN_PATH_MAX && |host| + 1 < HOST_PATH_MAX
      ensures Leads(cfg, tree, base, human + [SLASH], host + [SLASH]) && (IsRoot(human + [SLASH]) <==> |human| == 0)
    {
      ReachesDirectory(cfg, tree, base, human, host);
    }

    /** What a path leads to is at hand: in the cache and up to date. */
    ghost predicate Resolves(path: Name, p: CRing?<HostPath>)
      requires TreeOk(tree)
      reads root`members, Nodes(root.members)`f
    {
      match Walk(cfg, tree, path, 0, base)
      case None => p == null
      case Some(host) => p != null && p in root.members && p.f.host == host && !p.f.refresh
    }

    /** Follows a path from the root, component by component, with every directory on the way in the cache. */
    method MakeCache(path: Name) returns (p: CRing?<HostPath>)
      requires Valid() && Plain(path)
      modifies `count, `lastId, `next, `issued, root`members, Nodes(root.Cycle())`next, Nodes(root.Cycle())`prev,
          Nodes(root.Cycle())`f
      ensures Valid() && fresh(Nodes(root.Cycle()) - old(Nodes(root.Cycle()))) && Issued() && Resolves(path, p)
    {
      hide Linked, Good, Steady, WalkStep, Separated, Reaches, OnTheWay;
      ReachesBase(cfg, tree, base);
      StartOfTheWay();
      var human: Name, host, rest := [], base, path;
      while true
        invariant Valid() && fresh(Nodes(root.Cycle()) - old(Nodes(root.Cycle()))) && Issued()
        invariant Walk(cfg, tree, path, 0, base) == Walk(cfg, tree, rest, |human|, host)
        invariant OnTheWay(human, host) && Plain(rest)
        decreases |rest|
      {
        var step, name;
        p, step, name := Descend(human, host, rest);
        match step {
          case Stop(result) =>
            if result.None? {
              p := null;
            }
            return;
          case Go(more, _, host') =>
            FurtherOn(human, host, rest);
            human, host, rest := human + [SLASH] + name, host', more;
        }
      }
    }

    lemma StartOfTheWay()
      requires TreeOk(tree) && Reaches(cfg, tree, base, [], base)
      ensures OnTheWay([], base)
    {
    }

    lemma FurtherOn(human: Name, host: Name, rest: Name)
      requires TreeOk(tree) && OnTheWay(human, host) && Plain(rest) && WalkStep(cfg, tree, rest, |human|, host).Go?
      ensures Separated(rest).Some?
      ensures var step := WalkStep(cfg, tree, rest, |human|, host);
              var human' := human + [SLASH] + rest[1..Separated(rest).value];
              step.depth == |human'| && OnTheWay(human', step.host) && Plain(step.rest)
    {
      hide Listed, FindIndex, Separated, Reaches;
      ReachesOn(cfg, tree, base, human, host, rest);
    }

    /** Looks for the whole path in the cache. */
    method CopyCache(path: Name) returns (p: CRing?<HostPath>)
      requires Valid() && Plain(path)
      modifies root`members, Nodes(root.Cycle())`next, Nodes(root.Cycle())`prev
      ensures Valid() && Nodes(root.Cycle()) == old(Nodes(root.Cycle()))
      ensures p != null ==> Resolves(path, p) && root.members != [] && p == root.members[0]
    {
      hide Linked, Steady, Matches, Walk;
      p := FindCache(path);
      if p == null {
        return;
      }
      PlainMatch(cfg.alphabet, p.f.human, path, false);
      AlikeLead(cfg, tree, base, p.f.human, path, p.f.host);
      assert p in Nodes(root.Cycle());
      ToFront(p, root);
      if p.f.refresh {
        p := null;
      }
    }

    /** Goes round the ring and marks all directories to be read again. */
    method MarkAll()
      requires root.Valid()
      modifies Nodes(root.Cycle())`f
      ensures root.Valid() && forall p :: p in root.members ==> p.f == old(p.f).(refresh := true)
    {
      hide Linked;
      Ends(root);
      MembersApart(root);
      var p := root.next;
      ghost var k := 0;
      while p != root
        invariant root.Valid() && k <= |root.members| && p == if k < |root.members| then root.members[k] else root
        invariant forall i :: 0 <= i < k ==> root.members[i].f == old(root.members[i].f).(refresh := true)
        invariant forall i :: k <= i < |root.members| ==> root.members[i].f == old(root.members[i].f)
        decreases |root.members| - k
      {
        NextOf(root, k);
        p.f := p.f.(refresh := true);
        p := p.next;
        k := k + 1;
      }
    }

    /** Marks all directories to be read again, which changes nothing else. */
    method CleanCache()
      requires Valid()
      modifies Nodes(root.Cycle())`f
      ensures Valid() && forall p :: p in root.members ==> p.f == old(p.f).(refresh := true)
    {
      hide Linked, Good, SteadyAt;
      MarkAll();
      forall p | p in root.members ensures Good(cfg, tree, base, p.f, issued) {
        GoodWhenMarked(old(p.f));
      }
    }

    lemma GoodWhenMarked(f: HostPath)
      requires TreeOk(tree) && Good(cfg, tree, base, f, issued)
      ensures Good(cfg, tree, base, f.(refresh := true), issued)
    {
      hide Leads, Shows;
    }

    /** Resolves a path: to the directory that a walk through all its components, each read afresh, would find, whatever
        was looked up before. */
    method Find(path: Name) returns (p: CRing?<HostPath>)
      requires Valid() && Plain(path)
      modifies `count, `lastId, `next, `issued, root`members, Nodes(root.Cycle())`next, Nodes(root.Cycle())`prev,
          Nodes(root.Cycle())`f
      ensures Valid() && fresh(Nodes(root.Cycle()) - old(Nodes(root.Cycle()))) && Issued() && Resolves(path, p)
    {
      hide Linked, Good, Steady, Walk;
      p := CopyCache(path);
      if p == null {
        p := MakeCache(path);
        if p == null {
          CleanCache();
        }
      }
    }

    /** Resolves a path and looks a file up in its directory: the host path and the entry are those that reading
        everything afresh would give, down to the whole directory entry if a refresh does not affect the directory at
        all. */
    method FindFile(path: Name, name: Name, mask: set<Attribute>)
        returns (found: Option<Filename>, result: Option<Name>)
      requires Valid() && Plain(path)
      modifies `count, `lastId, `next, `issued, root`members, Nodes(root.Cycle())`next, Nodes(root.Cycle())`prev,
          Nodes(root.Cycle())`f
      ensures Valid() && fresh(Nodes(root.Cycle()) - old(Nodes(root.Cycle()))) && Issued()
      ensures LookedUp(Walk(cfg, tree, path, 0, base), name, mask, found, result)
    {
      hide Linked, Good, Steady, Walk, FindIndex;
      found, result := None, None;
      var p := Find(path);
      if p == null {
        return;
      }
      FreshNames(p.f, name, mask);
      var k := FindFilename(cfg, p.f.names, name, mask);
      if k < |p.f.names| {
        found, result := Some(p.f.names[k].f), Some(p.f.host + p.f.names[k].f.host);
      }
    }

    /** What a look into the host directory gives. */
    ghost predicate LookedUp(host: Option<Name>, name: Name, mask: set<Attribute>, found: Option<Filename>,
        result: Option<Name>)
      requires TreeOk(tree)
    {
      match host
      case None => found == None && result == None
      case Some(dir) =>
        var root := dir == base + [SLASH];
        var names := Listed(cfg, tree, dir, root, 0);
        var k := FindIndex(cfg, names, name, mask);
        if k == |names| then found == None && result == None
        else
          && found.Some? && Alikes(found.value, names[k].f) && result == Some(dir + names[k].f.host)
          && (Stable(cfg, tree, dir, root) ==> found.value == names[k].f)
    }

    lemma FreshNames(f: HostPath, name: Name, mask: set<Attribute>)
      requires TreeSteady(cfg, tree, base) && Good(cfg, tree, base, f, issued)
      ensures var k := FindIndex(cfg, f.names, name, mask);
              LookedUp(Some(f.host), name, mask, if k < |f.names| then Some(f.names[k].f) else None,
                       if k < |f.names| then Some(f.host + f.names[k].f.host) else None)
    {
      hide Walk, Reread, Steady, FindIndex, SameOrTwice, StableSplit;
      var root := IsRoot(f.human);
      ShownIsFound(cfg, f.names, Listed(cfg, tree, f.host, root, 0), name, mask);
      if Stable(cfg, tree, f.host, root) {
        assert SteadyAt(cfg, tree, base, f.host);
        var next :| f.names == Listed(cfg, tree, f.host, root, next);
        SteadyNames(cfg, tree, f.host, root, next);
      }
    }
  }
}
