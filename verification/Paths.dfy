/** Human68k paths, and where a walk through the host directories leads, component by component. */
module Paths {
  import opened Bytes
  import opened HumanNames
  import opened NameCompares
  import opened Rings
  import opened Directories

  const HUMAN_PATH_MAX: nat := 96
  const HOST_PATH_MAX: nat := 260
  const NAME_MAX: nat := 22

  predicate Separator(c: byte) {
    c == SLASH || c == BACKSLASH
  }

  /** The number of bytes up to the next separator, or nothing if they are no valid name; `taken` of the name are
      before. */
  function NameLength(s: Name, taken: nat): (r: Option<nat>)
    ensures r.Some? ==> r.value <= |s|
    decreases |s|
  {
    if s == [] then Some(0)
    else if Separator(s[0]) then if taken == 0 then None else Some(0)
    else if taken >= NAME_MAX then None
    else if Lead(s[0]) then
      if |s| < 2 || s[1] < 0x40 || taken + 1 >= NAME_MAX then None
      else match NameLength(s[2..], taken + 2) case None => None case Some(n) => Some(n + 2)
    else match NameLength(s[1..], taken + 1) case None => None case Some(n) => Some(n + 1)
  }

  /** Where the first component of a path ends. */
  function Separated(path: Name): (r: Option<nat>)
    ensures r.Some? ==> 1 <= r.value <= |path| && Separator(path[0])
  {
    if path == [] || !Separator(path[0]) then None
    else match NameLength(path[1..], 0) case None => None case Some(n) => Some(n + 1)
  }

  /** Where the component ends of which `taken` bytes are before `p`. */
  function EndFrom(path: Name, p: nat, taken: nat): Option<nat>
    requires p <= |path|
  {
    match NameLength(path[p..], taken) case None => None case Some(n) => Some(p + n)
  }

  lemma EndFromNext(path: Name, p: nat, taken: nat)
    requires p <= |path|
    ensures EndFrom(path, p, taken) ==
            if p == |path| then Some(p)
            else if Separator(path[p]) then if taken == 0 then None else Some(p)
            else if taken >= NAME_MAX then None
            else if Lead(path[p]) then
              if p + 1 == |path| || path[p + 1] < 0x40 || taken + 1 >= NAME_MAX then None
              else EndFrom(path, p + 2, taken + 2)
            else EndFrom(path, p + 1, taken + 1)
  {
    var s := path[p..];
    assert p < |path| ==> s[1..] == path[p + 1..];
    assert p + 1 < |path| ==> s[2..] == path[p + 2..];
  }

  /** The directories of the host, by their paths. */
  type Tree = map<Name, seq<HostEntry>>

  function Listing(tree: Tree, host: Name): seq<HostEntry> {
    if host in tree then tree[host] else []
  }

  predicate TreeOk(tree: Tree) {
    forall host :: host in tree ==> ListingOk(tree[host])
  }

  /** What a first reading of a host directory lists. */
  function Listed(cfg: Config, tree: Tree, host: Name, root: bool, next: nat): seq<Node>
    requires TreeOk(tree)
  {
    Reread(cfg, [], next, Listing(tree, host), root).list
  }

  /** One component: it ends the walk, with the host path of a directory or in failure, or it leads on. */
  datatype Step = Stop(result: Option<Name>) | Go(rest: Name, depth: nat, host: Name)

  /** Walks one component of a path from a host directory on; `depth` bytes of Human68k path are behind. */
  function WalkStep(cfg: Config, tree: Tree, path: Name, depth: nat, host: Name): (s: Step)
    requires TreeOk(tree)
    ensures s.Go? ==> |s.rest| < |path|
  {
    var end := Separated(path);
    if depth + 1 >= HUMAN_PATH_MAX || |host| + 1 >= HOST_PATH_MAX || end.None? then Stop(None)
    else
      Enter(cfg, Listed(cfg, tree, host + [SLASH], depth == 0, 0), path[1..end.value], path[end.value..], depth + 1,
          host + [SLASH])
  }

  /** Looks a name up in the directory `dir`, with `rest` still to come. */
  function Enter(cfg: Config, names: seq<Node>, name: Name, rest: Name, depth: nat, dir: Name): (s: Step)
    ensures s.Go? ==> s.rest == rest
  {
    if depth + |name| >= HUMAN_PATH_MAX then Stop(None)
    else if name == [] then Stop(Some(dir))
    else
      var k := FindIndex(cfg, names, name, if rest == [] then ANY else {Directory});
      if k == |names| || |dir| + |names[k].f.host| >= HOST_PATH_MAX then Stop(None)
      else if rest == [] then Stop(Some(dir))
      else Go(rest, depth + |name|, dir + names[k].f.host)
  }

  /** Entry `k` is the first one, of directories only if there is more to come, with a name that fits at every place. */
  predicate IsFirstNamed(cfg: Config, names: seq<Node>, name: Name, more: bool, k: nat) {
    k < |names| && IsNamed(cfg, names[k], name, more) && forall i :: 0 <= i < k ==> !IsNamed(cfg, names[i], name, more)
  }

  predicate IsNamed(cfg: Config, n: Node, name: Name, more: bool) {
    && (more ==> Directory in n.f.dirent.attr) && |n.f.human| == |name|
    && forall i :: 0 <= i < |name| ==> FitsAt(cfg.alphabet, name, n.f.human, i)
  }

  /** A component leads on into the first directory of its name, and the last one stays where it is if there is any
      entry of its name. */
  lemma EnterTakesFirst(cfg: Config, names: seq<Node>, name: Name, rest: Name, depth: nat, dir: Name)
    requires forall n :: n in names ==> n.f.dirent.attr * ANY != {}
    ensures var s := Enter(cfg, names, name, rest, depth, dir);
            && (s == Stop(Some(dir)) <==>
                  depth + |name| < HUMAN_PATH_MAX
                    && (name == [] || (rest == [] && LeadsOn(cfg, names, name, false, dir))))
            && (s.Go? <==>
                  depth + |name| < HUMAN_PATH_MAX && name != [] && rest != [] && LeadsOn(cfg, names, name, true, dir))
            && (s.Go? ==> s.rest == rest && s.depth == depth + |name|)
            && (s.Go? ==>
                  forall k: nat :: IsFirstNamed(cfg, names, name, true, k) ==> s.host == dir + names[k].f.host)
            && (s.Stop? ==> s.result in {None, Some(dir)})
  {
    hide FitsAt, Matches;
    var more := rest != [];
    var mask := if more then {Directory} else ANY;
    forall i | 0 <= i < |names| ensures Found(cfg, names[i].f, name, mask) <==> IsNamed(cfg, names[i], name, more) {
      assert names[i] in names;
      MatchesPlaceByPlace(cfg.alphabet, name, names[i].f.human);
      assert names[i].f.dirent.attr * {Directory} != {} <==> Directory in names[i].f.dirent.attr by {
        if Directory in names[i].f.dirent.attr {
          assert Directory in names[i].f.dirent.attr * {Directory};
        }
      }
    }
    var k := FindIndex(cfg, names, name, mask);
    if k < |names| {
      assert IsFirstNamed(cfg, names, name, more, k);
      assert forall j: nat :: IsFirstNamed(cfg, names, name, more, j) ==> j == k;
    }
  }

  /** There is such an entry, and the host path does not become too long. */
  ghost predicate LeadsOn(cfg: Config, names: seq<Node>, name: Name, more: bool, dir: Name) {
    exists k: nat :: IsFirstNamed(cfg, names, name, more, k) && |dir| + |names[k].f.host| < HOST_PATH_MAX
  }

  /** Walks a path, reading every directory afresh. The result is the host path of the directory that the path is in. */
  function Walk(cfg: Config, tree: Tree, path: Name, depth: nat, host: Name): Option<Name>
    requires TreeOk(tree)
    decreases |path|
  {
    match WalkStep(cfg, tree, path, depth, host)
    case Stop(result) => result
    case Go(rest, depth, host) => Walk(cfg, tree, rest, depth, host)
  }

  // ---------- paths that look the same ----------

  predicate Alike(cfg: Config, p: Name, q: Name) {
    Key(cfg.alphabet, p, false) == Key(cfg.alphabet, q, false)
  }

  lemma {:induction false} KeyLength(alphabet: bool, s: Name, trail: bool)
    ensures |Key(alphabet, s, trail)| == |s|
  {
    if s != [] {
      KeyLength(alphabet, s[1..], !trail && Lead(s[0]));
    }
  }

  /** The key of the first character and of what follows. */
  lemma KeyHead(alphabet: bool, s: Name)
    requires s != []
    ensures !Lead(s[0]) ==> Key(alphabet, s, false) == [Folded(alphabet, s[0])] + Key(alphabet, s[1..], false)
    ensures Lead(s[0]) && |s| >= 2 ==> Key(alphabet, s, false) == [s[0], s[1]] + Key(alphabet, s[2..], false)
  {
    if Lead(s[0]) && |s| >= 2 {
      assert s[1..][1..] == s[2..];
    }
  }

  lemma AlikeHeads(cfg: Config, p: Name, q: Name)
    requires Alike(cfg, p, q) && p != []
    ensures |p| == |q| && Lead(p[0]) == Lead(q[0]) && Separator(p[0]) == Separator(q[0])
    ensures Folded(cfg.alphabet, p[0]) == Folded(cfg.alphabet, q[0])
    ensures !Lead(p[0]) ==> Alike(cfg, p[1..], q[1..])
    ensures Lead(p[0]) && |p| >= 2 ==> p[0] == q[0] && p[1] == q[1] && Alike(cfg, p[2..], q[2..])
  {
    KeyLength(cfg.alphabet, p, false);
    KeyLength(cfg.alphabet, q, false);
    var k, l := Key(cfg.alphabet, p, false), Key(cfg.alphabet, q, false);
    assert k[0] == l[0];
    KeyHead(cfg.alphabet, p);
    KeyHead(cfg.alphabet, q);
    hide Key;
    if !Lead(p[0]) {
      assert k[1..] == l[1..];
    } else if |p| >= 2 {
      assert k[1] == l[1] && k[2..] == l[2..];
    }
  }

  /** Alike characters in front of alike names. */
  lemma AlikeJoined(cfg: Config, p: Name, q: Name, w: nat)
    requires 0 < w <= |p| == |q| && Lead(p[0]) == Lead(q[0]) && Folded(cfg.alphabet, p[0]) == Folded(cfg.alphabet, q[0])
    requires w == if Lead(p[0]) then 2 else 1
    requires w == 2 ==> p[0] == q[0] && p[1] == q[1]
    requires Alike(cfg, p[w..], q[w..])
    ensures Alike(cfg, p, q)
  {
    KeyHead(cfg.alphabet, p);
    KeyHead(cfg.alphabet, q);
  }

  /** Names that look alike end at the same place. */
  lemma {:induction false} AlikeEnds(cfg: Config, p: Name, q: Name, taken: nat)
    requires Alike(cfg, p, q)
    ensures NameLength(p, taken) == NameLength(q, taken)
    decreases |p|
  {
    if p == [] {
      KeyLength(cfg.alphabet, q, false);
    } else {
      AlikeHeads(cfg, p, q);
      hide Alike;
      if !Lead(p[0]) {
        AlikeEnds(cfg, p[1..], q[1..], taken + 1);
      } else if |p| >= 2 {
        AlikeEnds(cfg, p[2..], q[2..], taken + 2);
      }
    }
  }

  lemma {:induction false} EndIsWhole(p: Name, taken: nat)
    requires NameLength(p, taken).Some?
    ensures Boundary(p, NameLength(p, taken).value)
    decreases |p|
  {
    if p != [] && NameLength(p, taken).value > 0 {
      if Lead(p[0]) {
        EndIsWhole(p[2..], taken + 2);
      } else {
        EndIsWhole(p[1..], taken + 1);
      }
    }
  }

  /** The parts of names that look alike look alike, if they are cut between characters. */
  lemma {:induction false} AlikeParts(cfg: Config, p: Name, q: Name, n: nat)
    requires Alike(cfg, p, q) && Boundary(p, n) && n <= |p|
    ensures n <= |q| && Alike(cfg, p[..n], q[..n]) && Alike(cfg, p[n..], q[n..])
  {
    KeyLength(cfg.alphabet, p, false);
    KeyLength(cfg.alphabet, q, false);
    if n == 0 {
      assert p[0..] == p && q[0..] == q && p[..0] == q[..0];
    } else {
      AlikeHeads(cfg, p, q);
      hide Alike;
      var w := if Lead(p[0]) then 2 else 1;
      AlikeParts(cfg, p[w..], q[w..], n - w);
      assert p[..n][w..] == p[w..][..n - w] && q[..n][w..] == q[w..][..n - w];
      assert p[n..] == p[w..][n - w..] && q[n..] == q[w..][n - w..];
      AlikeJoined(cfg, p[..n], q[..n], w);
    }
  }

  /** Names that look alike are found at the same place. */
  lemma {:induction false} AlikeFound(cfg: Config, list: seq<Node>, p: Name, q: Name, mask: set<Attribute>)
    requires Alike(cfg, p, q) && Plain(p) && Plain(q)
    ensures FindIndex(cfg, list, p, mask) == FindIndex(cfg, list, q, mask)
  {
    KeyLength(cfg.alphabet, p, false);
    KeyLength(cfg.alphabet, q, false);
    if list != [] {
      PlainMatch(cfg.alphabet, p, list[0].f.human, false);
      PlainMatch(cfg.alphabet, q, list[0].f.human, false);
      AlikeFound(cfg, list[1..], p, q, mask);
    }
  }

  lemma AlikeSeparated(cfg: Config, p: Name, q: Name)
    requires Alike(cfg, p, q) && Plain(p) && Plain(q)
    ensures Separated(p) == Separated(q) && |p| == |q|
    ensures var r := Separated(p);
            r.Some? ==>
              && Alike(cfg, p[1..r.value], q[1..r.value]) && Alike(cfg, p[r.value..], q[r.value..])
              && Plain(p[1..r.value]) && Plain(q[1..r.value]) && Plain(p[r.value..]) && Plain(q[r.value..])
  {
    KeyLength(cfg.alphabet, p, false);
    KeyLength(cfg.alphabet, q, false);
    if p != [] {
      AlikeHeads(cfg, p, q);
      if Separator(p[0]) {
        AlikeEnds(cfg, p[1..], q[1..], 0);
        if Separated(p).Some? {
          var end := Separated(p).value;
          EndIsWhole(p[1..], 0);
          AlikeParts(cfg, p[1..], q[1..], end - 1);
          hide Alike, NameLength, Boundary;
          PartsOfTail(p, end);
          PartsOfTail(q, end);
        }
      }
    }
  }

  lemma PartsOfTail(p: Name, end: nat)
    requires 1 <= end <= |p| && Plain(p)
    ensures p[1..][..end - 1] == p[1..end] && p[1..][end - 1..] == p[end..]
    ensures Plain(p[1..end]) && Plain(p[end..])
  {
  }

  predicate AlikeStep(cfg: Config, s: Step, t: Step) {
    match s
    case Stop(_) => s == t
    case Go(rest, depth, host) =>
      t.Go? && t.depth == depth && t.host == host && Alike(cfg, rest, t.rest) && Plain(rest) && Plain(t.rest)
  }

  lemma AlikeSteps(cfg: Config, tree: Tree, p: Name, q: Name, depth: nat, host: Name)
    requires TreeOk(tree) && Alike(cfg, p, q) && Plain(p) && Plain(q)
    ensures AlikeStep(cfg, WalkStep(cfg, tree, p, depth, host), WalkStep(cfg, tree, q, depth, host))
  {
    hide Alike, Listed, Separated, Plain, TreeOk;
    AlikeSeparated(cfg, p, q);
    var r := Separated(p);
    if r.Some? {
      var mask := if p[r.value..] == [] then ANY else {Directory};
      var names := Listed(cfg, tree, host + [SLASH], depth == 0, 0);
      AlikeFound(cfg, names, p[1..r.value], q[1..r.value], mask);
    }
  }

  /** Paths that look alike and contain no question marks lead to the same place. */
  lemma {:induction false} AlikeWalk(cfg: Config, tree: Tree, p: Name, q: Name, depth: nat, host: Name)
    requires TreeOk(tree) && Alike(cfg, p, q) && Plain(p) && Plain(q)
    ensures Walk(cfg, tree, p, depth, host) == Walk(cfg, tree, q, depth, host)
    decreases |p|
  {
    AlikeSteps(cfg, tree, p, q, depth, host);
    hide WalkStep, Alike, Plain, TreeOk;
    var s, t := WalkStep(cfg, tree, p, depth, host), WalkStep(cfg, tree, q, depth, host);
    if s.Go? {
      AlikeWalk(cfg, tree, s.rest, t.rest, s.depth, s.host);
    }
  }

  // ---------- what a listing does not depend on ----------

  /** Lists of the same files, in whatever nodes. */
  predicate SameFiles(a: seq<Node>, b: seq<Node>) {
    |a| == |b| && forall i :: 0 <= i < |a| ==> a[i].f == b[i].f
  }

  /** Lists that show the same: host names, Human68k names and attributes. */
  predicate SameView(a: seq<Node>, b: seq<Node>) {
    |a| == |b| && forall i :: 0 <= i < |a| ==> Alikes(a[i].f, b[i].f)
  }

  predicate Alikes(f: Filename, g: Filename) {
    f.host == g.host && f.human == g.human && f.dirent.attr == g.dirent.attr
  }

  lemma {:induction false} SameFound(cfg: Config, a: seq<Node>, b: seq<Node>, human: Name, mask: set<Attribute>)
    requires SameView(a, b)
    ensures FindIndex(cfg, a, human, mask) == FindIndex(cfg, b, human, mask)
  {
    if a != [] {
      assert Alikes(a[0].f, b[0].f);
      forall i | 0 <= i < |a| - 1 ensures Alikes(a[1..][i].f, b[1..][i].f) {
        assert Alikes(a[i + 1].f, b[i + 1].f);
      }
      SameFound(cfg, a[1..], b[1..], human, mask);
    }
  }

  lemma {:induction false} SameSettled(cfg: Config, host: Name, a: seq<Node>, b: seq<Node>, files: set<Name>, n: Named,
      round: nat)
    requires WellFormed(host) && round <= ROUNDS && SameView(a, b)
    ensures Settled(cfg, host, a, files, n, round) == Settled(cfg, host, b, files, n, round)
    decreases ROUNDS - round
  {
    hide WellFormed, Variant, FindIndex, SameView;
    SameFound(cfg, a, b, n.human, ANY);
    SameLength(a, b);
    if round < ROUNDS && !Free(cfg, a, files, n) {
      SameSettled(cfg, host, a, b, files, Variant(cfg, host, round), round + 1);
    }
  }

  lemma SameLength(a: seq<Node>, b: seq<Node>)
    requires SameView(a, b)
    ensures |a| == |b|
  {
  }

  /** Where the nodes of a listing are allocated does not matter. */
  lemma {:induction false} SameListing(cfg: Config, files: set<Name>, listing: seq<HostEntry>, next: nat, next': nat)
    requires ListingOk(listing)
    ensures SameFiles(First(cfg, files, listing, next).list, First(cfg, files, listing, next').list)
  {
    hide NameFor, First, WellFormed, Packed;
    if listing == [] {
      NothingRead(cfg, files, next);
      NothingRead(cfg, files, next');
    } else {
      var before, e := listing[..|listing| - 1], listing[|listing| - 1];
      SameListing(cfg, files, before, next, next');
      FirstCache(cfg, files, before, next);
      FirstCache(cfg, files, before, next');
      FirstStep(cfg, files, listing, next);
      FirstStep(cfg, files, listing, next');
      var a, b := First(cfg, files, before, next).list, First(cfg, files, before, next').list;
      SameNames(cfg, e.name, a, b, files);
    }
  }

  lemma SameNames(cfg: Config, host: Name, a: seq<Node>, b: seq<Node>, files: set<Name>)
    requires WellFormed(host) && SameView(a, b)
    ensures NameFor(cfg, host, None, a, files) == NameFor(cfg, host, None, b, files)
  {
    hide WellFormed, Variant, FindIndex;
    SameSettled(cfg, host, a, b, files, Variant(cfg, host, -1), 0);
  }

  // ---------- refreshes ----------

  /** Reading a directory again over entries that show the same gives entries that show the same. Unless something is
      reported as changed, they are the old ones. */
  lemma {:induction false} RereadingShowsSame(cfg: Config, files: set<Name>, listing: seq<HostEntry>, next0: nat,
      next: nat, names: seq<Node>)
    requires ListingOk(listing) && OwnNames(listing)
    requires var first := First(cfg, files, listing, next0).list;
             |first| <= |names| && SameView(names[..|first|], first)
    requires forall i, e :: |First(cfg, files, listing, next0).list| <= i < |names| && e in listing ==>
        names[i].f.host != e.name
    ensures var first := First(cfg, files, listing, next0).list;
            var r := ReadAll(cfg, files, Reading([], names, next, false), listing);
            && SameView(r.list, first) && r.cache == names[|first|..] && (!r.changed ==> r.list == names[..|first|])
  {
    hide NameFor, WellFormed, Packed, First, ReadEntry, SameView;
    if listing == [] {
      NothingRead(cfg, files, next0);
      EmptyView();
    } else {
      ReadAllStep(cfg, files, Reading([], names, next, false), listing);
      hide ReadAll;
      var before, e := listing[..|listing| - 1], listing[|listing| - 1];
      FirstCache(cfg, files, before, next0);
      FirstStep(cfg, files, listing, next0);
      var first, later := First(cfg, files, before, next0).list, First(cfg, files, listing, next0).list;
      ShorterView(names, first, later);
      hide OwnNames;
      StillToCome(cfg, files, listing, next0, names);
      RereadingShowsSame(cfg, files, before, next0, next, names);
      var r := ReadAll(cfg, files, Reading([], names, next, false), before);
      if e.stat.None? {
        MissingAgain(cfg, files, r, e);
      } else {
        assert later == first + [later[|first|]];
        ShownAgain(cfg, files, r, e, first, later[|first|]);
        assert names[..|first| + 1] == names[..|first|] + [names[|first|]];
      }
    }
  }

  lemma EmptyView()
    ensures SameView([], [])
  {
  }

  lemma ShorterView(names: seq<Node>, first: seq<Node>, later: seq<Node>)
    requires |later| <= |names| && SameView(names[..|later|], later)
    requires later == first || (|later| == |first| + 1 && first == later[..|first|])
    ensures |first| <= |names| && SameView(names[..|first|], first)
    ensures |later| > |first| ==> Alikes(names[|first|].f, later[|first|].f)
  {
    forall i | 0 <= i < |first| ensures Alikes(names[..|first|][i].f, first[i].f) {
      assert Alikes(names[..|later|][i].f, later[i].f);
    }
    if |later| > |first| {
      assert Alikes(names[..|later|][|first|].f, later[|first|].f);
    }
  }

  /** The first of the old entries is the one that is read, and it shows what it has shown. */
  lemma ShownAgain(cfg: Config, files: set<Name>, r: Reading, e: HostEntry, first: seq<Node>, x: Node)
    requires WellFormed(e.name) && e.stat.Some? && r.cache != [] && SameView(r.list, first)
    requires var n := NameFor(cfg, e.name, None, first, files);
             n.ext <= |n.human| && x.f == Filename(e.name, n.human, n.ext, Packed(n, e.stat.value))
    requires Alikes(r.cache[0].f, x.f)
    ensures var r' := ReadEntry(cfg, files, r, e);
            && SameView(r'.list, first + [x]) && r'.cache == r.cache[1..]
            && (!r'.changed ==> !r.changed && r'.list == r.list + [r.cache[0]])
  {
    hide NameFor, WellFormed;
    var human := r.cache[0].f.human;
    SameNames(cfg, e.name, r.list, first, files);
    NameForAgain(cfg, e.name, r.list, files);
    var m := NameFor(cfg, e.name, Some(human), r.list, files);
    ExtInName(cfg, e.name, Some(human), r.list, files);
    var r' := ReadEntry(cfg, files, r, e);
    assert IndexOfHost(r.cache, e.name) == 0 && Except(r.cache, 0) == r.cache[1..];
    PackedAttributes(m, NameFor(cfg, e.name, None, first, files), e.stat.value);
    hide Packed, ReadEntry;
    var node := r'.list[|r.list|];
    assert r'.list == r.list + [node] && Alikes(node.f, x.f);
    OneMore(r.list, first, node, x);
  }

  lemma PackedAttributes(m: Named, n: Named, s: Stat)
    requires m.ext <= |m.human| && n.ext <= |n.human|
    ensures Packed(m, s).attr == Packed(n, s).attr
  {
  }

  lemma OneMore(a: seq<Node>, b: seq<Node>, x: Node, y: Node)
    requires SameView(a, b) && Alikes(x.f, y.f)
    ensures SameView(a + [x], b + [y])
  {
  }

  /** A refresh of an unchanged directory shows the same, unless there is just one entry. */
  lemma RefreshShowsSame(cfg: Config, listing: seq<HostEntry>, root: bool, names: seq<Node>, next: nat)
    requires ListingOk(listing) && OwnNames(Visible(listing, root)) && |names| != 1
    requires SameView(names, Reread(cfg, [], 0, listing, root).list)
    ensures var r := Reread(cfg, names, next, listing, root);
            SameView(r.list, Reread(cfg, [], 0, listing, root).list) && (!r.changed ==> r.list == names)
  {
    hide ReadAll, Visible, Real, WellFormed, OwnNames, SameView;
    VisibleIsListed(listing, root);
    var files, visible := Real(listing), Visible(listing, root);
    var first := First(cfg, files, visible, 0).list;
    assert Reread(cfg, [], 0, listing, root).list == first;
    SameLength(names, first);
    assert names[..|first|] == names;
    RereadingShowsSame(cfg, files, visible, 0, next, names);
  }

  /** The nodes of a listing are allocated one after the other, and all its entries have names. */
  predicate Allocated(names: seq<Node>, from: nat, to: nat) {
    && (forall i :: 0 <= i < |names| ==> from <= names[i].at < to && names[i].f.ext <= |names[i].f.human|)
    && (forall i :: 0 <= i < |names| ==> names[i].f.dirent != NO_DIRENT)
    && (forall i, j :: 0 <= i < j < |names| ==> names[i].at < names[j].at)
  }

  lemma {:induction false} ListingAllocates(cfg: Config, files: set<Name>, listing: seq<HostEntry>, next: nat)
    requires ListingOk(listing)
    ensures var r := First(cfg, files, listing, next); next <= r.next && Allocated(r.list, next, r.next)
  {
    hide NameFor, WellFormed, Packed;
    if listing != [] {
      var before, e := listing[..|listing| - 1], listing[|listing| - 1];
      ListingAllocates(cfg, files, before, next);
      FirstCache(cfg, files, before, next);
      FirstStep(cfg, files, listing, next);
    }
  }

  // ---------- the path to a directory ----------

  /** Any path that goes on from `human` goes on in the host directory `host`, which has no slash at its end. */
  ghost predicate Reaches(cfg: Config, tree: Tree, base: Name, human: Name, host: Name)
    requires TreeOk(tree)
  {
    forall s: Name :: s != [] && Separator(s[0]) ==>
      Walk(cfg, tree, human + s, 0, base) == Walk(cfg, tree, s, |human|, host)
  }

  lemma ReachesBase(cfg: Config, tree: Tree, base: Name)
    requires TreeOk(tree)
    ensures Reaches(cfg, tree, base, [], base)
  {
    forall s: Name | s != [] && Separator(s[0])
      ensures Walk(cfg, tree, [] + s, 0, base) == Walk(cfg, tree, s, 0, base)
    {
      assert [] + s == s;
    }
  }

  lemma {:induction false} NameEnds(name: Name, rest: Name, s: Name, taken: nat)
    requires NameLength(name + rest, taken) == Some(|name|)
    requires s != [] && Separator(s[0]) && (name == [] ==> taken > 0)
    ensures NameLength(name + s, taken) == Some(|name|)
    decreases |name|
  {
    if name != [] {
      var w := if Lead(name[0]) then 2 else 1;
      assert (name + rest)[w..] == name[w..] + rest && (name + s)[w..] == name[w..] + s;
      NameEnds(name[w..], rest, s, taken + w);
    }
  }

  lemma SeparatedAgain(path: Name, s: Name)
    requires Separated(path).Some? && Separated(path).value > 1 && s != [] && Separator(s[0])
    ensures var end := Separated(path).value;
            var t := [SLASH] + path[1..end] + s;
            Separated(t) == Some(end) && t[1..end] == path[1..end] && t[end..] == s
  {
    var end := Separated(path).value;
    var name := path[1..end];
    var t := [SLASH] + name + s;
    assert path[1..] == name + path[end..] && t[1..] == name + s;
    NameEnds(name, path[end..], s, 0);
  }

  /** What follows the name of a directory does not matter for the step into it. */
  lemma StepsAgain(cfg: Config, tree: Tree, path: Name, depth: nat, host: Name, s: Name)
    requires TreeOk(tree) && WalkStep(cfg, tree, path, depth, host).Go? && s != [] && Separator(s[0])
    ensures Separated(path).Some?
    ensures WalkStep(cfg, tree, [SLASH] + path[1..Separated(path).value] + s, depth, host)
            == WalkStep(cfg, tree, path, depth, host).(rest := s)
  {
    SeparatedAgain(path, s);
    hide Listed, FindIndex, Separated;
  }

  /** A path reaches the directory that its next component names. */
  lemma ReachesOn(cfg: Config, tree: Tree, base: Name, human: Name, host: Name, path: Name)
    requires TreeOk(tree) && Reaches(cfg, tree, base, human, host)
    requires WalkStep(cfg, tree, path, |human|, host).Go?
    ensures var s, end := WalkStep(cfg, tree, path, |human|, host), Separated(path).value;
            var human' := human + [SLASH] + path[1..end];
            s.depth == |human'| && Reaches(cfg, tree, base, human', s.host)
  {
    hide Walk, Listed, FindIndex, Separated;
    var step, end := WalkStep(cfg, tree, path, |human|, host), Separated(path).value;
    var human' := human + [SLASH] + path[1..end];
    assert step.depth == |human'|;
    forall s: Name | s != [] && Separator(s[0])
      ensures Walk(cfg, tree, human' + s, 0, base) == Walk(cfg, tree, s, |human'|, step.host)
    {
      ReachesThrough(cfg, tree, base, human, host, path, s);
    }
  }

  lemma ReachesThrough(cfg: Config, tree: Tree, base: Name, human: Name, host: Name, path: Name, s: Name)
    requires TreeOk(tree) && Reaches(cfg, tree, base, human, host)
    requires WalkStep(cfg, tree, path, |human|, host).Go? && s != [] && Separator(s[0])
    ensures Separated(path).Some?
    ensures var step := WalkStep(cfg, tree, path, |human|, host);
            Walk(cfg, tree, human + [SLASH] + path[1..Separated(path).value] + s, 0, base)
                == Walk(cfg, tree, s, step.depth, step.host)
  {
    hide WalkStep, TreeOk, Separated;
    StepsAgain(cfg, tree, path, |human|, host, s);
    var t := [SLASH] + path[1..Separated(path).value] + s;
    assert human + [SLASH] + path[1..Separated(path).value] + s == human + t;
    assert Separator(t[0]);
  }

  /** The directory itself. */
  lemma ReachesDirectory(cfg: Config, tree: Tree, base: Name, human: Name, host: Name)
    requires TreeOk(tree) && Reaches(cfg, tree, base, human, host)
    requires |human| + 1 < HUMAN_PATH_MAX && |host| + 1 < HOST_PATH_MAX
    ensures Walk(cfg, tree, human + [SLASH], 0, base) == Some(host + [SLASH])
  {
    var s: Name := [SLASH];
    assert s[1..] == [] && Separator(s[0]);
    assert Walk(cfg, tree, human + s, 0, base) == Walk(cfg, tree, s, |human|, host);
    assert Separated(s) == Some(1) && s[1..1] == [];
  }
}
