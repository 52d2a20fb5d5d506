/** Circular doubly linked rings on the heap. A ring has a root, which carries no data, and any number of members. */
module Rings {

  function Successor(i: nat, n: nat): nat
    requires i < n
  {
    if i + 1 == n then 0 else i + 1
  }

  /** `s` without its element at `k`. */
  function Except<X>(s: seq<X>, k: nat): (r: seq<X>)
    requires k < |s|
  {
    s[..k] + s[k + 1..]
  }

  ghost function Nodes<X>(s: seq<X>): set<X> {
    set x | x in s
  }

  predicate Distinct<X(==)>(s: seq<X>) {
    forall i, j :: 0 <= i < j < |s| ==> s[i] != s[j]
  }

  class CRing<T> {
    var next: CRing<T>
    var prev: CRing<T>
    /** What hangs on the node; for a root it means nothing. */
    var f: T
    /** For a root: the nodes of its ring, first to last. */
    ghost var members: seq<CRing<T>>

    /** A ring of its own. */
    constructor (f: T)
      ensures Valid() && members == [] && this.f == f
    {
      this.f := f;
      members := [];
      next, prev := this, this;
    }

    ghost function Cycle(): seq<CRing<T>>
      reads `members
    {
      [this] + members
    }

    /** The ring of this root is circular and linked both ways. */
    ghost predicate Valid()
      reads `members, Nodes(Cycle())`next, Nodes(Cycle())`prev
    {
      Linked(Cycle())
    }

    /** Takes this node, the one at `k`, out of the cycle; its own links stay. */
    method Unlink(ghost cycle: seq<CRing<T>>, ghost k: nat)
      requires Linked(cycle) && k < |cycle| && cycle[k] == this
      modifies Nodes(cycle)`next, Nodes(cycle)`prev
      ensures |cycle| > 1 ==> Linked(Except(cycle, k))
      ensures |cycle| == 1 ==> next == this && prev == this
    {
      ghost var p := if k == 0 then |cycle| - 1 else k - 1;
      assert cycle[p].next == cycle[Successor(p, |cycle|)];
      next.prev := prev;
      prev.next := next;
      if |cycle| > 1 {
        Closed(cycle, k);
      }
    }

    /** Puts this node, which is in no cycle of others, behind the node at `k`. */
    method LinkBehind(at: CRing<T>, ghost cycle: seq<CRing<T>>, ghost k: nat)
      requires Linked(cycle) && k < |cycle| && cycle[k] == at && this !in cycle
      modifies Nodes(cycle)`next, Nodes(cycle)`prev, `next, `prev
      ensures Linked(cycle[..k + 1] + [this] + cycle[k + 1..])
    {
      next := at.next;
      prev := at;
      at.next.prev := this;
      at.next := this;
      Opened(cycle, k, this);
    }

    /** This node is a member of the ring of `home`, or alone. */
    ghost predicate SitsIn(home: CRing<T>)
      reads `members, home`members
    {
      if home == this then members == [] else this in home.members
    }

    ghost predicate Apart(other: CRing<T>)
      reads `members, other`members
    {
      forall x, y :: x in Cycle() && y in other.Cycle() ==> x != y
    }

    /** Takes this node out of the ring it is in. */
    method Leave(ghost home: CRing<T>)
      requires home.Valid() && SitsIn(home)
      modifies Nodes(home.Cycle())`next, Nodes(home.Cycle())`prev, home`members
      ensures home.Valid() && home.members == Without(old(home.members), this)
      ensures this == home || this !in home.members
      ensures home == this ==> unchanged(this)
    {
      hide Linked;
      ghost var k := Index(home.Cycle(), this);
      LinkedApart(home.Cycle());
      if home != this {
        TakenOut(home, home.members, this);
      } else {
        Alone(this);
      }
      Unlink(home.Cycle(), k);
      home.members := Without(home.members, this);
    }

    /** Puts this node, which is in no other ring, at the front of the ring. */
    method Join(root: CRing<T>)
      requires root.Valid() && this !in root.Cycle()
      modifies Nodes(root.Cycle())`next, Nodes(root.Cycle())`prev, root`members, `next, `prev
      ensures root.Valid() && root.members == [this] + old(root.members)
    {
      LinkBehind(root, root.Cycle(), 0);
      root.members := [this] + root.members;
      assert root.Cycle() == old(root.Cycle()[..1] + [this] + root.Cycle()[1..]);
    }

    /** Moves this node to the front of a ring, from wherever it was: possibly that ring itself, even its front. */
    method Insert(root: CRing<T>, ghost home: CRing<T>)
      requires root.Valid() && home.Valid() && this != root && SitsIn(home) && (home != root ==> home.Apart(root))
      modifies Nodes(root.Cycle())`next, Nodes(root.Cycle())`prev, Nodes(home.Cycle())`next, Nodes(home.Cycle())`prev,
          root`members, home`members
      ensures root.Valid() && root.members == [this] + Without(old(root.members), this)
      ensures home != root && home != this ==> home.Valid() && home.members == Without(old(home.members), this)
    {
      hide Linked;
      WithoutIsSmaller(home.members, this);
      WithoutIsSmaller(root.members, this);
      assert this in home.Cycle();
      assert home != root ==> Nodes(home.Cycle()) !! Nodes(root.Cycle());
      Leave(home);
      assert root.Valid();
      assert home != root && home != this ==> home.Valid() && Nodes(home.Cycle()) !! Nodes(root.Cycle());
      Join(root);
    }

    /** Puts this node, which is in no other ring, at the end of the ring. */
    method JoinTail(root: CRing<T>)
      requires root.Valid() && this !in root.Cycle()
      modifies Nodes(root.Cycle())`next, Nodes(root.Cycle())`prev, root`members, `next, `prev
      ensures root.Valid() && root.members == old(root.members) + [this]
    {
      ghost var last := |root.members|;
      assert root.Cycle()[last].next == root.Cycle()[Successor(last, last + 1)];
      next := root;
      prev := root.prev;
      root.prev.next := this;
      root.prev := this;
      Opened(root.Cycle(), last, this);
      root.members := root.members + [this];
      assert root.Cycle() == old(root.Cycle()[..last + 1] + [this] + root.Cycle()[last + 1..]);
    }

    /** Moves this node to the end of a ring, from wherever it was. */
    method InsertTail(root: CRing<T>, ghost home: CRing<T>)
      requires root.Valid() && home.Valid() && this != root && SitsIn(home) && (home != root ==> home.Apart(root))
      modifies Nodes(root.Cycle())`next, Nodes(root.Cycle())`prev, Nodes(home.Cycle())`next, Nodes(home.Cycle())`prev,
          root`members, home`members
      ensures root.Valid() && root.members == Without(old(root.members), this) + [this]
      ensures home != root && home != this ==> home.Valid() && home.members == Without(old(home.members), this)
    {
      hide Linked;
      WithoutIsSmaller(home.members, this);
      WithoutIsSmaller(root.members, this);
      assert this in home.Cycle();
      assert home != root ==> Nodes(home.Cycle()) !! Nodes(root.Cycle());
      Leave(home);
      assert root.Valid();
      assert home != root && home != this ==> home.Valid() && Nodes(home.Cycle()) !! Nodes(root.Cycle());
      JoinTail(root);
    }

    /** Takes this node out of its ring and leaves it alone. */
    method Remove(ghost home: CRing<T>)
      requires home.Valid() && SitsIn(home)
      modifies Nodes(home.Cycle())`next, Nodes(home.Cycle())`prev, home`members
      ensures home.Valid() && home.members == Without(old(home.members), this)
      ensures next == this && prev == this && (members == [] ==> Valid())
    {
      hide Linked;
      assert this in home.Cycle();
      WithoutIsSmaller(home.members, this);
      Leave(home);
      assert home != this ==> home.Valid() && this !in Nodes(home.Cycle());
      next, prev := this, this;
      if members == [] {
        Alone(this);
      }
    }

    /** Moves all members of this ring to the front of another one, in their order; but a single member stays where it
        is. */
    method InsertRing(root: CRing<T>)
      requires Valid() && root.Valid() && this != root && Apart(root)
      modifies Nodes(root.Cycle())`next, Nodes(root.Cycle())`prev, Nodes(Cycle())`next, Nodes(Cycle())`prev,
          root`members, `members
      ensures Valid() && root.Valid()
      ensures if |old(members)| == 1 then members == old(members) && root.members == old(root.members)
              else members == [] && root.members == old(members + root.members)
    {
      hide Linked, InnerLinks, Closes;
      Ends(this);
      Ends(root);
      if next == prev {
        return;
      }
      ghost var c, d := Cycle(), root.Cycle();
      Splice(root, c, d);
      assert [root] + (members + root.members) == [d[0]] + c[1..] + d[1..];
      root.members := members + root.members;
      members := [];
      Alone(this);
    }

    method Splice(root: CRing<T>, ghost c: seq<CRing<T>>, ghost d: seq<CRing<T>>)
      requires |c| > 1 && |d| > 0 && Distinct(c) && Distinct(d) && Nodes(c) !! Nodes(d) && c[0] == this && d[0] == root
      requires InnerLinks(c) && InnerLinks(d) && Closes(c) && Closes(d)
      requires next == c[1] && root.next == d[Successor(0, |d|)]
      modifies Nodes(c)`next, Nodes(c)`prev, Nodes(d)`next, Nodes(d)`prev
      ensures Linked([root] + c[1..] + d[1..]) && next == this && prev == this
    {
      hide Linked;
      EndsAreElsewhere(c, d, next, prev, root.next);
      root.next.prev := prev;
      prev.next := root.next;
      root.next := next;
      next.prev := root;
      next, prev := this, this;
      Spliced(c, d);
    }
  }

  lemma LinkedApart<T>(c: seq<CRing<T>>)
    requires Linked(c)
    ensures Distinct(c)
  {
  }

  ghost predicate InnerLinks<T>(c: seq<CRing<T>>)
    reads Nodes(c)`next, Nodes(c)`prev
  {
    forall i :: 1 <= i < |c| - 1 ==> c[i].next == c[i + 1] && c[i + 1].prev == c[i]
  }

  ghost predicate Closes<T>(c: seq<CRing<T>>)
    requires c != []
    reads Nodes(c)`next, Nodes(c)`prev
  {
    c[|c| - 1].next == c[0] && c[0].prev == c[|c| - 1]
  }

  /** Where the links of a root lead to. */
  lemma Ends<T>(root: CRing<T>)
    requires root.Valid()
    ensures var c := root.Cycle(); root.next == c[Successor(0, |c|)] && root.prev == c[|c| - 1]
    ensures root.next == root.prev <==> |root.members| <= 1
    ensures Distinct(root.Cycle()) && InnerLinks(root.Cycle()) && Closes(root.Cycle())
  {
    var c := root.Cycle();
    assert c[|c| - 1].next == c[Successor(|c| - 1, |c|)];
    assert c[0] == root;
  }

  lemma EndsAreElsewhere<T>(c: seq<CRing<T>>, d: seq<CRing<T>>, first: CRing<T>, last: CRing<T>, second: CRing<T>)
    requires |c| > 1 && |d| > 0 && Distinct(c) && Distinct(d) && Nodes(c) !! Nodes(d)
    requires first == c[1] && last == c[|c| - 1] && second == d[Successor(0, |d|)]
    ensures forall i :: 1 <= i < |c| - 1 ==> c[i] != last && c[i] != d[0] && c[i] != c[0]
    ensures forall i :: 2 <= i < |c| ==> c[i] != second && c[i] != first && c[i] != c[0]
    ensures forall i :: 1 <= i < |d| ==> d[i] != last && d[i] != d[0] && d[i] != c[0]
    ensures forall i :: 2 <= i < |d| ==> d[i] != second && d[i] != first
    ensures c[0] != d[0] && first != second && last != d[0] && first != c[0] && last != c[0] && second != c[0]
            && first != d[0]
  {
    assert forall i :: 0 <= i < |c| ==> c[i] in Nodes(c);
    assert forall i :: 0 <= i < |d| ==> d[i] in Nodes(d);
  }

  /** The members of one ring between the root and the members of another. */
  lemma Spliced<T>(c: seq<CRing<T>>, d: seq<CRing<T>>)
    requires |c| > 1 && |d| > 0 && Distinct(c) && Distinct(d) && Nodes(c) !! Nodes(d)
    requires InnerLinks(c) && InnerLinks(d)
    requires d[0].next == c[1] && c[1].prev == d[0]
    requires var first := d[Successor(0, |d|)]; c[|c| - 1].next == first && first.prev == c[|c| - 1]
    requires |d| > 1 ==> Closes(d)
    ensures Linked([d[0]] + c[1..] + d[1..])
  {
    var e := [d[0]] + c[1..] + d[1..];
    var n := |c|;
    assert forall i :: 0 <= i < |e| ==> e[i] == if i == 0 then d[0] else if i < n then c[i] else d[i - n + 1];
    forall i, j | 0 <= i < j < |e| ensures e[i] != e[j] {
      assert forall i :: 0 <= i < |c| ==> c[i] in Nodes(c);
      assert forall i :: 0 <= i < |d| ==> d[i] in Nodes(d);
    }
    forall i | 0 <= i < |e|
      ensures e[i].next == e[Successor(i, |e|)] && e[Successor(i, |e|)].prev == e[i]
    {
    }
  }

  lemma Alone<T>(x: CRing<T>)
    requires x.members == []
    ensures x.Cycle() == [x] && Linked(x.Cycle()) == (x.next == x && x.prev == x)
  {
    assert x.Cycle() == [x] && Successor(0, 1) == 0;
  }

  lemma {:induction false} WithoutIsSmaller<X>(s: seq<X>, x: X)
    ensures forall y :: y in Without(s, x) ==> y in s
    ensures forall y :: y in s ==> y == x || y in Without(s, x)
    ensures |Without(s, x)| == if x in s then |s| - 1 else |s|
    ensures x !in s ==> Without(s, x) == s
  {
    if s != [] && s[0] != x {
      WithoutIsSmaller(s[1..], x);
    }
  }

  lemma TakenOut<X>(root: X, members: seq<X>, x: X)
    requires Distinct([root] + members) && x in members
    ensures var k := Index([root] + members, x);
            && Except([root] + members, k) == [root] + Without(members, x)
            && x !in [root] + Without(members, x)
  {
    var cycle := [root] + members;
    var k := Index(cycle, x);
    assert cycle[0] == root && cycle[1..] == members;
    WithoutAt(members, k - 1);
    forall i | 0 <= i < |cycle| && i != k ensures cycle[i] != x {}
  }

  ghost function Index<X>(s: seq<X>, x: X): (k: nat)
    requires x in s
    ensures k < |s| && s[k] == x
  {
    if s[0] == x then 0 else 1 + Index(s[1..], x)
  }

  /** `s` without the first `x`, if there is one. */
  ghost function Without<X>(s: seq<X>, x: X): seq<X> {
    if s == [] then [] else if s[0] == x then s[1..] else [s[0]] + Without(s[1..], x)
  }

  lemma {:induction false} WithoutAt<X>(s: seq<X>, k: nat)
    requires Distinct(s) && k < |s|
    ensures Without(s, s[k]) == Except(s, k)
  {
    if k > 0 {
      assert s[0] != s[k];
      WithoutAt(s[1..], k - 1);
    }
  }

  ghost predicate Linked<T>(c: seq<CRing<T>>)
    reads Nodes(c)`next, Nodes(c)`prev
  {
    && c != [] && Distinct(c)
    && forall i :: 0 <= i < |c| ==> c[i].next == c[Successor(i, |c|)] && c[Successor(i, |c|)].prev == c[i]
  }

  /** A node whose neighbours have been linked with each other is out of the cycle. */
  lemma Closed<T>(c: seq<CRing<T>>, k: nat)
    requires |c| > 1 && k < |c| && Distinct(c)
    requires forall i :: 0 <= i < |c| && i != k && Successor(i, |c|) != k ==>
        c[i].next == c[Successor(i, |c|)] && c[Successor(i, |c|)].prev == c[i]
    requires var p := if k == 0 then |c| - 1 else k - 1;
             c[p].next == c[Successor(k, |c|)] && c[Successor(k, |c|)].prev == c[p]
    ensures Linked(Except(c, k))
  {
    var d := Except(c, k);
    assert forall i :: 0 <= i < |d| ==> d[i] == if i < k then c[i] else c[i + 1];
    forall i | 0 <= i < |d|
      ensures d[i].next == d[Successor(i, |d|)] && d[Successor(i, |d|)].prev == d[i]
    {
      var j := if i < k then i else i + 1;
      assert d[i] == c[j];
      if Successor(j, |c|) == k {
      } else {
      }
    }
  }

  /** A node that its new neighbours point to, and that points to them, is in the cycle. */
  lemma Opened<T>(c: seq<CRing<T>>, k: nat, x: CRing<T>)
    requires k < |c| && Distinct(c) && x !in c
    requires forall i :: 0 <= i < |c| && i != k ==>
        c[i].next == c[Successor(i, |c|)] && c[Successor(i, |c|)].prev == c[i]
    requires c[k].next == x && x.prev == c[k] && x.next == c[Successor(k, |c|)] && c[Successor(k, |c|)].prev == x
    ensures Linked(c[..k + 1] + [x] + c[k + 1..])
  {
    var d := c[..k + 1] + [x] + c[k + 1..];
    assert forall i :: 0 <= i < |d| ==> d[i] == if i <= k then c[i] else if i == k + 1 then x else c[i - 1];
    forall i | 0 <= i < |d|
      ensures d[i].next == d[Successor(i, |d|)] && d[Successor(i, |d|)].prev == d[i]
    {
      if i < k {
        assert d[i] == c[i];
      } else if i > k + 1 {
        assert d[i] == c[i - 1];
      }
    }
  }

  /** What hangs on some nodes. */
  ghost function Contents<T>(nodes: seq<CRing<T>>): (r: seq<T>)
    reads Nodes(nodes)`f
    ensures |r| == |nodes|
  {
    if nodes == [] then [] else Contents(nodes[..|nodes| - 1]) + [nodes[|nodes| - 1].f]
  }

  lemma {:induction false} ContentsAt<T>(nodes: seq<CRing<T>>)
    ensures forall i :: 0 <= i < |nodes| ==> Contents(nodes)[i] == nodes[i].f
  {
    if nodes != [] {
      ContentsAt(nodes[..|nodes| - 1]);
    }
  }

  lemma {:induction false} ContentsJoined<T>(a: seq<CRing<T>>, b: seq<CRing<T>>)
    ensures Contents(a + b) == Contents(a) + Contents(b)
  {
    if b == [] {
      assert a + b == a;
    } else {
      ContentsJoined(a, b[..|b| - 1]);
      assert (a + b)[..|a + b| - 1] == a + b[..|b| - 1];
    }
  }

  lemma ContentsOfOne<T>(x: CRing<T>)
    ensures Contents([x]) == [x.f]
  {
    assert [x][..0] == [];
  }

  lemma ContentsOfParts<T>(a: seq<CRing<T>>, x: CRing<T>, b: seq<CRing<T>>)
    ensures Contents(a + [x] + b) == Contents(a) + [x.f] + Contents(b)
    ensures Contents(a + b) == Contents(a) + Contents(b)
    ensures Contents([x] + (a + b)) == [x.f] + (Contents(a) + Contents(b))
    ensures Contents(a + b + [x]) == Contents(a) + Contents(b) + [x.f]
  {
    hide Contents;
    ContentsOfOne(x);
    ContentsJoined(a, [x]);
    ContentsJoined(a + [x], b);
    ContentsJoined(a, b);
    ContentsJoined([x], a + b);
    ContentsJoined(a + b, [x]);
  }

  lemma ExceptParts<X>(a: seq<X>, x: X, b: seq<X>)
    ensures Except(a + [x] + b, |a|) == a + b && (a + [x] + b)[|a|] == x
  {
  }

  lemma SplitAt<X>(s: seq<X>, k: nat)
    requires k < |s|
    ensures s == s[..k] + [s[k]] + s[k + 1..]
  {
  }

  /** The contents of a node and of those around it. */
  lemma ContentsAround<T>(nodes: seq<CRing<T>>, k: nat)
    requires k < |nodes|
    ensures var rest := Except(nodes, k);
            && Contents(rest) == Except(Contents(nodes), k) && Contents(nodes)[k] == nodes[k].f
            && Contents([nodes[k]] + rest) == [nodes[k].f] + Contents(rest)
            && Contents(rest + [nodes[k]]) == Contents(rest) + [nodes[k].f]
            && Nodes([nodes[k]] + rest) == Nodes(nodes) == Nodes(rest + [nodes[k]])
            && forall root :: Nodes([root] + ([nodes[k]] + rest)) == Nodes([root] + nodes)
                == Nodes([root] + (rest + [nodes[k]]))
  {
    hide Contents;
    var a, x, b := nodes[..k], nodes[k], nodes[k + 1..];
    SplitAt(nodes, k);
    ContentsOfParts(a, x, b);
    ExceptParts(Contents(a), x.f, Contents(b));
    NodesOfParts(a, x, b);
    forall root
      ensures Nodes([root] + ([x] + (a + b))) == Nodes([root] + (a + [x] + b)) == Nodes([root] + (a + b + [x]))
    {
      NodesBehind(root, [x] + (a + b), a + [x] + b);
      NodesBehind(root, a + b + [x], a + [x] + b);
    }
  }

  lemma NodesBehind<X>(x: X, s: seq<X>, t: seq<X>)
    requires Nodes(s) == Nodes(t)
    ensures Nodes([x] + s) == Nodes([x] + t)
  {
    assert forall y :: y in s <==> y in Nodes(s);
    assert forall y :: y in t <==> y in Nodes(t);
  }

  lemma NodesOfParts<X>(a: seq<X>, x: X, b: seq<X>)
    ensures Nodes([x] + (a + b)) == Nodes(a + [x] + b) == Nodes(a + b + [x])
  {
  }

  lemma NextOf<T>(root: CRing<T>, k: nat)
    requires root.Valid() && k < |root.members|
    ensures root.members[k].next == if k + 1 < |root.members| then root.members[k + 1] else root
  {
    assert root.Cycle()[k + 1] == root.members[k];
  }

  lemma MembersApart<T>(root: CRing<T>)
    requires root.Valid()
    ensures Distinct(root.members) && root !in root.members
  {
    assert root.Cycle()[0] == root;
    forall i, j | 0 <= i < j < |root.members| ensures root.members[i] != root.members[j] {
      assert root.Cycle()[i + 1] != root.Cycle()[j + 1];
    }
    forall i | 0 <= i < |root.members| ensures root.members[i] != root {
      assert root.Cycle()[0] != root.Cycle()[i + 1];
    }
  }

  lemma Strangers<T>(p: CRing<T>, root: CRing<T>)
    requires p.members == [] && p !in root.Cycle()
    ensures p.Apart(root) && Without(root.members, p) == root.members
  {
    WithoutIsSmaller(root.members, p);
  }
}
