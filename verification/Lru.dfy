/** Replacing the least recently used entry of a small table: the table as a value, and what it always holds. */
module Lru {

  datatype Entry = Empty | Used(track: nat, serial: nat)

  /** When `t` was last used, counting uses from 1; 0 if never. */
  function LastUse(history: seq<nat>, t: nat): (n: nat)
    ensures n <= |history|
    decreases |history|
  {
    if history == [] then 0
    else if history[|history| - 1] == t then |history|
    else LastUse(history[..|history| - 1], t)
  }

  predicate Cached(v: seq<Entry>, t: nat) {
    exists i :: 0 <= i < |v| && v[i].Used? && v[i].track == t
  }

  /** No track is in two slots, serials are times of last use, and every track that was used but is not in the
      table was used before everything that is, with no slot left empty. */
  ghost predicate Ordered(v: seq<Entry>, history: seq<nat>) {
    && (forall i, j :: 0 <= i < j < |v| && v[i].Used? && v[j].Used? ==> v[i].track != v[j].track)
    && (forall i :: 0 <= i < |v| && v[i].Used? ==> v[i].serial == LastUse(history, v[i].track) > 0)
    && (forall t: nat, i | 0 <= i < |v| && LastUse(history, t) > 0 && !Cached(v, t) ::
          v[i].Used? && v[i].serial > LastUse(history, t))
  }

  lemma UseAgain(history: seq<nat>, t: nat, u: nat)
    ensures LastUse(history + [t], u) == if u == t then |history| + 1 else LastUse(history, u)
  {
    assert (history + [t])[..|history|] == history;
  }

  /** A hit stamps its slot. */
  lemma Hit(v: seq<Entry>, history: seq<nat>, i: nat, t: nat)
    requires Ordered(v, history) && i < |v| && v[i].Used? && v[i].track == t
    ensures Ordered(v[i := Used(t, |history| + 1)], history + [t])
  {
    var w := v[i := Used(t, |history| + 1)];
    forall u: nat ensures LastUse(history + [t], u) == if u == t then |history| + 1 else LastUse(history, u) {
      UseAgain(history, t, u);
    }
    forall u: nat ensures Cached(w, u) == Cached(v, u) {
      if Cached(v, u) {
        var k :| 0 <= k < |v| && v[k].Used? && v[k].track == u;
        assert w[k].Used? && w[k].track == u;
      }
    }
  }

  /** A miss takes an empty slot, or else the one with the smallest serial. */
  lemma Miss(v: seq<Entry>, history: seq<nat>, i: nat, t: nat)
    requires Ordered(v, history) && i < |v| && !Cached(v, t)
    requires v[i].Empty? || forall k :: 0 <= k < |v| ==> v[k].Used? && v[i].serial <= v[k].serial
    ensures Ordered(v[i := Used(t, |history| + 1)], history + [t])
  {
    var w := v[i := Used(t, |history| + 1)];
    forall u: nat ensures LastUse(history + [t], u) == if u == t then |history| + 1 else LastUse(history, u) {
      UseAgain(history, t, u);
    }
    forall u: nat | !Cached(w, u)
      ensures u != t && (!Cached(v, u) || (v[i].Used? && v[i].track == u))
    {
      assert w[i].Used? && w[i].track == t;
      if Cached(v, u) {
        var k :| 0 <= k < |v| && v[k].Used? && v[k].track == u;
        OtherSlot(v, i, k, w[i]);
      }
    }
    forall k | 0 <= k < |v| && k != i && v[k].Used?
      ensures v[k].track != t
    {
    }
    forall u: nat, k | 0 <= k < |w| && LastUse(history + [t], u) > 0 && !Cached(w, u)
      ensures w[k].Used? && w[k].serial > LastUse(history + [t], u)
    {
      if k != i && v[i].Used? && v[i].track == u {
        DifferentTimes(history, v[k].track, u);
      }
    }
  }

  lemma OtherSlot(v: seq<Entry>, i: nat, k: nat, e: Entry)
    requires i < |v| && k < |v| && v[k].Used?
    ensures k == i || Cached(v[i := e], v[k].track)
  {
    assert k != i ==> v[i := e][k] == v[k];
  }

  lemma {:induction false} DifferentTimes(history: seq<nat>, t: nat, u: nat)
    requires t != u
    ensures LastUse(history, t) == LastUse(history, u) ==> LastUse(history, t) == 0
    decreases |history|
  {
    if history != [] && history[|history| - 1] != t && history[|history| - 1] != u {
      DifferentTimes(history[..|history| - 1], t, u);
    }
  }

  // ---------- the last distinct tracks ----------

  function Without(s: seq<nat>, t: nat): (r: seq<nat>)
    ensures t !in r && forall u :: u in r <==> u in s && u != t
    decreases |s|
  {
    if s == [] then [] else if s[0] == t then Without(s[1..], t) else [s[0]] + Without(s[1..], t)
  }

  /** The distinct tracks of the history, most recently used first. */
  function Recent(history: seq<nat>): seq<nat>
    decreases |history|
  {
    if history == [] then []
    else [history[|history| - 1]] + Without(Recent(history[..|history| - 1]), history[|history| - 1])
  }

  ghost predicate Decreasing(s: seq<nat>, history: seq<nat>) {
    forall i, j :: 0 <= i < j < |s| ==> LastUse(history, s[i]) > LastUse(history, s[j])
  }

  lemma {:induction false} WithoutDecreases(s: seq<nat>, history: seq<nat>, t: nat)
    requires Decreasing(s, history)
    ensures Decreasing(Without(s, t), history)
    decreases |s|
  {
    if s != [] {
      WithoutDecreases(s[1..], history, t);
      var w := Without(s[1..], t);
      forall j | 0 <= j < |w|
        ensures LastUse(history, s[0]) > LastUse(history, w[j])
      {
        assert w[j] in w;
        var p :| 0 <= p < |s[1..]| && s[1..][p] == w[j];
        assert s[p + 1] == w[j];
      }
    }
  }

  lemma {:induction false} RecentElements(history: seq<nat>)
    ensures forall t: nat :: t in Recent(history) <==> LastUse(history, t) > 0
    decreases |history|
  {
    if history != [] {
      RecentElements(history[..|history| - 1]);
    }
  }

  lemma {:induction false} RecentDecreases(history: seq<nat>)
    ensures Decreasing(Recent(history), history)
    decreases |history|
  {
    if history != [] {
      var before, t := history[..|history| - 1], history[|history| - 1];
      RecentDecreases(before);
      WithoutDecreases(Recent(before), before, t);
      var r, w := Recent(history), Without(Recent(before), t);
      assert r == [t] + w;
      assert LastUse(history, t) == |history|;
      forall u: nat | u != t ensures LastUse(history, u) == LastUse(before, u) < |history| {
      }
      hide Recent, LastUse, Without;
      forall i, j | 0 <= i < j < |r|
        ensures LastUse(history, r[i]) > LastUse(history, r[j])
      {
        assert r[j] == w[j - 1] && w[j - 1] in w;
        if i > 0 {
          assert r[i] == w[i - 1] && w[i - 1] in w;
        }
      }
    }
  }

  function Tracks(v: seq<Entry>): (s: set<nat>)
    ensures forall t :: t in s <==> Cached(v, t)
    ensures |s| <= |v|
    decreases |v|
  {
    if v == [] then {}
    else
      var rest := Tracks(v[1..]);
      var s := if v[0].Used? then {v[0].track} + rest else rest;
      assert forall t: nat :: Cached(v, t) <==> (v[0].Used? && v[0].track == t) || Cached(v[1..], t) by {
        forall t: nat | Cached(v, t) ensures (v[0].Used? && v[0].track == t) || Cached(v[1..], t) {
          var i :| 0 <= i < |v| && v[i].Used? && v[i].track == t;
          assert i > 0 ==> v[1..][i - 1] == v[i];
        }
        forall t: nat | Cached(v[1..], t) ensures Cached(v, t) {
          var i :| 0 <= i < |v[1..]| && v[1..][i].Used? && v[1..][i].track == t;
          assert v[i + 1] == v[1..][i];
        }
      }
      s
  }

  lemma {:induction false} FullTable(v: seq<Entry>)
    requires forall i :: 0 <= i < |v| ==> v[i].Used?
    requires forall i, j :: 0 <= i < j < |v| ==> v[i].track != v[j].track
    ensures |Tracks(v)| == |v|
    decreases |v|
  {
    if v != [] {
      FullTable(v[1..]);
      assert !Cached(v[1..], v[0].track);
    }
  }

  function Elements(s: seq<nat>): set<nat> {
    set t | t in s
  }

  lemma {:induction false} DistinctElements(s: seq<nat>)
    ensures |Elements(s)| <= |s|
    ensures (forall i, j :: 0 <= i < j < |s| ==> s[i] != s[j]) ==> |Elements(s)| == |s|
    decreases |s|
  {
    if s != [] {
      DistinctElements(s[1..]);
      assert Elements(s) == {s[0]} + Elements(s[1..]);
    }
  }

  lemma MoreRecent(r: seq<nat>, history: seq<nat>, k: nat, t: nat)
    requires Decreasing(r, history) && k < |r| && t in r && LastUse(history, t) > LastUse(history, r[k])
    ensures t in Elements(r[..k])
  {
    hide LastUse;
    var p :| 0 <= p < |r| && r[p] == t;
    assert p < k;
    PrefixElement(r, k, p);
  }

  lemma PrefixElement(r: seq<nat>, n: nat, p: nat)
    requires p < n <= |r|
    ensures r[p] in Elements(r[..n])
  {
    assert r[..n][p] == r[p];
  }

  lemma PrefixesHold(r: seq<nat>, n: nat)
    requires n <= |r|
    ensures forall p :: 0 <= p < n ==> r[p] in Elements(r[..n])
  {
    forall p | 0 <= p < n
      ensures r[p] in Elements(r[..n])
    {
      PrefixElement(r, n, p);
    }
  }

  /** The table has the k-th most recently used track, if it has that many slots. */
  lemma RecentIsCached(v: seq<Entry>, history: seq<nat>, k: nat)
    requires Ordered(v, history) && k < |v| && k < |Recent(history)|
    ensures Cached(v, Recent(history)[k])
  {
    var r := Recent(history);
    RecentElements(history);
    RecentDecreases(history);
    assert r[k] in r;
    hide Recent, LastUse;
    if !Cached(v, r[k]) {
      assert forall i :: 0 <= i < |v| ==> v[i].Used? && v[i].serial > LastUse(history, r[k]);
      FullTable(v);
      forall t | t in Tracks(v)
        ensures t in Elements(r[..k])
      {
        var i :| 0 <= i < |v| && v[i].Used? && v[i].track == t;
        MoreRecent(r, history, k, t);
      }
      DistinctElements(r[..k]);
      Subset(Tracks(v), Elements(r[..k]));
      assert false;
    }
  }

  /** An ordered table holds exactly the last |v| distinct tracks that were used. */
  lemma HoldsTheMostRecent(v: seq<Entry>, history: seq<nat>)
    requires Ordered(v, history)
    ensures var r := Recent(history);
            Tracks(v) == Elements(r[..if |r| < |v| then |r| else |v|])
  {
    var r := Recent(history);
    RecentElements(history);
    RecentDecreases(history);
    var n := if |r| < |v| then |r| else |v|;
    forall k | 0 <= k < n
      ensures r[k] in Tracks(v)
    {
      RecentIsCached(v, history, k);
    }
    forall t | t in Tracks(v)
      ensures t in r
    {
      var i :| 0 <= i < |v| && v[i].Used? && v[i].track == t;
    }
    hide Recent, LastUse, Ordered;
    PrefixIsAll(r, Tracks(v), n, |v|);
  }

  /** A set of at most `size` elements of a sequence that has the first `size` of them. */
  lemma PrefixIsAll(r: seq<nat>, c: set<nat>, n: nat, size: nat)
    requires |c| <= size && n == (if |r| < size then |r| else size) && forall i, j :: 0 <= i < j < |r| ==> r[i] != r[j]
    requires (forall k :: 0 <= k < n ==> r[k] in c) && forall t :: t in c ==> t in r
    ensures c == Elements(r[..n])
  {
    var e := Elements(r[..n]);
    DistinctElements(r[..n]);
    assert e <= c;
    forall t | t in c
      ensures t in e
    {
      if t !in e {
        var p :| 0 <= p < |r| && r[p] == t;
        assert n <= p by { PrefixesHold(r, n); }
        Subset(e + {t}, c);
        assert false;
      }
    }
  }


  lemma {:induction false} Subset(a: set<nat>, b: set<nat>)
    requires a <= b
    ensures |a| <= |b|
    decreases a
  {
    if a != {} {
      var x :| x in a;
      Subset(a - {x}, b - {x});
    }
  }
}
