/** Comparison of Human68k names: byte by byte, but aware of two-byte characters. */
module NameCompares {
  import opened Bytes
  import opened HumanNames

  const QUESTION: byte := 0x3F
  const SLASH: byte := 0x2F
  const BACKSLASH: byte := 0x5C

  /** A byte as compared: letters in lower case unless the option to tell them apart is set, and one kind of slash. */
  function Folded(alphabet: bool, c: byte): byte {
    if !alphabet && 0x41 <= c <= 0x5A then c + 0x20 else if c == BACKSLASH then SLASH else c
  }

  /** Whether a byte of the pattern matches one of the name; only bytes that are no trail bytes are folded. */
  predicate Agree(alphabet: bool, c: byte, d: byte, trailC: bool, trailD: bool) {
    c == d || c == QUESTION || (!trailC && !trailD && Folded(alphabet, c) == Folded(alphabet, d))
  }

  /** Whether a name matches a pattern, in which a question mark stands for any byte, also for one past the end. */
  predicate Matches(alphabet: bool, pattern: Name, name: Name, trailC: bool, trailD: bool) {
    if pattern == [] then name == []
    else
      var d := if name == [] then 0 else name[0];
      && Agree(alphabet, pattern[0], d, trailC, trailD)
      && Matches(alphabet, pattern[1..], if name == [] then [] else name[1..],
                 !trailC && Lead(pattern[0]), !trailD && Lead(d))
  }

  // ---------- matching place by place ----------

  /** Byte `i` is the second of a two-byte character. */
  predicate Trail(s: Name, i: nat)
    decreases i
  {
    0 < i <= |s| && !Trail(s, i - 1) && (0x80 <= s[i - 1] <= 0x9F || 0xE0 <= s[i - 1])
  }

  /** The same byte, the same letter 0x20 apart where case does not matter, or two slashes of either kind. */
  predicate LookAlike(alphabet: bool, c: byte, d: byte) {
    || c == d
    || (!alphabet && ((0x41 <= c <= 0x5A && d == c + 0x20) || (0x41 <= d <= 0x5A && c == d + 0x20)))
    || (c in {0x2F, 0x5C} && d in {0x2F, 0x5C})
  }

  /** The byte of the pattern is a question mark, the same as that of the name, or looks like it while neither is a
      trail byte; past the end of the name it is a question mark or 0. */
  predicate FitsAt(alphabet: bool, pattern: Name, name: Name, i: nat)
    requires i < |pattern|
  {
    || pattern[i] == 0x3F
    || (if i >= |name| then pattern[i] == 0
        else pattern[i] == name[i]
             || (!Trail(pattern, i) && !Trail(name, i) && LookAlike(alphabet, pattern[i], name[i])))
  }

  lemma {:induction false} MatchesFrom(alphabet: bool, pattern: Name, name: Name, i: nat)
    requires i <= |pattern|
    ensures Matches(alphabet, pattern[i..], if i < |name| then name[i..] else [], Trail(pattern, i), Trail(name, i))
            <==> |name| <= |pattern| && forall k :: i <= k < |pattern| ==> FitsAt(alphabet, pattern, name, k)
    decreases |pattern| - i
  {
    if i < |pattern| {
      var rest := if i < |name| then name[i..] else [];
      var d := if i < |name| then name[i] else 0;
      assert pattern[i..][1..] == pattern[i + 1..];
      assert (if rest == [] then [] else rest[1..]) == if i + 1 < |name| then name[i + 1..] else [];
      MatchesFrom(alphabet, pattern, name, i + 1);
      assert Agree(alphabet, pattern[i], d, Trail(pattern, i), Trail(name, i)) <==> FitsAt(alphabet, pattern, name, i);
      assert Trail(pattern, i + 1) == (!Trail(pattern, i) && Lead(pattern[i]));
      assert Trail(name, i + 1) == (!Trail(name, i) && Lead(d));
    }
  }

  /** A name matches exactly if it is no longer than the pattern and fits at every place. */
  lemma MatchesPlaceByPlace(alphabet: bool, pattern: Name, name: Name)
    ensures Matches(alphabet, pattern, name, false, false)
            <==> |name| <= |pattern| && forall k :: 0 <= k < |pattern| ==> FitsAt(alphabet, pattern, name, k)
  {
    MatchesFrom(alphabet, pattern, name, 0);
    assert pattern[0..] == pattern && name[0..] == name;
  }

  /** 0 for a match, 1 for a difference, 2 for a name that goes on where the pattern ends. */
  method Compare(alphabet: bool, pattern: Name, name: Name) returns (r: nat)
    ensures r == 0 <==> Matches(alphabet, pattern, name, false, false)
    ensures r == 0 <==>
              |name| <= |pattern| && forall k :: 0 <= k < |pattern| ==> FitsAt(alphabet, pattern, name, k)
    ensures r <= 2 && (r == 2 ==> |name| > |pattern|)
  {
    MatchesPlaceByPlace(alphabet, pattern, name);
    hide FitsAt;
    var skip0, skip1 := false, false;
    var i, j := 0, 0;
    while i < |pattern|
      invariant i <= |pattern| && j == if i < |name| then i else |name|
      invariant Matches(alphabet, pattern, name, false, false)
          == Matches(alphabet, pattern[i..], name[j..], skip0, skip1)
    {
      var c, d := pattern[i], 0;
      assert pattern[i..][1..] == pattern[i + 1..];
      if j < |name| {
        assert name[j..][1..] == name[j + 1..];
        d := name[j];
        j := j + 1;
      }
      i := i + 1;
      if !skip0 {
        if !skip1 {
          skip0 := Lead(c);
          skip1 := Lead(d);
          if c == d {
            continue;
          }
          c, d := Folded(alphabet, c), Folded(alphabet, d);
        } else {
          skip0 := Lead(c);
          skip1 := false;
        }
      } else {
        if !skip1 {
          skip0 := false;
          skip1 := Lead(d);
        } else {
          skip0, skip1 := false, false;
        }
      }
      if c == d || c == QUESTION {
        continue;
      }
      return 1;
    }
    r := if j < |name| then 2 else 0;
  }

  // ---------- matching without question marks ----------

  /** A name with all its bytes as compared. */
  function Key(alphabet: bool, s: Name, trail: bool): Name {
    if s == [] then []
    else [if trail then s[0] else Folded(alphabet, s[0])] + Key(alphabet, s[1..], !trail && Lead(s[0]))
  }

  predicate Plain(s: Name) {
    QUESTION !in s && 0 !in s
  }

  /** Without question marks, names match exactly when they look the same as compared: matching is an equivalence. */
  lemma {:induction false} PlainMatch(alphabet: bool, p: Name, s: Name, trail: bool)
    requires Plain(p)
    ensures Matches(alphabet, p, s, trail, trail) <==> Key(alphabet, p, trail) == Key(alphabet, s, trail)
  {
    if p == [] {
    } else if s == [] {
      assert Key(alphabet, p, trail) != [];
      assert !Agree(alphabet, p[0], 0, trail, trail);
    } else {
      var k, l := Key(alphabet, p, trail), Key(alphabet, s, trail);
      assert k[1..] == Key(alphabet, p[1..], !trail && Lead(p[0]))
             && l[1..] == Key(alphabet, s[1..], !trail && Lead(s[0]));
      if k[0] == l[0] {
        assert Lead(p[0]) == Lead(s[0]) || trail;
        PlainMatch(alphabet, p[1..], s[1..], !trail && Lead(p[0]));
      } else {
        assert !Agree(alphabet, p[0], s[0], trail, trail);
      }
    }
  }

  predicate Printable(s: Name) {
    forall i :: 0 <= i < |s| ==> 0 < s[i] < 0x80
  }

  /** ASCII names without question marks match exactly if they have one length and look alike at every place. */
  lemma AsciiNamesLookAlike(alphabet: bool, a: Name, b: Name)
    requires Printable(a) && Printable(b) && QUESTION !in a
    ensures Matches(alphabet, a, b, false, false)
            <==> |a| == |b| && forall i :: 0 <= i < |a| ==> LookAlike(alphabet, a[i], b[i])
  {
    MatchesPlaceByPlace(alphabet, a, b);
    if |b| < |a| {
      assert !FitsAt(alphabet, a, b, |b|);
    } else if |b| == |a| {
      assert forall i :: 0 <= i < |a| ==> (FitsAt(alphabet, a, b, i) <==> LookAlike(alphabet, a[i], b[i]));
    }
  }

  lemma {:induction false} EveryNameMatchesItself(alphabet: bool, s: Name, trail: bool)
    ensures Matches(alphabet, s, s, trail, trail)
  {
    if s != [] {
      EveryNameMatchesItself(alphabet, s[1..], !trail && Lead(s[0]));
    }
  }

  /** With question marks it is none: a pattern can match two names that do not match each other. */
  lemma QuestionMarksMatchMore(alphabet: bool)
    ensures var q: Name, a: Name, b: Name := [QUESTION], [0x61], [0x62];
            && Matches(alphabet, q, a, false, false) && Matches(alphabet, q, b, false, false)
            && !Matches(alphabet, a, b, false, false)
  {
    var q: Name, a: Name, b: Name := [QUESTION], [0x61], [0x62];
    assert q[1..] == [] && a[1..] == [] && b[1..] == [];
  }
}
