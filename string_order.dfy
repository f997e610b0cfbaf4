/** The order `Array.prototype.sort` puts strings in when given no comparator
    (character by character, a proper prefix first), and `[...new Set(xs)].sort()`
    as the strictly increasing listing of the elements of `xs`. */
module StringOrder {

  /** `a` sorts strictly before `b`. */
  predicate Less(a: string, b: string)
    decreases |a|
  {
    |b| > 0 && (|a| == 0 || a[0] < b[0] || (a[0] == b[0] && Less(a[1..], b[1..])))
  }

  lemma {:induction false} LessIrreflexive(a: string)
    ensures !Less(a, a)
    decreases |a|
  {
    if |a| > 0 {
      LessIrreflexive(a[1..]);
    }
  }

  lemma {:induction false} LessTransitive(a: string, b: string, c: string)
    requires Less(a, b) && Less(b, c)
    ensures Less(a, c)
    decreases |a|
  {
    if |a| > 0 && a[0] == b[0] && b[0] == c[0] {
      LessTransitive(a[1..], b[1..], c[1..]);
    }
  }

  /** Two different strings are ordered one way or the other. */
  lemma {:induction false} LessTotal(a: string, b: string)
    requires a != b
    ensures Less(a, b) || Less(b, a)
    decreases |a|
  {
    if |a| > 0 && |b| > 0 && a[0] == b[0] {
      assert a == [a[0]] + a[1..] && b == [b[0]] + b[1..];
      LessTotal(a[1..], b[1..]);
    }
  }

  lemma LessAsymmetric(a: string, b: string)
    ensures Less(a, b) ==> !Less(b, a)
  {
    if Less(a, b) && Less(b, a) {
      LessTransitive(a, b, a);
      LessIrreflexive(a);
    }
  }

  predicate StrictlySorted(s: seq<string>) {
    forall i, j :: 0 <= i < j < |s| ==> Less(s[i], s[j])
  }

  function Elems(s: seq<string>): set<string> {
    set x | x in s
  }

  /** Puts `x` into its place in a strictly sorted list, unless it is there. */
  function Insert(x: string, s: seq<string>): (r: seq<string>)
    requires StrictlySorted(s)
    ensures StrictlySorted(r) && Elems(r) == Elems(s) + {x}
    decreases |s|
  {
    if |s| == 0 then [x]
    else if x == s[0] then s
    else if Less(x, s[0]) then
      InsertBefore(x, s);
      [x] + s
    else
      var rest := Insert(x, s[1..]);
      InsertAfter(x, s, rest);
      [s[0]] + rest
  }

  lemma InsertBefore(x: string, s: seq<string>)
    requires StrictlySorted(s) && |s| > 0 && Less(x, s[0])
    ensures StrictlySorted([x] + s) && Elems([x] + s) == Elems(s) + {x}
  {
    forall j | 1 <= j < |s| + 1
      ensures Less(x, ([x] + s)[j])
    {
      if j > 1 {
        LessTransitive(x, s[0], s[j - 1]);
      }
    }
  }

  lemma InsertAfter(x: string, s: seq<string>, rest: seq<string>)
    requires StrictlySorted(s) && |s| > 0 && x != s[0] && !Less(x, s[0])
    requires StrictlySorted(rest) && Elems(rest) == Elems(s[1..]) + {x}
    ensures StrictlySorted([s[0]] + rest) && Elems([s[0]] + rest) == Elems(s) + {x}
  {
    LessTotal(x, s[0]);
    forall j | 0 <= j < |rest|
      ensures Less(s[0], rest[j])
    {
      assert rest[j] in Elems(rest);
      if rest[j] != x {
        var k :| 0 <= k < |s[1..]| && s[1..][k] == rest[j];
        assert s[k + 1] == rest[j];
      }
    }
    var r := [s[0]] + rest;
    forall i, j | 0 <= i < j < |r|
      ensures Less(r[i], r[j])
    {
      if i > 0 {
        assert r[i] == rest[i - 1] && r[j] == rest[j - 1];
      } else {
        assert r[j] == rest[j - 1];
      }
    }
    assert Elems(r) == {s[0]} + Elems(rest);
    assert s == [s[0]] + s[1..];
    assert Elems(s) == {s[0]} + Elems(s[1..]);
  }

  /** `[...new Set(xs)].sort()` */
  function SortedUnique(xs: seq<string>): (r: seq<string>)
    ensures StrictlySorted(r) && Elems(r) == Elems(xs)
    decreases |xs|
  {
    if |xs| == 0 then []
    else
      var r := Insert(xs[|xs| - 1], SortedUnique(xs[..|xs| - 1]));
      assert xs == xs[..|xs| - 1] + [xs[|xs| - 1]];
      r
  }

  /** A set has exactly one strictly sorted listing: the result of sorting is
      determined by the elements alone, whatever their order and repetition. */
  lemma {:induction false} SortedListingUnique(a: seq<string>, b: seq<string>)
    requires StrictlySorted(a) && StrictlySorted(b) && Elems(a) == Elems(b)
    ensures a == b
    decreases |a|
  {
    if |a| == 0 {
      HeadIn(b);
    } else {
      assert a[0] in Elems(b);
      var i :| 0 <= i < |b| && b[i] == a[0];
      assert b[0] in Elems(a);
      var j :| 0 <= j < |a| && a[j] == b[0];
      assert i == 0 || Less(b[0], a[0]);
      assert j == 0 || Less(a[0], b[0]);
      LessAsymmetric(a[0], b[0]);
      assert a[0] == b[0];
      MinimumNotInTail(a);
      MinimumNotInTail(b);
      assert Elems(a) == {a[0]} + Elems(a[1..]);
      assert Elems(b) == {b[0]} + Elems(b[1..]);
      SortedListingUnique(a[1..], b[1..]);
      assert a == [a[0]] + a[1..] && b == [b[0]] + b[1..];
    }
  }

  lemma HeadIn(b: seq<string>)
    ensures |b| > 0 ==> b[0] in Elems(b)
  {
  }

  lemma MinimumNotInTail(a: seq<string>)
    requires StrictlySorted(a) && |a| > 0
    ensures a[0] !in Elems(a[1..])
  {
    if a[0] in Elems(a[1..]) {
      var k :| 0 <= k < |a[1..]| && a[1..][k] == a[0];
      assert Less(a[0], a[k + 1]);
      LessIrreflexive(a[0]);
    }
  }
}
