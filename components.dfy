/** The skip lists of the per-component scripts and the filter that applies them. */
module Components {

  /** The components every script but the CSS audit leaves out. */
  const SkipComponents: seq<string> := [
    "functional", "color-picker-hex-input", "color-picker-swatch", "date-picker-day",
    "date-picker-month", "date-picker-month-header", "graph", "handle", "sortable-list"
  ]

  /** The CSS audit's skip list: the same, without "graph". */
  const AuditSkip: seq<string> := [
    "functional", "color-picker-hex-input", "color-picker-swatch", "date-picker-day",
    "date-picker-month", "date-picker-month-header", "handle", "sortable-list"
  ]

  /** `dirs.filter((c) => !skip.includes(c))` */
  function Without(dirs: seq<string>, skip: seq<string>): seq<string>
    decreases |dirs|
  {
    if |dirs| == 0 then []
    else (if dirs[0] in skip then [] else [dirs[0]]) + Without(dirs[1..], skip)
  }

  function Elems(s: seq<string>): set<string> {
    set x | x in s
  }

  predicate NoDuplicates(s: seq<string>) {
    forall i, j :: 0 <= i < j < |s| ==> s[i] != s[j]
  }

  /** The filter keeps relative order: it distributes over concatenation. */
  lemma {:induction false} WithoutAppend(a: seq<string>, b: seq<string>, skip: seq<string>)
    ensures Without(a + b, skip) == Without(a, skip) + Without(b, skip)
    decreases |a|
  {
    if |a| > 0 {
      assert (a + b)[1..] == a[1..] + b;
      WithoutAppend(a[1..], b, skip);
    } else {
      assert a + b == b;
    }
  }

  /** A component survives the filter iff it is listed and not skipped. */
  lemma {:induction false} WithoutMembers(dirs: seq<string>, skip: seq<string>)
    ensures Elems(Without(dirs, skip)) == Elems(dirs) - Elems(skip)
    ensures |Without(dirs, skip)| <= |dirs|
    decreases |dirs|
  {
    if |dirs| > 0 {
      WithoutMembers(dirs[1..], skip);
      assert Elems(dirs) == {dirs[0]} + Elems(dirs[1..]);
      var head := if dirs[0] in skip then [] else [dirs[0]];
      var rest := Without(dirs[1..], skip);
      assert Without(dirs, skip) == head + rest;
      assert Elems(head + rest) == Elems(head) + Elems(rest);
    }
  }

  lemma {:induction false} WithoutNoDuplicates(dirs: seq<string>, skip: seq<string>)
    requires NoDuplicates(dirs)
    ensures NoDuplicates(Without(dirs, skip))
    decreases |dirs|
  {
    if |dirs| > 0 {
      WithoutNoDuplicates(dirs[1..], skip);
      WithoutMembers(dirs[1..], skip);
      assert dirs[0] !in Elems(dirs[1..]);
      var rest := Without(dirs[1..], skip);
      if dirs[0] !in skip {
        assert Without(dirs, skip) == [dirs[0]] + rest;
        assert dirs[0] !in Elems(rest);
        forall i, j | 0 <= i < j < |rest| + 1
          ensures ([dirs[0]] + rest)[i] != ([dirs[0]] + rest)[j]
        {
          if i == 0 {
            assert ([dirs[0]] + rest)[j] == rest[j - 1];
            assert rest[j - 1] in Elems(rest);
          }
        }
      }
    }
  }

  lemma {:induction false} CardinalityOfDistinct(s: seq<string>)
    requires NoDuplicates(s)
    ensures |Elems(s)| == |s|
    decreases |s|
  {
    if |s| > 0 {
      CardinalityOfDistinct(s[1..]);
      assert Elems(s) == {s[0]} + Elems(s[1..]);
      assert s[0] !in Elems(s[1..]);
    }
  }

  /** When the directories are distinct and every skip entry is one of them,
      exactly `|dirs| - |skip|` components remain. */
  lemma WithoutLengthWhenAllPresent(dirs: seq<string>, skip: seq<string>)
    requires NoDuplicates(dirs) && NoDuplicates(skip)
    requires forall k :: 0 <= k < |skip| ==> skip[k] in dirs
    ensures |Without(dirs, skip)| == |dirs| - |skip|
  {
    var w := Without(dirs, skip);
    WithoutMembers(dirs, skip);
    WithoutNoDuplicates(dirs, skip);
    CardinalityOfDistinct(dirs);
    CardinalityOfDistinct(skip);
    CardinalityOfDistinct(w);
    assert Elems(skip) <= Elems(dirs);
    assert Elems(dirs) == (Elems(dirs) - Elems(skip)) + Elems(skip);
    assert |Elems(dirs)| == |Elems(dirs) - Elems(skip)| + |Elems(skip)|;
  }
}
