/** What the two Markdown checklist scripts share: the line format, the
    arithmetic of JavaScript numbers they rely on, and how a checklist is read
    back into its components. */
module Checklist {
  import opened Text

  /** `Math.floor(n / d)` for a quotient that is an exact rational: the
      greatest integer not above `n / d`. */
  function FloorDiv(n: int, d: int): int
    requires d != 0
  {
    if d > 0 then n / d else (-n) / (-d)
  }

  /** The floor is the greatest integer `q` with `q * d` not beyond `n`, on the
      side of `n` that the sign of `d` gives. */
  lemma FloorDivBounds(n: int, d: int)
    requires d != 0
    ensures d > 0 ==> FloorDiv(n, d) * d <= n < FloorDiv(n, d) * d + d
    ensures d < 0 ==> FloorDiv(n, d) * d >= n > FloorDiv(n, d) * d + d
  {
    if d < 0 {
      var q := (-n) / (-d);
      assert q * (-d) <= -n < q * (-d) + (-d);
      assert q * (-d) == -(q * d);
    }
  }

  lemma MulMonotone(x: int, y: int, d: int)
    requires d >= 0
    ensures x <= y ==> x * d <= y * d
  {
    assert y * d - x * d == (y - x) * d;
  }

  /** The floor of a quotient by a positive divisor grows with the dividend. */
  lemma FloorDivMonotone(m: int, n: int, d: int)
    requires m <= n && d > 0
    ensures FloorDiv(m, d) <= FloorDiv(n, d)
  {
    var p, q := FloorDiv(m, d), FloorDiv(n, d);
    FloorDivBounds(m, d);
    FloorDivBounds(n, d);
    // p * d <= m <= n < (q + 1) * d, so p < q + 1
    assert p * d < (q + 1) * d;
    MulMonotone(q + 1, p, d);
  }

  /** A dividend in `[0, k * d)` gives a floor in `[0, k)`. */
  lemma FloorDivRange(n: int, d: int, k: int)
    requires d > 0 && 0 <= n < k * d
    ensures 0 <= FloorDiv(n, d) < k
  {
    var q := FloorDiv(n, d);
    FloorDivBounds(n, d);
    // 0 * d <= n < (q + 1) * d, and q * d <= n < k * d
    assert 0 * d < (q + 1) * d;
    MulMonotone(q + 1, 0, d);
    MulMonotone(k, q, d);
  }

  /** The least integer `c` with `c * a` not below `x`. */
  function CeilDiv(x: int, a: int): int
    requires a > 0
  {
    FloorDiv(x + a - 1, a)
  }

  lemma CeilDivBounds(x: int, a: int)
    requires a > 0
    ensures CeilDiv(x, a) * a >= x && (CeilDiv(x, a) - 1) * a < x
  {
    var c := CeilDiv(x, a);
    FloorDivBounds(x + a - 1, a);
    assert (c - 1) * a == c * a - a;
  }

  /** A position `k` is sent to block `j` or a later one exactly from the
      first `k` with `k * a` reaching `j * n` on: `floor(k * a / n) >= j` iff
      `k >= ceil(j * n / a)`. */
  lemma FloorDivAtLeast(k: int, a: int, n: int, j: int)
    requires a > 0 && n > 0
    ensures FloorDiv(k * a, n) >= j <==> k >= CeilDiv(j * n, a)
  {
    var f, c := FloorDiv(k * a, n), CeilDiv(j * n, a);
    FloorDivBounds(k * a, n);
    CeilDivBounds(j * n, a);
    assert (f + 1) * n == f * n + n;
    if f >= j {
      MulMonotone(j, f, n);
      MulMonotone(k, c - 1, a);
    } else {
      MulMonotone(f + 1, j, n);
      MulMonotone(c, k, a);
    }
  }

  /** Consecutive blocks: the ceilings of `x / a` and `(x + n) / a` are
      `floor(n / a)` or `floor(n / a) + 1` apart. */
  lemma CeilDivSpread(x: int, n: int, a: int)
    requires a > 0
    ensures FloorDiv(n, a) <= CeilDiv(x + n, a) - CeilDiv(x, a) <= FloorDiv(n, a) + 1
  {
    var lo, hi, q := CeilDiv(x, a), CeilDiv(x + n, a), FloorDiv(n, a);
    CeilDivBounds(x, a);
    CeilDivBounds(x + n, a);
    FloorDivBounds(n, a);
    // at least q: (hi - lo) * a > n - a >= (q - 1) * a
    assert (hi - lo) * a == hi * a - lo * a;
    assert (lo - 1) * a == lo * a - a;
    assert (q - 1) * a == q * a - a;
    MulMonotone(hi - lo, q - 1, a);
    // at most q + 1: (hi - 1 - lo) * a < n < (q + 1) * a
    assert (hi - 1 - lo) * a == (hi - 1) * a - lo * a;
    assert (q + 1) * a == q * a + a;
    MulMonotone(q + 1, hi - 1 - lo, a);
  }

  /** The last block ends within the `n` positions. */
  lemma CeilDivWithin(j: int, n: int, a: int)
    requires a > 0 && n > 0 && j < a
    ensures CeilDiv((j + 1) * n, a) <= n
  {
    var hi := CeilDiv((j + 1) * n, a);
    CeilDivBounds((j + 1) * n, a);
    // (hi - 1) * a < (j + 1) * n <= a * n
    MulMonotone(j + 1, a, n);
    assert a * n == n * a;
    MulMonotone(n, hi - 1, a);
  }

  function Max(a: int, b: int): int { if a >= b then a else b }

  /** `${assignees[i]}` for an index that is a JavaScript number: `None` is NaN
      or an infinity, and any index outside the array reads as "undefined". */
  function AssigneeText(assignees: seq<string>, i: Option<int>): string {
    if i.Some? && 0 <= i.value < |assignees| then assignees[i.value] else "undefined"
  }

  /** The opening every checklist line starts with. */
  const Box: string := "- [ ] `"

  /** ``- [ ] `component` `` followed by `tail` (without the line break). */
  function Entry(component: string, tail: string): string {
    Box + component + "`" + tail
  }

  /** The component a checklist line names: the text between its box and the
      next backquote. */
  function ComponentOf(line: string): string {
    if StartsWith(line, Box) then Before(line[|Box|..], '`') else line
  }

  /** A component name without backquotes is read back from its line. */
  lemma EntryComponent(component: string, tail: string)
    requires '`' !in component
    ensures StartsWith(Entry(component, tail), Box)
    ensures ComponentOf(Entry(component, tail)) == component
  {
    var line := Entry(component, tail);
    assert line[..|Box|] == Box;
    assert line[|Box|..] == component + ['`'] + tail;
    BeforeDelimited(component, '`', tail);
  }

  /** Component names that can be read back from a checklist. */
  predicate PlainNames(names: seq<string>) {
    forall k :: 0 <= k < |names| ==> '`' !in names[k] && '\n' !in names[k]
  }

  /** Assignee names that keep to one line. */
  predicate OneLine(names: seq<string>) {
    forall k :: 0 <= k < |names| ==> '\n' !in names[k]
  }

  /** The `${assignees[i]}` text of one-line names stays on one line. */
  lemma AssigneeTextOneLine(assignees: seq<string>, i: Option<int>)
    requires OneLine(assignees)
    ensures '\n' !in AssigneeText(assignees, i)
  {
    if !(i.Some? && 0 <= i.value < |assignees|) {
      assert "undefined" == ['u'] + "ndefined";
    }
  }

  /** The components named by a sequence of lines. */
  function ComponentsOf(lines: seq<string>): (r: seq<string>)
    ensures |r| == |lines|
    ensures forall k :: 0 <= k < |lines| ==> r[k] == ComponentOf(lines[k])
  {
    seq(|lines|, k requires 0 <= k < |lines| => ComponentOf(lines[k]))
  }
}
