/** `src/calcite/create-markdown-checklist.js`: one checklist line per
    component that is not skipped, each naming an assignee chosen by the
    component's position in the filtered list. */
module SrcCreateMarkdownChecklist {
  import opened Text
  import opened Components
  import opened Utils
  import opened Checklist

  /** `Math.floor(index / componentsPerAssignee)` with `componentsPerAssignee =
      (dirCount - skipCount) / assigneeCount`, evaluated exactly; `None` is
      NaN or an infinity. */
  function AssigneeIndex(index: nat, dirCount: nat, skipCount: nat, assigneeCount: nat): Option<int> {
    var d := dirCount - skipCount;
    if d == 0 then None
    else if assigneeCount == 0 then Some(0)
    else Some(FloorDiv(index * assigneeCount, d))
  }

  /** Assignees are handed out in order: with more directories than skip
      entries, a later component never gets an earlier assignee. */
  lemma AssigneeIndexMonotone(i: nat, j: nat, dirCount: nat, skipCount: nat, assigneeCount: nat)
    requires i <= j && dirCount > skipCount && assigneeCount > 0
    ensures AssigneeIndex(i, dirCount, skipCount, assigneeCount).Some?
    ensures AssigneeIndex(i, dirCount, skipCount, assigneeCount).value
         <= AssigneeIndex(j, dirCount, skipCount, assigneeCount).value
  {
    FloorDivMonotone(i * assigneeCount, j * assigneeCount, dirCount - skipCount);
  }

  /** Every position of a filtered list of `dirCount - skipCount` components
      gets an actual assignee. */
  lemma AssigneeIndexInRange(index: nat, dirCount: nat, skipCount: nat, assigneeCount: nat)
    requires dirCount > skipCount && assigneeCount > 0 && index < dirCount - skipCount
    ensures AssigneeIndex(index, dirCount, skipCount, assigneeCount).Some?
    ensures 0 <= AssigneeIndex(index, dirCount, skipCount, assigneeCount).value < assigneeCount
  {
    var d := dirCount - skipCount;
    var a := assigneeCount;
    MulMonotone(0, index, a);
    MulMonotone(index + 1, d, a);
    assert (index + 1) * a == index * a + a;
    assert d * a == a * d;
    FloorDivRange(index * a, d, a);
  }

  /** The number of positions below `m` that are handed to assignee `j`. */
  function AssignedTo(j: int, m: nat, dirCount: nat, skipCount: nat, assigneeCount: nat): nat
    decreases m
  {
    if m == 0 then 0
    else AssignedTo(j, m - 1, dirCount, skipCount, assigneeCount)
         + (if AssigneeIndex(m - 1, dirCount, skipCount, assigneeCount) == Some(j) then 1 else 0)
  }

  /** Assignee `j` gets the positions from `ceil(j * n / A)` up to, not
      including, `ceil((j + 1) * n / A)`, for `n = dirCount - skipCount`: the
      count below `m` is the part of that block below `m`. */
  lemma {:induction false} AssignedToBlock(j: nat, m: nat, dirCount: nat, skipCount: nat, assigneeCount: nat)
    requires dirCount > skipCount && assigneeCount > 0
    ensures var n := dirCount - skipCount;
      var lo, hi := CeilDiv(j * n, assigneeCount), CeilDiv((j + 1) * n, assigneeCount);
      0 <= lo <= hi
      && AssignedTo(j, m, dirCount, skipCount, assigneeCount)
         == (if m <= lo then lo else if m <= hi then m else hi) - lo
    decreases m
  {
    var n, a := dirCount - skipCount, assigneeCount;
    var lo, hi := CeilDiv(j * n, a), CeilDiv((j + 1) * n, a);
    CeilDivBounds(j * n, a);
    CeilDivBounds((j + 1) * n, a);
    MulMonotone(lo, -1, a);
    MulMonotone(hi, lo - 1, a);
    assert (j + 1) * n == j * n + n;
    if m > 0 {
      AssignedToBlock(j, m - 1, dirCount, skipCount, assigneeCount);
      FloorDivAtLeast(m - 1, a, n, j);
      FloorDivAtLeast(m - 1, a, n, j + 1);
    }
  }

  /** `Fairly distributes components`: with `n = dirCount - skipCount`
      positions and `A` assignees, every assignee gets `floor(n / A)` or
      `floor(n / A) + 1` of them. */
  lemma AssignmentBalanced(j: nat, dirCount: nat, skipCount: nat, assigneeCount: nat)
    requires dirCount > skipCount && 0 < assigneeCount && j < assigneeCount
    ensures var n := dirCount - skipCount;
      FloorDiv(n, assigneeCount) <= AssignedTo(j, n, dirCount, skipCount, assigneeCount)
                                 <= FloorDiv(n, assigneeCount) + 1
  {
    var n, a := dirCount - skipCount, assigneeCount;
    AssignedToBlock(j, n, dirCount, skipCount, assigneeCount);
    CeilDivWithin(j, n, a);
    assert (j + 1) * n == j * n + n;
    CeilDivSpread(j * n, n, a);
  }

  /** The line of the component at `index` (without its line break): the two
      `stream.write` calls, the second ` (<assignee>)` or nothing when there
      are no assignees. */
  function Line(component: string, index: nat, dirCount: nat, assignees: seq<string>): string {
    var i := AssigneeIndex(index, dirCount, |SkipComponents|, |assignees|);
    Entry(component, if |assignees| > 0 then " (" + AssigneeText(assignees, i) + ")" else "")
  }

  /** The lines of the filtered list, in order. */
  function Lines(components: seq<string>, dirCount: nat, assignees: seq<string>): (r: seq<string>)
    ensures |r| == |components|
  {
    seq(|components|, k requires 0 <= k < |components| => Line(components[k], k, dirCount, assignees))
  }

  /** The file the script writes for a directory listing. */
  function ChecklistText(dirs: seq<string>, assignees: seq<string>): string {
    Terminated(Lines(Without(dirs, SkipComponents), |dirs|, assignees), '\n')
  }

  /** The `forEach` over the filtered list, appending each line to the stream. */
  method WriteLines(components: seq<string>, dirCount: nat, assignees: seq<string>) returns (text: string)
    ensures text == Terminated(Lines(components, dirCount, assignees), '\n')
  {
    text := "";
    var index := 0;
    while index < |components|
      invariant 0 <= index <= |components|
      invariant text == Terminated(Lines(components, dirCount, assignees)[..index], '\n')
    {
      var all := Lines(components, dirCount, assignees);
      assert all[..index + 1] == all[..index] + [all[index]];
      TerminatedSnoc(all[..index], all[index], '\n');
      var i := AssigneeIndex(index, dirCount, |SkipComponents|, |assignees|);
      var tail := if |assignees| > 0 then " (" + AssigneeText(assignees, i) + ")" else "";
      text := text + (Box + components[index] + "`" + tail + "\n");
      index := index + 1;
    }
    assert Lines(components, dirCount, assignees)[..index] == Lines(components, dirCount, assignees);
  }

  /** The script. The stream is opened before the directory is read, so a
      failed read leaves an empty file and exit code 1. `assignees` is the
      shuffled assignee list. */
  method Run(entries: Option<seq<Dirent>>, assignees: seq<string>) returns (file: string, exitCode: int)
    ensures entries.None? ==> file == "" && exitCode == 1
    ensures entries.Some? ==> file == ChecklistText(GetDirectories(entries.value), assignees) && exitCode == 0
  {
    if entries.None? {
      return "", 1;
    }
    var dirs := GetDirectories(entries.value);
    file := WriteLines(Without(dirs, SkipComponents), |dirs|, assignees);
    exitCode := 0;
  }

  /** The checklist has exactly one line per component that is not skipped,
      in directory order, followed by nothing. */
  lemma ChecklistComponents(dirs: seq<string>, assignees: seq<string>)
    requires PlainNames(dirs) && OneLine(assignees)
    ensures var lines := Split(ChecklistText(dirs, assignees), '\n');
      lines[|lines| - 1] == "" && ComponentsOf(lines[..|lines| - 1]) == Without(dirs, SkipComponents)
  {
    var components := Without(dirs, SkipComponents);
    WithoutMembers(dirs, SkipComponents);
    var lines := Lines(components, |dirs|, assignees);
    forall k | 0 <= k < |lines|
      ensures '\n' !in lines[k] && ComponentOf(lines[k]) == components[k]
    {
      assert components[k] in Elems(components);
      var c :| c in dirs && c == components[k];
      var j :| 0 <= j < |dirs| && dirs[j] == c;
      var i := AssigneeIndex(k, |dirs|, |SkipComponents|, |assignees|);
      AssigneeTextOneLine(assignees, i);
      var tail := if |assignees| > 0 then " (" + AssigneeText(assignees, i) + ")" else "";
      EntryComponent(components[k], tail);
      assert lines[k] == Box + components[k] + "`" + tail;
    }
    SplitTerminated(lines, '\n');
    var split := Split(ChecklistText(dirs, assignees), '\n');
    assert split[..|split| - 1] == lines;
  }

  /** When every skip entry is among `dirs` and the names are distinct, no line
      names "undefined" as its assignee: each gets one of the assignees. */
  lemma EveryLineAssigned(dirs: seq<string>, assignees: seq<string>, k: nat)
    requires NoDuplicates(dirs) && forall s :: 0 <= s < |SkipComponents| ==> SkipComponents[s] in dirs
    requires |assignees| > 0 && k < |Without(dirs, SkipComponents)|
    ensures AssigneeIndex(k, |dirs|, |SkipComponents|, |assignees|).Some?
    ensures 0 <= AssigneeIndex(k, |dirs|, |SkipComponents|, |assignees|).value < |assignees|
  {
    assert NoDuplicates(SkipComponents);
    WithoutLengthWhenAllPresent(dirs, SkipComponents);
    AssigneeIndexInRange(k, |dirs|, |SkipComponents|, |assignees|);
  }
}
