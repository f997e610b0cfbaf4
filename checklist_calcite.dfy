/** `calcite/create-markdown-checklist.js`: the older checklist script. It
    walks the unfiltered directory list and chooses each assignee by the raw
    directory index shifted back by the length of the skip list. */
module CalciteCreateMarkdownChecklist {
  import opened Text
  import opened Components
  import opened Utils
  import opened Checklist

  /** The fixed assignee list; no shuffle. */
  const Assignees: seq<string> := ["Add", "Assignees", "Here"]

  /** `Math.max(Math.floor((index - skipCount) / componentsPerAssignee), 0)`
      with `componentsPerAssignee = (dirCount - skipCount) / assigneeCount`,
      evaluated exactly; `None` is NaN or positive infinity (a negative
      infinity is raised to 0 by `Math.max`). */
  function AssigneeIndex(index: nat, dirCount: nat, skipCount: nat, assigneeCount: nat): Option<int> {
    var n := index - skipCount;
    var d := dirCount - skipCount;
    if assigneeCount == 0 then (if d == 0 then None else Some(0))
    else if d == 0 then (if n < 0 then Some(0) else None)
    else Some(Max(FloorDiv(n * assigneeCount, d), 0))
  }

  /** The index is never negative, and the first `skipCount` raw positions all
      go to the first assignee. */
  lemma AssigneeIndexNonNegative(index: nat, dirCount: nat, skipCount: nat, assigneeCount: nat)
    requires AssigneeIndex(index, dirCount, skipCount, assigneeCount).Some?
    ensures AssigneeIndex(index, dirCount, skipCount, assigneeCount).value >= 0
    ensures index <= skipCount <= dirCount ==> AssigneeIndex(index, dirCount, skipCount, assigneeCount).value == 0
  {
    var n := index - skipCount;
    var d := dirCount - skipCount;
    if assigneeCount > 0 && d > 0 && n <= 0 {
      MulMonotone(n, 0, assigneeCount);
      FloorDivMonotone(n * assigneeCount, 0, d);
    }
  }

  /** Along the traversal the index never decreases (more directories than
      skip entries). */
  lemma AssigneeIndexMonotone(i: nat, j: nat, dirCount: nat, skipCount: nat, assigneeCount: nat)
    requires i <= j && dirCount > skipCount && assigneeCount > 0
    ensures AssigneeIndex(i, dirCount, skipCount, assigneeCount).Some?
    ensures AssigneeIndex(i, dirCount, skipCount, assigneeCount).value
         <= AssigneeIndex(j, dirCount, skipCount, assigneeCount).value
  {
    MulMonotone(i - skipCount, j - skipCount, assigneeCount);
    FloorDivMonotone((i - skipCount) * assigneeCount, (j - skipCount) * assigneeCount, dirCount - skipCount);
  }

  /** Every raw position of the listing gets an actual assignee, whether or
      not the skip entries are present (more directories than skip entries). */
  lemma AssigneeIndexInRange(index: nat, dirCount: nat, skipCount: nat, assigneeCount: nat)
    requires dirCount > skipCount && assigneeCount > 0 && index < dirCount
    ensures AssigneeIndex(index, dirCount, skipCount, assigneeCount).Some?
    ensures 0 <= AssigneeIndex(index, dirCount, skipCount, assigneeCount).value < assigneeCount
  {
    var n := index - skipCount;
    var d := dirCount - skipCount;
    AssigneeIndexNonNegative(index, dirCount, skipCount, assigneeCount);
    if n >= 0 {
      var a := assigneeCount;
      MulMonotone(0, n, a);
      MulMonotone(n + 1, d, a);
      assert (n + 1) * a == n * a + a;
      assert d * a == a * d;
      FloorDivRange(n * a, d, a);
    }
  }

  /** What follows the backquote on the line of the component at raw `index`:
      the assignee in parentheses with no space before it, or nothing when
      there are no assignees. */
  function Tail(index: nat, dirCount: nat, skipCount: nat, assignees: seq<string>): string {
    if |assignees| > 0
    then "(" + AssigneeText(assignees, AssigneeIndex(index, dirCount, skipCount, |assignees|)) + ")"
    else ""
  }

  /** `Tail` for each raw index of a listing of `dirCount` entries. */
  function Tails(dirCount: nat, skipCount: nat, assignees: seq<string>): nat -> string {
    (index: nat) => Tail(index, dirCount, skipCount, assignees)
  }

  /** The lines written for the first `n` raw entries of `dirs` (without their
      line breaks), the entry at raw index `i` ending with `tail(i)`. */
  function Lines(dirs: seq<string>, skip: seq<string>, tail: nat -> string, n: nat): seq<string>
    requires n <= |dirs|
    decreases n
  {
    if n == 0 then []
    else Lines(dirs, skip, tail, n - 1)
         + (if dirs[n - 1] in skip then [] else [Entry(dirs[n - 1], tail(n - 1))])
  }

  /** The file the script writes for a directory listing. */
  function ChecklistText(dirs: seq<string>): string {
    Terminated(Lines(dirs, SkipComponents, Tails(|dirs|, |SkipComponents|, Assignees), |dirs|), '\n')
  }

  /** The `for` loop over the raw entries with `continue` for skipped ones. */
  method WriteLines(dirs: seq<string>, skip: seq<string>, assignees: seq<string>) returns (text: string)
    ensures text == Terminated(Lines(dirs, skip, Tails(|dirs|, |skip|, assignees), |dirs|), '\n')
  {
    ghost var tails := Tails(|dirs|, |skip|, assignees);
    text := "";
    var index := 0;
    while index < |dirs|
      invariant 0 <= index <= |dirs|
      invariant text == Terminated(Lines(dirs, skip, tails, index), '\n')
    {
      var component := dirs[index];
      LinesStep(dirs, skip, tails, index);
      if component in skip {
        index := index + 1;
        continue;
      }
      var i := AssigneeIndex(index, |dirs|, |skip|, |assignees|);
      var tail := if |assignees| > 0 then "(" + AssigneeText(assignees, i) + ")" else "";
      assert tail == tails(index);
      text := text + (Box + component + "`" + tail + "\n");
      index := index + 1;
    }
  }

  /** One more raw entry adds its line and a line break, or nothing if it is
      skipped. */
  lemma LinesStep(dirs: seq<string>, skip: seq<string>, tail: nat -> string, index: nat)
    requires index < |dirs|
    ensures Terminated(Lines(dirs, skip, tail, index + 1), '\n')
         == Terminated(Lines(dirs, skip, tail, index), '\n')
            + (if dirs[index] in skip then "" else Box + dirs[index] + "`" + tail(index) + "\n")
  {
    var prev := Lines(dirs, skip, tail, index);
    if dirs[index] in skip {
      assert prev + [] == prev;
    } else {
      TerminatedSnoc(prev, Entry(dirs[index], tail(index)), '\n');
    }
  }

  /** The script: the directory is read before the stream is opened, so a
      failed read writes no file and sets exit code 1. */
  method Run(entries: Option<seq<Dirent>>) returns (file: Option<string>, exitCode: int)
    ensures entries.None? ==> file.None? && exitCode == 1
    ensures entries.Some? ==> file == Some(ChecklistText(GetDirectories(entries.value))) && exitCode == 0
  {
    if entries.None? {
      return None, 1;
    }
    var text := WriteLines(GetDirectories(entries.value), SkipComponents, Assignees);
    return Some(text), 0;
  }

  /** No tail breaks a line when no assignee does. */
  lemma TailsOneLine(dirCount: nat, skipCount: nat, assignees: seq<string>)
    requires OneLine(assignees)
    ensures forall index: nat :: '\n' !in Tails(dirCount, skipCount, assignees)(index)
  {
    forall index: nat
      ensures '\n' !in Tails(dirCount, skipCount, assignees)(index)
    {
      AssigneeTextOneLine(assignees, AssigneeIndex(index, dirCount, skipCount, |assignees|));
    }
  }

  /** The lines name the components that are not skipped, in directory order,
      and none of them breaks a line when no tail does. */
  lemma {:induction false} LinesComponents(dirs: seq<string>, skip: seq<string>, tail: nat -> string, n: nat)
    requires n <= |dirs| && PlainNames(dirs)
    requires forall index: nat :: '\n' !in tail(index)
    ensures OneLine(Lines(dirs, skip, tail, n))
    ensures ComponentsOf(Lines(dirs, skip, tail, n)) == Without(dirs[..n], skip)
    decreases n
  {
    if n > 0 {
      LinesComponents(dirs, skip, tail, n - 1);
      var prev := Lines(dirs, skip, tail, n - 1);
      var c := dirs[n - 1];
      assert dirs[..n] == dirs[..n - 1] + [c];
      WithoutAppend(dirs[..n - 1], [c], skip);
      assert Without([c], skip) == if c in skip then [] else [c] by {
        assert [c][1..] == [];
      }
      if c !in skip {
        var line := Entry(c, tail(n - 1));
        EntryComponent(c, tail(n - 1));
        assert ComponentsOf(prev + [line]) == ComponentsOf(prev) + [c];
      } else {
        assert prev + [] == prev;
      }
    } else {
      assert dirs[..0] == [];
    }
  }

  /** The checklist has exactly one line per component that is not skipped,
      in directory order, followed by nothing. */
  lemma ChecklistComponents(dirs: seq<string>)
    requires PlainNames(dirs)
    ensures var lines := Split(ChecklistText(dirs), '\n');
      lines[|lines| - 1] == "" && ComponentsOf(lines[..|lines| - 1]) == Without(dirs, SkipComponents)
  {
    var tails := Tails(|dirs|, |SkipComponents|, Assignees);
    var lines := Lines(dirs, SkipComponents, tails, |dirs|);
    assert OneLine(Assignees);
    TailsOneLine(|dirs|, |SkipComponents|, Assignees);
    LinesComponents(dirs, SkipComponents, tails, |dirs|);
    assert dirs[..|dirs|] == dirs;
    SplitTerminated(lines, '\n');
    var split := Split(ChecklistText(dirs), '\n');
    assert split[..|split| - 1] == lines;
  }
}
