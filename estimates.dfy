/** `src/calcite/track-issue-estimates.js`: per-milestone effort totals taken
    from the estimate labels of closed issues. */
module TrackIssueEstimates {
  import opened Text
  import opened GitHub
  import Throttle

  /** A secondary rate limit logs and ends the process with code 1. */
  const OnSecondary: Throttle.SecondaryPolicy := Throttle.LogAndExit

  datatype Label = Label(name: string)
  datatype Issue = Issue(number: int, isPullRequest: bool, labels: seq<Label>)
  datatype Milestone = Milestone(number: int, dueOn: string, title: string, description: string)

  /** A JavaScript number reached by adding parsed estimates: a natural number,
      or NaN once any label without digits was added. */
  datatype Effort = Total(n: nat) | NaN

  /** One milestone's record in the `output` object. */
  datatype Entry = Entry(
    dueOn: string, title: string, description: string,
    closedIssues: nat, issuesWithEstimate: nat, effortEstimate: Effort)

  /** `label.name.match(/estimate/)` */
  predicate IsEstimateLabel(l: Label) {
    Contains(l.name, "estimate")
  }

  /** The position of the first estimate label, or `|labels|` if there is none. */
  function FirstEstimateIndex(labels: seq<Label>): (k: nat)
    ensures k <= |labels|
    ensures forall j :: 0 <= j < k ==> !IsEstimateLabel(labels[j])
    ensures k < |labels| ==> IsEstimateLabel(labels[k])
    decreases |labels|
  {
    if |labels| == 0 then 0
    else if IsEstimateLabel(labels[0]) then 0
    else 1 + FirstEstimateIndex(labels[1..])
  }

  /** `Number.parseInt(name.replace(/\D/g, ""))`: the number the digits of the
      name spell, in order; `None` is the NaN of a name without digits. */
  function EstimateValue(name: string): Option<nat> {
    var ds := DigitsOf(name);
    if |ds| == 0 then None else Some(DecimalValue(ds))
  }

  /** `effort_estimate += value`, where NaN absorbs everything. */
  function AddEstimate(e: Effort, v: Option<nat>): Effort {
    match e
    case NaN => NaN
    case Total(n) => if v.None? then NaN else Total(n + v.value)
  }

  /** The record a milestone starts with. */
  function FreshEntry(m: Milestone): Entry {
    Entry(m.dueOn, m.title, m.description, 0, 0, Total(0))
  }

  /** What one listed issue does to its milestone's record. */
  function TallyIssue(e: Entry, issue: Issue): Entry {
    if issue.isPullRequest then e
    else
      var k := FirstEstimateIndex(issue.labels);
      if k == |issue.labels| then e.(closedIssues := e.closedIssues + 1)
      else e.(closedIssues := e.closedIssues + 1,
              issuesWithEstimate := e.issuesWithEstimate + 1,
              effortEstimate := AddEstimate(e.effortEstimate, EstimateValue(issue.labels[k].name)))
  }

  /** A record after the listed issues, processed in order. */
  function Tally(e: Entry, issues: seq<Issue>): Entry
    decreases |issues|
  {
    if |issues| == 0 then e
    else TallyIssue(Tally(e, issues[..|issues| - 1]), issues[|issues| - 1])
  }

  /** The `output` object after the listed milestones, each tallied over the
      closed issues the API lists for it. */
  function Aggregate(ms: seq<Milestone>, issuesOf: int -> seq<Issue>): map<int, Entry>
    decreases |ms|
  {
    if |ms| == 0 then map[]
    else
      var m := ms[|ms| - 1];
      Aggregate(ms[..|ms| - 1], issuesOf)[m.number := Tally(FreshEntry(m), issuesOf(m.number))]
  }

  /** The issue listing requested for each milestone, in order. */
  function IssueListings(ms: seq<Milestone>): (r: seq<Effect>)
    ensures |r| == |ms|
    ensures forall i :: 0 <= i < |ms| ==> r[i] == ListMilestoneIssues(ms[i].number, "closed", 100)
  {
    seq(|ms|, i requires 0 <= i < |ms| => ListMilestoneIssues(ms[i].number, "closed", 100))
  }

  /** The body of the issue loop for an issue that is not a pull request: count
      it as closed, then look for its first estimate label and stop there. */
  method CountIssue(e: Entry, issue: Issue) returns (next: Entry)
    requires !issue.isPullRequest
    ensures next == TallyIssue(e, issue)
  {
    next := e.(closedIssues := e.closedIssues + 1);
    var k := 0;
    while k < |issue.labels|
      invariant 0 <= k <= |issue.labels|
      invariant forall t :: 0 <= t < k ==> !IsEstimateLabel(issue.labels[t])
    {
      if IsEstimateLabel(issue.labels[k]) {
        next := next.(issuesWithEstimate := next.issuesWithEstimate + 1,
                      effortEstimate := AddEstimate(next.effortEstimate, EstimateValue(issue.labels[k].name)));
        break;
      }
      k := k + 1;
    }
    assert k == FirstEstimateIndex(issue.labels);
  }

  /** The body of the milestone loop once its issues are listed: a fresh record
      for the milestone, then every listed issue counted into it in place. */
  method TallyMilestone(before: map<int, Entry>, m: Milestone, issues: seq<Issue>)
    returns (output: map<int, Entry>)
    ensures output == before[m.number := Tally(FreshEntry(m), issues)]
  {
    output := before[m.number := FreshEntry(m)];
    var j := 0;
    while j < |issues|
      invariant 0 <= j <= |issues|
      invariant output == before[m.number := Tally(FreshEntry(m), issues[..j])]
    {
      var issue := issues[j];
      assert issues[..j + 1][..j] == issues[..j];
      if issue.isPullRequest {
        j := j + 1;
        continue;
      }
      var e := CountIssue(output[m.number], issue);
      output := output[m.number := e];
      j := j + 1;
    }
    assert issues[..j] == issues;
  }

  /** The calls made, the JSON object written (if any) and the exit code. */
  datatype Outcome = Outcome(effects: seq<Effect>, written: Option<map<int, Entry>>, exitCode: int)

  const MilestoneQuery: Effect := ListMilestones("closed", 16)

  /** The script: missing token, then the milestone listing, then one issue
      listing per milestone while the `output` object is filled in place.
      `milestones` is the API's answer to the milestone listing and
      `issuesOf(n)` its answer to the issue listing of milestone `n`. */
  method Run(pat: string, milestones: seq<Milestone>, issuesOf: int -> seq<Issue>) returns (o: Outcome)
    ensures pat == "" ==> o == Outcome([], None, 1)
    ensures pat != "" && |milestones| == 0 ==> o == Outcome([MilestoneQuery], None, 1)
    ensures pat != "" && |milestones| > 0 ==>
      o.exitCode == 0 && o.written == Some(Aggregate(milestones, issuesOf))
      && o.effects == [MilestoneQuery] + IssueListings(milestones)
  {
    if pat == "" {
      return Outcome([], None, 1);
    }
    var effects := [MilestoneQuery];
    if |milestones| == 0 {
      return Outcome(effects, None, 1);
    }
    var output: map<int, Entry> := map[];
    var i := 0;
    while i < |milestones|
      invariant 0 <= i <= |milestones|
      invariant output == Aggregate(milestones[..i], issuesOf)
      invariant effects == [MilestoneQuery] + IssueListings(milestones[..i])
    {
      var m := milestones[i];
      effects := effects + [ListMilestoneIssues(m.number, "closed", 100)];
      output := TallyMilestone(output, m, issuesOf(m.number));
      assert milestones[..i + 1][..i] == milestones[..i];
      assert IssueListings(milestones[..i + 1]) == IssueListings(milestones[..i]) + [ListMilestoneIssues(m.number, "closed", 100)];
      i := i + 1;
    }
    assert milestones[..i] == milestones;
    return Outcome(effects, Some(output), 0);
  }

  // ---------------------------------------------------------------------------
  // Independent counts, defined from the front of the listing.

  /** The number of listed items that are not pull requests. */
  function ClosedCount(issues: seq<Issue>): nat
    decreases |issues|
  {
    if |issues| == 0 then 0
    else (if issues[0].isPullRequest then 0 else 1) + ClosedCount(issues[1..])
  }

  /** The number of issues (not pull requests) with at least one estimate label. */
  function EstimatedCount(issues: seq<Issue>): nat
    decreases |issues|
  {
    if |issues| == 0 then 0
    else (if !issues[0].isPullRequest && HasEstimate(issues[0]) then 1 else 0) + EstimatedCount(issues[1..])
  }

  predicate HasEstimate(issue: Issue) {
    exists k :: 0 <= k < |issue.labels| && IsEstimateLabel(issue.labels[k])
  }

  /** The estimate an issue contributes: the value of its first estimate label. */
  function Contribution(issue: Issue): Option<nat>
    requires !issue.isPullRequest && HasEstimate(issue)
  {
    var k := FirstEstimateIndex(issue.labels);
    EstimateValue(issue.labels[k].name)
  }

  /** Some issue's first estimate label has no digits, so the total is NaN. */
  predicate Poisoned(issues: seq<Issue>)
  {
    exists i :: (0 <= i < |issues| && !issues[i].isPullRequest && HasEstimate(issues[i])
                 && Contribution(issues[i]).None?)
  }

  /** The sum of all contributions that are numbers. */
  function EstimateSum(issues: seq<Issue>): nat
    decreases |issues|
  {
    if |issues| == 0 then 0
    else
      var c := if !issues[0].isPullRequest && HasEstimate(issues[0]) && Contribution(issues[0]).Some?
               then Contribution(issues[0]).value else 0;
      c + EstimateSum(issues[1..])
  }

  lemma {:induction false} CountsSnoc(issues: seq<Issue>, x: Issue)
    ensures ClosedCount(issues + [x]) == ClosedCount(issues) + (if x.isPullRequest then 0 else 1)
    ensures EstimatedCount(issues + [x]) == EstimatedCount(issues) + (if !x.isPullRequest && HasEstimate(x) then 1 else 0)
    ensures EstimateSum(issues + [x]) == EstimateSum(issues)
      + (if !x.isPullRequest && HasEstimate(x) && Contribution(x).Some? then Contribution(x).value else 0)
    decreases |issues|
  {
    if |issues| > 0 {
      assert (issues + [x])[1..] == issues[1..] + [x];
      CountsSnoc(issues[1..], x);
    } else {
      assert issues + [x] == [x];
    }
  }

  lemma PoisonedSnoc(issues: seq<Issue>, x: Issue)
    ensures Poisoned(issues + [x]) <==>
      Poisoned(issues) || (!x.isPullRequest && HasEstimate(x) && Contribution(x).None?)
  {
    var s := issues + [x];
    if Poisoned(s) {
      var i :| 0 <= i < |s| && !s[i].isPullRequest && HasEstimate(s[i]) && Contribution(s[i]).None?;
      if i < |issues| {
        assert s[i] == issues[i];
      }
    }
    if Poisoned(issues) {
      var i :| 0 <= i < |issues| && !issues[i].isPullRequest && HasEstimate(issues[i]) && Contribution(issues[i]).None?;
      assert s[i] == issues[i];
    }
    if !x.isPullRequest && HasEstimate(x) && Contribution(x).None? {
      assert s[|issues|] == x;
    }
  }

  /** A milestone's record counts every listed issue that is not a pull
      request as closed, counts the issues with an estimate label, and totals
      the value of the first estimate label of each, NaN once one has no
      digits; the copied milestone fields are untouched. */
  lemma {:induction false} TallyMeaning(m: Milestone, issues: seq<Issue>)
    ensures Tally(FreshEntry(m), issues).closedIssues == ClosedCount(issues)
    ensures Tally(FreshEntry(m), issues).issuesWithEstimate == EstimatedCount(issues)
    ensures Tally(FreshEntry(m), issues).effortEstimate
         == if Poisoned(issues) then NaN else Total(EstimateSum(issues))
    ensures Tally(FreshEntry(m), issues).dueOn == m.dueOn
    ensures Tally(FreshEntry(m), issues).title == m.title
    ensures Tally(FreshEntry(m), issues).description == m.description
    decreases |issues|
  {
    if |issues| > 0 {
      var init := issues[..|issues| - 1];
      var x := issues[|issues| - 1];
      TallyMeaning(m, init);
      assert issues == init + [x];
      CountsSnoc(init, x);
      PoisonedSnoc(init, x);
      TallyIssueMeaning(Tally(FreshEntry(m), init), x);
    } else {
      assert !Poisoned(issues);
    }
  }

  /** One issue: a pull request changes nothing; any other issue counts as
      closed, and, when it has an estimate label, as estimated with its
      contribution added. */
  lemma TallyIssueMeaning(e: Entry, x: Issue)
    ensures TallyIssue(e, x).closedIssues == e.closedIssues + (if x.isPullRequest then 0 else 1)
    ensures TallyIssue(e, x).issuesWithEstimate
         == e.issuesWithEstimate + (if !x.isPullRequest && HasEstimate(x) then 1 else 0)
    ensures TallyIssue(e, x).effortEstimate
         == if !x.isPullRequest && HasEstimate(x) then AddEstimate(e.effortEstimate, Contribution(x))
            else e.effortEstimate
    ensures TallyIssue(e, x).dueOn == e.dueOn && TallyIssue(e, x).title == e.title
         && TallyIssue(e, x).description == e.description
  {
    if !x.isPullRequest {
      var k := FirstEstimateIndex(x.labels);
      if k < |x.labels| {
        assert HasEstimate(x);
      } else {
        assert !HasEstimate(x);
      }
    }
  }

  lemma {:induction false} EstimatedAtMostClosed(issues: seq<Issue>)
    ensures EstimatedCount(issues) <= ClosedCount(issues)
    decreases |issues|
  {
    if |issues| > 0 {
      EstimatedAtMostClosed(issues[1..]);
    }
  }

  /** Pull requests change no counter: dropping every one of them from the
      listing leaves the record as it is. */
  lemma {:induction false} PullRequestsIgnored(e: Entry, issues: seq<Issue>, prs: seq<Issue>)
    requires forall i :: 0 <= i < |prs| ==> prs[i].isPullRequest
    ensures Tally(e, issues + prs) == Tally(e, issues)
    decreases |prs|
  {
    if |prs| > 0 {
      var s := issues + prs;
      assert s[..|s| - 1] == issues + prs[..|prs| - 1];
      PullRequestsIgnored(e, issues, prs[..|prs| - 1]);
    } else {
      assert issues + prs == issues;
    }
  }

  /** Every record of the written object is the tally of the LAST listed
      milestone with that number (a later assignment to `output[number]`
      replaces an earlier one), and keeps `issues_with_estimate <=
      closed_issues`. */
  lemma {:induction false} AggregateMeaning(ms: seq<Milestone>, issuesOf: int -> seq<Issue>, n: int)
    requires n in Aggregate(ms, issuesOf)
    ensures exists i :: (0 <= i < |ms| && ms[i].number == n
                         && (forall j :: i < j < |ms| ==> ms[j].number != n)
                         && Aggregate(ms, issuesOf)[n] == Tally(FreshEntry(ms[i]), issuesOf(n)))
    ensures Aggregate(ms, issuesOf)[n].issuesWithEstimate <= Aggregate(ms, issuesOf)[n].closedIssues
    decreases |ms|
  {
    var m := ms[|ms| - 1];
    if m.number == n {
      TallyMeaning(m, issuesOf(n));
      EstimatedAtMostClosed(issuesOf(n));
    } else {
      AggregateMeaning(ms[..|ms| - 1], issuesOf, n);
      var init := ms[..|ms| - 1];
      var i :| 0 <= i < |init| && init[i].number == n
        && (forall j :: i < j < |init| ==> init[j].number != n)
        && Aggregate(init, issuesOf)[n] == Tally(FreshEntry(init[i]), issuesOf(n));
      assert ms[i] == init[i];
      assert forall j :: i < j < |ms| ==> ms[j].number != n by {
        forall j | i < j < |ms| ensures ms[j].number != n {
          if j < |init| {
            assert ms[j] == init[j];
          }
        }
      }
    }
  }

  /** The written object has one record per listed milestone number. */
  lemma {:induction false} AggregateKeys(ms: seq<Milestone>, issuesOf: int -> seq<Issue>)
    ensures Aggregate(ms, issuesOf).Keys == set i | 0 <= i < |ms| :: ms[i].number
    decreases |ms|
  {
    if |ms| > 0 {
      var init := ms[..|ms| - 1];
      AggregateKeys(init, issuesOf);
      assert forall i :: 0 <= i < |init| ==> init[i] == ms[i];
      var lhs := Aggregate(ms, issuesOf).Keys;
      var rhs := set i | 0 <= i < |ms| :: ms[i].number;
      forall n | n in rhs ensures n in lhs {
        var i :| 0 <= i < |ms| && ms[i].number == n;
        if i < |ms| - 1 {
          assert init[i].number == n;
        }
      }
    }
  }

  /** A closed issue labelled `estimate - 3` and then `estimate - 5`
      contributes exactly 3, and counts once as estimated. */
  lemma FirstMatchExample(m: Milestone)
    ensures TallyIssue(FreshEntry(m), Issue(1, false, [Label("estimate - 3"), Label("estimate - 5")])).effortEstimate == Total(3)
    ensures TallyIssue(FreshEntry(m), Issue(1, false, [Label("estimate - 3"), Label("estimate - 5")])).issuesWithEstimate == 1
  {
    var labels := [Label("estimate - 3"), Label("estimate - 5")];
    assert StartsWith(labels[0].name, "estimate");
    assert FirstEstimateIndex(labels) == 0;
    EstimateThree();
  }

  /** The label "estimate - 3" is worth 3. */
  lemma EstimateThree()
    ensures EstimateValue("estimate - 3") == Some(3)
  {
    assert DigitsOf("estimate - 3") == "3";
    assert DecimalValue("3") == 3 by {
      assert "3"[..0] == "";
    }
  }
}
