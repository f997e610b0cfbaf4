/** What `update-issues.js` and `calcite/update-repo-issues.js` share: the
    listing they start from, the review checklist they write, and how their
    update calls are read back. */
module IssueUpdates {
  import opened Text
  import opened GitHub

  /** An issue as `issues.listForRepo` returns it; `body` is `None` when the
      issue has none (the API sends `null`). */
  datatype ListedIssue = ListedIssue(number: int, body: Option<string>)

  /** The calls a script issues and the exit code it ends with. */
  datatype Outcome = Outcome(effects: seq<Effect>, exitCode: int)

  /** The one listing both scripts make: the issues that carry the first
      configured label, one page of at most 100. */
  const Listing: Effect := ListLabelledIssues(FigmaLabels[0], 100)

  /** The items of one review round. */
  const ReviewItems: string :=
    "- [ ] Structure matches web component\n"
    + "- [ ] Props match web component\n"
    + "    - [ ] Props are in alphabetical order\n"
    + "    - [ ] Default prop value is first\n"
    + "    - [ ] Boolean props are always default false\n"
    + "- [ ] Slots are represented\n"
    + "- [ ] Meets naming conventions\n"
    + "- [ ] Styles are matched\n"
    + "- [ ] Behavior is correct\n"
    + "- [ ] Page format\n"
    + "    - [ ] Primary variant is top left\n"
    + "    - [ ] Variant labels\n"
    + "    - [ ] Documentation notes\n"

  function Review(round: string): string {
    "### Review " + round + "\n\n" + ReviewItems
  }

  /** The two review rounds both checklists end with. */
  const Reviews: string := Review("1") + "\n" + Review("2") + "\n"

  /** The update call for one listed issue, given how its new body is made
      from its previous one; the labels are always set to the configured ones. */
  function UpdateFor(issue: ListedIssue, newBody: Option<string> -> string): Effect {
    UpdateIssue(issue.number, newBody(issue.body), FigmaLabels)
  }

  /** `issues.data.forEach(issue => octokit.rest.issues.update(...))`: the calls
      are issued one per listed issue, in list order, none awaited. */
  function UpdateCalls(issues: seq<ListedIssue>, newBody: Option<string> -> string): seq<Effect>
    decreases |issues|
  {
    if |issues| == 0 then []
    else [UpdateFor(issues[0], newBody)] + UpdateCalls(issues[1..], newBody)
  }

  function Numbers(issues: seq<ListedIssue>): seq<int> {
    seq(|issues|, k requires 0 <= k < |issues| => issues[k].number)
  }

  /** The issue numbers that the update calls among `effects` address, in order. */
  function UpdatedNumbers(effects: seq<Effect>): seq<int>
    decreases |effects|
  {
    if |effects| == 0 then []
    else (if effects[0].UpdateIssue? then [effects[0].number] else []) + UpdatedNumbers(effects[1..])
  }

  /** Every listed issue gets exactly one update, in list order, nothing else is
      called, and each update sets the configured labels and the body made from
      that issue's own previous body. */
  lemma {:induction false} UpdateCallsMeaning(issues: seq<ListedIssue>, newBody: Option<string> -> string)
    ensures |UpdateCalls(issues, newBody)| == |issues|
    ensures UpdatedNumbers(UpdateCalls(issues, newBody)) == Numbers(issues)
    ensures forall k :: 0 <= k < |issues| ==>
      UpdateCalls(issues, newBody)[k] == UpdateIssue(issues[k].number, newBody(issues[k].body), FigmaLabels)
    decreases |issues|
  {
    if |issues| > 0 {
      UpdateCallsMeaning(issues[1..], newBody);
      var calls := UpdateCalls(issues, newBody);
      assert calls[1..] == UpdateCalls(issues[1..], newBody);
      assert Numbers(issues) == [issues[0].number] + Numbers(issues[1..]);
      forall k | 1 <= k < |issues|
        ensures calls[k] == UpdateCalls(issues[1..], newBody)[k - 1]
      {
      }
    }
  }

  /** The listing call is not an update. */
  lemma ListingIsNoUpdate(rest: seq<Effect>)
    ensures UpdatedNumbers([Listing] + rest) == UpdatedNumbers(rest)
  {
    assert ([Listing] + rest)[1..] == rest;
  }
}

/** `update-issues.js`: replaces the body of every listed design issue with the
    requirements-and-review checklist. */
module UpdateIssues {
  import opened Text
  import opened GitHub
  import opened IssueUpdates
  import Throttle

  /** A secondary rate limit only logs. */
  const OnSecondary: Throttle.SecondaryPolicy := Throttle.LogOnly

  /** `checklist`: the whole new body. */
  const Checklist: string :=
    "\n\n## Requirements\n\n> Designer can fill in what needs to be done (variants, themes, RTL, etc).\n\n"
    + "## Checklists\n\nUse the checklists during review.\n\n" + Reviews

  /** The new body ignores the previous one. */
  function NewBody(previous: Option<string>): (r: string)
    ensures r == Checklist
  {
    Checklist
  }

  /** The script: the listing, then one update per listed issue. A listing that
      throws is caught and sets exit code 1 (there is no token check). */
  function Run(listed: Option<seq<ListedIssue>>): (o: Outcome)
    ensures |o.effects| >= 1 && o.effects[0] == Listing
    ensures listed.None? ==> o == Outcome([Listing], 1)
    ensures listed.Some? ==> o.exitCode == 0 && o.effects[1..] == UpdateCalls(listed.value, NewBody)
  {
    if listed.None? then Outcome([Listing], 1)
    else Outcome([Listing] + UpdateCalls(listed.value, NewBody), 0)
  }

  /** Every listed issue, and only those, is updated once, in list order, to
      exactly the checklist with the configured labels, whatever its body was. */
  lemma EveryIssueReplaced(issues: seq<ListedIssue>)
    ensures var o := Run(Some(issues));
      |o.effects| == |issues| + 1
      && UpdatedNumbers(o.effects) == Numbers(issues)
      && forall k :: 1 <= k < |o.effects| ==>
           o.effects[k] == UpdateIssue(issues[k - 1].number, Checklist, FigmaLabels)
  {
    UpdateCallsMeaning(issues, NewBody);
    ListingIsNoUpdate(UpdateCalls(issues, NewBody));
  }

  /** Running the script again on what it produced changes nothing: the bodies
      it sends do not depend on the bodies it finds. */
  lemma Idempotent(issues: seq<ListedIssue>)
    ensures var again := seq(|issues|, k requires 0 <= k < |issues| => ListedIssue(issues[k].number, Some(Checklist)));
      Run(Some(again)) == Run(Some(issues))
  {
    var again := seq(|issues|, k requires 0 <= k < |issues| => ListedIssue(issues[k].number, Some(Checklist)));
    UpdateCallsMeaning(issues, NewBody);
    UpdateCallsMeaning(again, NewBody);
    forall k | 0 <= k < |issues|
      ensures UpdateCalls(again, NewBody)[k] == UpdateCalls(issues, NewBody)[k]
    {
      assert again[k].number == issues[k].number;
    }
    assert UpdateCalls(again, NewBody) == UpdateCalls(issues, NewBody);
  }
}

/** `calcite/update-repo-issues.js`: appends the review checklist to the body of
    every listed design issue. */
module CalciteUpdateRepoIssues {
  import opened Text
  import opened GitHub
  import opened IssueUpdates
  import Throttle

  /** A secondary rate limit logs and ends the process with code 1. */
  const OnSecondary: Throttle.SecondaryPolicy := Throttle.LogAndExit

  /** `checklist` */
  const Checklist: string := "\n" + Reviews

  /** `${body}` in a string concatenation: a missing body reads "null". */
  function JsText(body: Option<string>): string {
    if body.Some? then body.value else "null"
  }

  /** `issue.body + "\n\n" + checklist`, for a checklist text `checklist`. */
  function Appending(previous: Option<string>, checklist: string): (r: string)
    ensures StartsWith(r, JsText(previous))
    ensures |r| == |JsText(previous)| + 2 + |checklist|
  {
    var r := JsText(previous) + "\n\n" + checklist;
    assert r[..|JsText(previous)|] == JsText(previous);
    r
  }

  /** The new body of every listed issue. */
  function NewBody(previous: Option<string>): string {
    Appending(previous, Checklist)
  }

  /** The previous body, read back from a new one. */
  function OldBody(body: string, checklist: string): string
    requires |body| >= |checklist| + 2
  {
    body[..|body| - |checklist| - 2]
  }

  /** Nothing of the previous body is lost, and the checklist is all that is
      added: both are read back from the new body. */
  lemma OldBodyKept(previous: Option<string>, checklist: string)
    ensures var r := Appending(previous, checklist);
      OldBody(r, checklist) == JsText(previous) && r[|r| - |checklist|..] == checklist
  {
    var r := Appending(previous, checklist);
    assert r == JsText(previous) + ("\n\n" + checklist);
  }

  /** Running the script again appends the checklist once more: the body grows
      by the same text on every run. */
  lemma AppendsAgain(previous: Option<string>, checklist: string)
    ensures Appending(Some(Appending(previous, checklist)), checklist)
         == Appending(previous, checklist) + "\n\n" + checklist
  {
  }

  /** The script: no call at all without a token; otherwise the listing, then one
      update per listed issue. A listing that throws exits with code 1. */
  function Run(pat: string, listed: Option<seq<ListedIssue>>): (o: Outcome)
    ensures pat == "" ==> o == Outcome([], 1)
    ensures pat != "" ==> |o.effects| >= 1 && o.effects[0] == Listing
    ensures pat != "" && listed.None? ==> o == Outcome([Listing], 1)
    ensures pat != "" && listed.Some? ==> o.exitCode == 0 && o.effects[1..] == UpdateCalls(listed.value, NewBody)
  {
    if pat == "" then Outcome([], 1)
    else if listed.None? then Outcome([Listing], 1)
    else Outcome([Listing] + UpdateCalls(listed.value, NewBody), 0)
  }

  /** Every listed issue, and only those, is updated once, in list order; its
      new body is its previous body with the checklist appended (which
      `OldBodyKept` reads back), and the labels are the configured ones. */
  lemma EveryIssueAppended(pat: string, issues: seq<ListedIssue>)
    requires pat != ""
    ensures var o := Run(pat, Some(issues));
      |o.effects| == |issues| + 1
      && UpdatedNumbers(o.effects) == Numbers(issues)
      && forall k :: 1 <= k < |o.effects| ==>
           o.effects[k].UpdateIssue? && o.effects[k].labels == FigmaLabels
           && o.effects[k].number == issues[k - 1].number
           && o.effects[k].body == Appending(issues[k - 1].body, Checklist)
  {
    var o := Run(pat, Some(issues));
    UpdateCallsMeaning(issues, NewBody);
    ListingIsNoUpdate(UpdateCalls(issues, NewBody));
    forall k | 1 <= k < |o.effects|
      ensures o.effects[k] == UpdateCalls(issues, NewBody)[k - 1]
    {
    }
  }
}
