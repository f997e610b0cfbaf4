/** `src/calcite/create-repo-issues.js`: one design issue per component that is
    not skipped, resumable from a count of issues already created. */
module SrcCreateRepoIssues {
  import opened Text
  import opened GitHub
  import opened Components
  import opened Utils
  import Throttle

  /** A secondary rate limit logs and ends the process with code 1. */
  const OnSecondary: Throttle.SecondaryPolicy := Throttle.LogAndExit

  /** The pause after each created issue, in milliseconds. */
  const PauseMs: nat := 2000

  /** `issueTitle` */
  function IssueTitle(component: string): string {
    "[" + component + "] Figma v2 design"
  }

  /** The create call for one component. */
  function CreateFor(component: string): Effect {
    CreateIssue(IssueTitle(component), FigmaIssueBody(component), FigmaLabels)
  }

  /** The calls for a run of components: each create followed by its pause. */
  function CreateCalls(work: seq<string>): seq<Effect>
    decreases |work|
  {
    if |work| == 0 then []
    else CreateCalls(work[..|work| - 1]) + [CreateFor(work[|work| - 1]), Sleep(PauseMs)]
  }

  /** The calls alternate: the k-th create names the k-th component and is
      followed by a 2000 ms pause; nothing else is issued. */
  lemma {:induction false} CreateCallsAt(work: seq<string>, k: nat)
    requires k < |work|
    ensures |CreateCalls(work)| == 2 * |work|
    ensures CreateCalls(work)[2 * k] == CreateFor(work[k])
    ensures CreateCalls(work)[2 * k + 1] == Sleep(PauseMs)
    decreases |work|
  {
    var init := work[..|work| - 1];
    if k < |work| - 1 {
      CreateCallsAt(init, k);
    } else if |init| > 0 {
      CreateCallsAt(init, 0);
    }
  }

  /** The worklist: directory names minus the skip list, in directory order. */
  function Worklist(entries: seq<Dirent>): seq<string> {
    Without(GetDirectories(entries), SkipComponents)
  }

  function Min(a: int, b: int): int { if a <= b then a else b }
  function Max(a: int, b: int): int { if a >= b then a else b }

  /** The create loop over the worklist `components`: `resume` is the
      operator-set initial `createdIssuesCount`, and the components before it
      are passed over; `failAt`, if present, is the number of create calls of
      this run that succeed before one throws (or meets a secondary rate
      limit). Returns the calls made, the final count and the exit code. */
  method CreateAll(components: seq<string>, resume: nat, failAt: Option<nat>)
    returns (effects: seq<Effect>, created: nat, exitCode: int)
    ensures (failAt.None? || failAt.value >= |components| - resume) ==>
      effects == CreateCalls(components[Min(resume, |components|)..])
      && created == Max(resume, |components|) && exitCode == 0
    ensures failAt.Some? && failAt.value < |components| - resume ==>
      effects == CreateCalls(components[resume..resume + failAt.value])
                 + [CreateFor(components[resume + failAt.value])]
      && created == resume + failAt.value && exitCode == 1
  {
    effects, created := [], resume;
    var index := 0;
    while index < |components|
      invariant 0 <= index <= |components|
      invariant created == Max(resume, index)
      invariant effects == CreateCalls(components[Min(resume, index)..index])
      invariant failAt.Some? && index > resume ==> failAt.value >= index - resume
    {
      var component := components[index];
      if created <= index {
        effects := effects + [CreateFor(component)];
        if failAt == Some(created - resume) {
          return effects, created, 1;
        }
        created := created + 1;
        effects := effects + [Sleep(PauseMs)];
        ghost var w := components[resume..index + 1];
        assert w[..|w| - 1] == components[resume..index] && w[|w| - 1] == component;
      }
      index := index + 1;
    }
    assert components[Min(resume, index)..index] == components[Min(resume, |components|)..];
    return effects, created, 0;
  }

  /** The script: a missing token ends it with code 1 before any call; a
      directory read that throws is caught and ends it with code 1, also
      before any call; otherwise it runs the create loop over the worklist. */
  method Run(pat: string, entries: Option<seq<Dirent>>, resume: nat, failAt: Option<nat>)
    returns (effects: seq<Effect>, created: nat, exitCode: int)
    ensures pat == "" || entries.None? ==> effects == [] && created == resume && exitCode == 1
    ensures pat != "" && entries.Some? && (failAt.None? || failAt.value >= |Worklist(entries.value)| - resume) ==>
      effects == CreateCalls(Worklist(entries.value)[Min(resume, |Worklist(entries.value)|)..])
      && created == Max(resume, |Worklist(entries.value)|) && exitCode == 0
    ensures pat != "" && entries.Some? && failAt.Some? && failAt.value < |Worklist(entries.value)| - resume ==>
      effects == CreateCalls(Worklist(entries.value)[resume..resume + failAt.value])
                 + [CreateFor(Worklist(entries.value)[resume + failAt.value])]
      && created == resume + failAt.value && exitCode == 1
  {
    if pat == "" || entries.None? {
      return [], resume, 1;
    }
    effects, created, exitCode := CreateAll(Worklist(entries.value), resume, failAt);
  }
}
