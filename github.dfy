/** What the scripts send to the issue tracker, recorded as effects instead of
    performed, and the issue body the creation scripts share. */
module GitHub {
  import opened Text

  /** One call a script issues (to the REST API, or a pause between calls). */
  datatype Effect =
    | ListMilestones(state: string, perPage: nat)
    | ListMilestoneIssues(milestone: int, state: string, perPage: nat)
    | ListLabelledIssues(withLabel: string, perPage: nat)
    | ListCreatorIssues(creator: string, state: string, perPage: nat)
    | GetLabel(name: string)
    | CreateIssue(title: string, body: string, labels: seq<string>)
    | UpdateIssue(number: int, body: string, labels: seq<string>)
    | AddLabels(number: int, labels: seq<string>)
    | Sleep(ms: nat)

  /** The labels every creation and update script attaches. */
  const FigmaLabels: seq<string> := ["figma"]

  const BodyHead: string := "## Description\nCreate a Figma v2 design for "
  const BodyTail: string :=
    ".\n\n## Requirements\n> Designer should fill in what needs to be done (variants, themes, RTL, etc).\n\n## Checklist\n> Designer should fill in the general checklist that will be created."

  /** `issueBody` / `createIssueBody`: the body of a new design issue. */
  function FigmaIssueBody(component: string): string {
    BodyHead + component + BodyTail
  }

  /** The component a design-issue body names. */
  function BodyComponent(body: string): string
    requires |body| >= |BodyHead| + |BodyTail|
  {
    body[|BodyHead|..|body| - |BodyTail|]
  }

  /** The body mentions the component, and names it recoverably: different
      components get different bodies. */
  lemma FigmaIssueBodyNamesComponent(component: string)
    ensures Contains(FigmaIssueBody(component), component)
    ensures |FigmaIssueBody(component)| >= |BodyHead| + |BodyTail|
    ensures BodyComponent(FigmaIssueBody(component)) == component
  {
    assert StartsWith(component, component);
    assert Contains(component, component);
    ContainsInfix(BodyHead, component, BodyTail, component);
    var b := FigmaIssueBody(component);
    assert b[|BodyHead|..|b| - |BodyTail|] == component;
  }
}
