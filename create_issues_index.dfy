/** `index.js`: the first creation script. One design issue per component
    directory that is not skipped, all issued without waiting. */
module CreateIssuesIndex {
  import opened Text
  import opened GitHub
  import opened Components
  import opened Utils
  import Throttle

  /** The calls the script issues and the exit code it ends with. */
  datatype Outcome = Outcome(effects: seq<Effect>, exitCode: int)

  /** A secondary rate limit only logs. */
  const OnSecondary: Throttle.SecondaryPolicy := Throttle.LogOnly

  /** The path Octokit is given for the REST API of the configured server. */
  const ApiPath: string := "/api/v3"

  /** `${baseUrl}/api/v3` */
  function ApiBase(baseUrl: string): string {
    baseUrl + ApiPath
  }

  /** The configured server, read back from an API base. */
  function ServerOf(apiBase: string): string
    requires |apiBase| >= |ApiPath|
  {
    apiBase[..|apiBase| - |ApiPath|]
  }

  /** The API base is the configured server followed by the API path, so the
      server can be read back from it. */
  lemma ApiBaseRoundTrip(baseUrl: string)
    ensures StartsWith(ApiBase(baseUrl), baseUrl)
    ensures |ApiBase(baseUrl)| >= |ApiPath| && ServerOf(ApiBase(baseUrl)) == baseUrl
  {
    assert ApiBase(baseUrl)[..|baseUrl|] == baseUrl;
  }

  const TitleHead: string := "Figma v2 design: "

  /** `Figma v2 design: ${component}` */
  function Title(component: string): string {
    TitleHead + component
  }

  /** The component a title names. */
  function TitleComponent(title: string): string {
    if StartsWith(title, TitleHead) then title[|TitleHead|..] else title
  }

  /** The create call for one component. */
  function CreateFor(component: string): Effect {
    CreateIssue(Title(component), FigmaIssueBody(component), FigmaLabels)
  }

  /** The `for ... of` loop: a create call for every directory not in `skip`,
      in directory order. */
  function Creates(dirs: seq<string>, skip: seq<string>): seq<Effect>
    decreases |dirs|
  {
    if |dirs| == 0 then []
    else (if dirs[0] in skip then [] else [CreateFor(dirs[0])]) + Creates(dirs[1..], skip)
  }

  /** The components the create calls among `effects` are about, read from
      their titles, in order. */
  function CreatedComponents(effects: seq<Effect>): seq<string>
    decreases |effects|
  {
    if |effects| == 0 then []
    else (if effects[0].CreateIssue? then [TitleComponent(effects[0].title)] else [])
         + CreatedComponents(effects[1..])
  }

  /** Every call is a create with the design body of the component its title
      names and the figma label, and the components created are exactly the
      directories outside `skip`, in directory order. */
  lemma {:induction false} CreatesMeaning(dirs: seq<string>, skip: seq<string>)
    ensures CreatedComponents(Creates(dirs, skip)) == Without(dirs, skip)
    ensures forall e :: e in Creates(dirs, skip) ==>
      e.CreateIssue? && e.labels == FigmaLabels
      && StartsWith(e.title, TitleHead) && e.body == FigmaIssueBody(TitleComponent(e.title))
    decreases |dirs|
  {
    if |dirs| > 0 {
      CreatesMeaning(dirs[1..], skip);
      var c := dirs[0];
      var head := if c in skip then [] else [CreateFor(c)];
      var rest := Creates(dirs[1..], skip);
      assert Creates(dirs, skip) == head + rest;
      assert (head + rest)[|head|..] == rest;
      if c !in skip {
        assert Title(c)[..|TitleHead|] == TitleHead;
        assert TitleComponent(Title(c)) == c;
        assert (head + rest)[1..] == rest;
      } else {
        assert head + rest == rest;
      }
    }
  }

  /** The script: reading the components directory is the only awaited step;
      when it throws, the error is caught, no issue is created and the exit
      code is 1. */
  function Run(entries: Option<seq<Dirent>>): (o: Outcome)
    ensures entries.None? ==> o == Outcome([], 1)
    ensures entries.Some? ==> o.exitCode == 0 && forall e :: e in o.effects ==> e.CreateIssue?
  {
    if entries.None? then Outcome([], 1)
    else
      CreatesMeaning(GetDirectories(entries.value), SkipComponents);
      Outcome(Creates(GetDirectories(entries.value), SkipComponents), 0)
  }

  /** A run creates one issue per component directory outside the skip list,
      in directory order, and none for a skipped one. */
  lemma RunCreatesEachComponentOnce(entries: seq<Dirent>)
    ensures CreatedComponents(Run(Some(entries)).effects) == Without(GetDirectories(entries), SkipComponents)
    ensures forall c :: c in SkipComponents ==> c !in CreatedComponents(Run(Some(entries)).effects)
    ensures forall c :: c in GetDirectories(entries) && c !in SkipComponents ==> c in CreatedComponents(Run(Some(entries)).effects)
  {
    var dirs := GetDirectories(entries);
    CreatesMeaning(dirs, SkipComponents);
    WithoutMembers(dirs, SkipComponents);
    forall c | c in SkipComponents
      ensures c !in CreatedComponents(Run(Some(entries)).effects)
    {
      assert c in Elems(SkipComponents);
    }
    forall c | c in dirs && c !in SkipComponents
      ensures c in CreatedComponents(Run(Some(entries)).effects)
    {
      assert c in Elems(dirs) - Elems(SkipComponents);
    }
  }
}
