/** `src/calcite/add-esri-team-labels.js`: reads a CSV of stakeholders
    (name, product team, GitHub user) and labels every open issue each user
    created with the user's product team, checking each team's label once. */
module AddEsriTeamLabels {
  import opened Text
  import opened GitHub
  import Throttle

  /** A secondary rate limit logs and ends the process with code 1. */
  const OnSecondary: Throttle.SecondaryPolicy := Throttle.LogAndExit

  /** An issue as the listing returns it: its number and its label names. */
  datatype Issue = Issue(number: int, labelNames: seq<string>)

  /** The script's bookkeeping: the calls made, `issuesLabeled`,
      `seenProductLabels`, `missingProductLabels`, and the users it warned
      about. */
  datatype State = State(
    effects: seq<Effect>, labeled: seq<int>, seen: seq<string>, missing: seq<string>, warned: seq<string>)

  const Initial: State := State([], [], [], [], [])

  /** The CSV rows the loop passes over: empty ones and the header. */
  predicate Skipped(row: string) {
    row == "" || StartsWith(row, "Name")
  }

  /** The product team and user name of a row: its second and third comma
      fields, trimmed; `None` when the row has fewer than three fields, where
      `rowArray[1].trim()` or `rowArray[2].trim()` throws. */
  function Fields(row: string): Option<(string, string)> {
    var fields := Split(row, ',');
    if |fields| < 3 then None else Some((Trim(fields[1]), Trim(fields[2])))
  }

  /** The label check of a team not seen before: one `getLabel` call, and the
      team is recorded as missing when the call fails (`labelExists` false). */
  function Lookup(st: State, team: string, labelExists: string -> bool): State {
    if team in st.seen then st
    else st.(effects := st.effects + [GetLabel(team)],
             missing := if labelExists(team) then st.missing else st.missing + [team],
             seen := st.seen + [team])
  }

  /** The listed issues whose labels do not include `team`, in listing order. */
  function Lacking(issues: seq<Issue>, team: string): seq<Issue>
    decreases |issues|
  {
    if |issues| == 0 then []
    else
      var last := issues[|issues| - 1];
      Lacking(issues[..|issues| - 1], team) + (if team in last.labelNames then [] else [last])
  }

  /** One `addLabels` call per issue, in order. */
  function AddCalls(issues: seq<Issue>, team: string): (r: seq<Effect>)
    ensures |r| == |issues|
  {
    seq(|issues|, k requires 0 <= k < |issues| => AddLabels(issues[k].number, [team]))
  }

  function Numbers(issues: seq<Issue>): (r: seq<int>)
    ensures |r| == |issues|
  {
    seq(|issues|, k requires 0 <= k < |issues| => issues[k].number)
  }

  /** Everything one data row does, given the API's answers: `labelExists(t)`
      is whether `getLabel` finds label `t`, `issuesOf(u)` the open issues user
      `u` created (the first page of at most 100). */
  function Step(st: State, team: string, user: string, labelExists: string -> bool,
                issuesOf: string -> seq<Issue>): State
  {
    var st1 := Lookup(st, team, labelExists);
    var issues := issuesOf(user);
    var lacking := Lacking(issues, team);
    st1.(effects := st1.effects + [ListCreatorIssues(user, "open", 100)] + AddCalls(lacking, team),
         labeled := st1.labeled + Numbers(lacking),
         warned := st1.warned + (if |issues| >= 99 then [user] else []))
  }

  /** The bookkeeping after some rows, and whether no row threw. */
  datatype Progress = Progress(st: State, ok: bool)

  function Process(rows: seq<string>, labelExists: string -> bool, issuesOf: string -> seq<Issue>): Progress
    decreases |rows|
  {
    if |rows| == 0 then Progress(Initial, true)
    else
      var p := Process(rows[..|rows| - 1], labelExists, issuesOf);
      var row := rows[|rows| - 1];
      if !p.ok || Skipped(row) then p
      else match Fields(row)
        case None => Progress(p.st, false)
        case Some((team, user)) => Progress(Step(p.st, team, user, labelExists, issuesOf), true)
  }

  /** The calls, the bookkeeping and the exit code of a run. */
  datatype Outcome = Outcome(st: State, exitCode: int)

  /** The inner loop over one user's issues: an `addLabels` call, and the
      number recorded, for each issue whose labels lack `team`. */
  method LabelIssues(issues: seq<Issue>, team: string) returns (calls: seq<Effect>, numbers: seq<int>)
    ensures calls == AddCalls(Lacking(issues, team), team)
    ensures numbers == Numbers(Lacking(issues, team))
  {
    calls, numbers := [], [];
    var j := 0;
    while j < |issues|
      invariant 0 <= j <= |issues|
      invariant calls == AddCalls(Lacking(issues[..j], team), team)
      invariant numbers == Numbers(Lacking(issues[..j], team))
    {
      var issue := issues[j];
      assert issues[..j + 1][..j] == issues[..j];
      if team !in issue.labelNames {
        calls := calls + [AddLabels(issue.number, [team])];
        numbers := numbers + [issue.number];
        assert Lacking(issues[..j + 1], team) == Lacking(issues[..j], team) + [issue];
      } else {
        assert Lacking(issues[..j + 1], team) == Lacking(issues[..j], team) + [];
      }
      j := j + 1;
    }
    assert issues[..j] == issues;
  }

  /** Processing one more row. */
  lemma ProcessSnoc(rows: seq<string>, i: nat, labelExists: string -> bool, issuesOf: string -> seq<Issue>)
    requires i < |rows|
    ensures var p := Process(rows[..i], labelExists, issuesOf);
      Process(rows[..i + 1], labelExists, issuesOf)
      == if !p.ok || Skipped(rows[i]) then p
         else if Fields(rows[i]).None? then Progress(p.st, false)
         else Progress(Step(p.st, Fields(rows[i]).value.0, Fields(rows[i]).value.1, labelExists, issuesOf), true)
  {
    assert rows[..i + 1][..i] == rows[..i];
  }

  /** After a row throws, later rows change nothing. */
  lemma {:induction false} FailureStays(rows: seq<string>, n: nat, labelExists: string -> bool,
                                        issuesOf: string -> seq<Issue>)
    requires n <= |rows| && !Process(rows[..n], labelExists, issuesOf).ok
    ensures Process(rows, labelExists, issuesOf) == Process(rows[..n], labelExists, issuesOf)
    decreases |rows| - n
  {
    if n < |rows| {
      ProcessSnoc(rows, n, labelExists, issuesOf);
      FailureStays(rows, n + 1, labelExists, issuesOf);
    } else {
      assert rows[..n] == rows;
    }
  }

  /** The body of the row loop for a row with a team and a user: the label
      check (once per team), the listing of the user's open issues, the
      warning for a full page, and the labelling. */
  method HandleRow(st: State, productTeam: string, githubUsername: string, labelExists: string -> bool,
                   issuesOf: string -> seq<Issue>) returns (next: State)
    ensures next == Step(st, productTeam, githubUsername, labelExists, issuesOf)
  {
    var effects, issuesLabeled, seenProductLabels, missingProductLabels, warned :=
      st.effects, st.labeled, st.seen, st.missing, st.warned;
    if productTeam !in seenProductLabels {
      effects := effects + [GetLabel(productTeam)];
      if !labelExists(productTeam) {
        missingProductLabels := missingProductLabels + [productTeam];
      }
      seenProductLabels := seenProductLabels + [productTeam];
    }
    assert State(effects, issuesLabeled, seenProductLabels, missingProductLabels, warned)
        == Lookup(st, productTeam, labelExists);
    var issues := issuesOf(githubUsername);
    effects := effects + [ListCreatorIssues(githubUsername, "open", 100)];
    if |issues| >= 99 {
      warned := warned + [githubUsername];
    }
    var calls, numbers := LabelIssues(issues, productTeam);
    effects := effects + calls;
    issuesLabeled := issuesLabeled + numbers;
    next := State(effects, issuesLabeled, seenProductLabels, missingProductLabels, warned);
  }

  /** The script: a missing token ends it with code 1 before any call; so
      does a `data.csv` that cannot be read (`data` is `None`), read before
      any call; otherwise the rows of the file are processed in order, and a
      row that throws ends the run with code 1. */
  method Run(pat: string, data: Option<string>, labelExists: string -> bool, issuesOf: string -> seq<Issue>)
    returns (o: Outcome)
    ensures pat == "" || data.None? ==> o == Outcome(Initial, 1)
    ensures pat != "" && data.Some? ==>
      var p := Process(Split(data.value, '\n'), labelExists, issuesOf);
      o == Outcome(p.st, if p.ok then 0 else 1)
  {
    if pat == "" || data.None? {
      return Outcome(Initial, 1);
    }
    var st := Initial;
    var dataRows := Split(data.value, '\n');
    var i := 0;
    while i < |dataRows|
      invariant 0 <= i <= |dataRows|
      invariant Process(dataRows[..i], labelExists, issuesOf) == Progress(st, true)
    {
      var row := dataRows[i];
      ProcessSnoc(dataRows, i, labelExists, issuesOf);
      if Skipped(row) {
        i := i + 1;
        continue;
      }
      var rowArray := Split(row, ',');
      if |rowArray| < 3 {
        FailureStays(dataRows, i + 1, labelExists, issuesOf);
        return Outcome(st, 1);
      }
      st := HandleRow(st, Trim(rowArray[1]), Trim(rowArray[2]), labelExists, issuesOf);
      i := i + 1;
    }
    assert dataRows[..i] == dataRows;
    return Outcome(st, 0);
  }

  // ---------------------------------------------------------------------------
  // What the bookkeeping guarantees.

  /** The number of `getLabel` calls for `team` among `effects`. */
  function Lookups(effects: seq<Effect>, team: string): nat
    decreases |effects|
  {
    if |effects| == 0 then 0
    else Lookups(effects[..|effects| - 1], team) + (if effects[|effects| - 1] == GetLabel(team) then 1 else 0)
  }

  lemma {:induction false} LookupsAppend(a: seq<Effect>, b: seq<Effect>, team: string)
    ensures Lookups(a + b, team) == Lookups(a, team) + Lookups(b, team)
    decreases |b|
  {
    if |b| > 0 {
      assert (a + b)[..|a + b| - 1] == a + b[..|b| - 1];
      LookupsAppend(a, b[..|b| - 1], team);
    } else {
      assert a + b == a;
    }
  }

  lemma {:induction false} NoLookupsInAddCalls(issues: seq<Issue>, added: string, team: string)
    ensures Lookups(AddCalls(issues, added), team) == 0
    decreases |issues|
  {
    if |issues| > 0 {
      var calls := AddCalls(issues, added);
      assert calls[..|calls| - 1] == AddCalls(issues[..|issues| - 1], added);
      NoLookupsInAddCalls(issues[..|issues| - 1], added, team);
    }
  }

  predicate NoDuplicates(s: seq<string>) {
    forall i, j :: 0 <= i < j < |s| ==> s[i] != s[j]
  }

  /** What the bookkeeping keeps true after every row: each team seen was
      looked up exactly once and no other team was; the seen list has no
      repeats; and the missing list holds exactly the seen teams whose lookup
      failed, in the order they were seen. */
  ghost predicate Consistent(st: State, labelExists: string -> bool) {
    (forall t :: Lookups(st.effects, t) == if t in st.seen then 1 else 0)
    && NoDuplicates(st.seen)
    && st.missing == FailedLookups(st.seen, labelExists)
  }

  /** The teams of `seen` whose label does not exist, in order. */
  function FailedLookups(seen: seq<string>, labelExists: string -> bool): seq<string>
    decreases |seen|
  {
    if |seen| == 0 then []
    else
      var t := seen[|seen| - 1];
      FailedLookups(seen[..|seen| - 1], labelExists) + (if labelExists(t) then [] else [t])
  }

  /** Looking a team up keeps the bookkeeping consistent. */
  lemma LookupConsistent(st: State, team: string, labelExists: string -> bool)
    requires Consistent(st, labelExists)
    ensures Consistent(Lookup(st, team, labelExists), labelExists)
  {
    var st1 := Lookup(st, team, labelExists);
    if team !in st.seen {
      forall t ensures Lookups(st1.effects, t) == if t in st1.seen then 1 else 0 {
        LookupsAppend(st.effects, [GetLabel(team)], t);
        assert [GetLabel(team)][..0] == [];
      }
      forall i, j | 0 <= i < j < |st1.seen| ensures st1.seen[i] != st1.seen[j] {
        if j == |st.seen| {
          assert st.seen[i] in st.seen;
        }
      }
      assert st1.seen[..|st1.seen| - 1] == st.seen;
    }
  }

  /** Listing and labelling make no lookup, so they keep it consistent too. */
  lemma StepConsistent(st: State, team: string, user: string, labelExists: string -> bool,
                       issuesOf: string -> seq<Issue>)
    requires Consistent(st, labelExists)
    ensures Consistent(Step(st, team, user, labelExists, issuesOf), labelExists)
  {
    var st1 := Lookup(st, team, labelExists);
    LookupConsistent(st, team, labelExists);
    var adds := AddCalls(Lacking(issuesOf(user), team), team);
    var list := [ListCreatorIssues(user, "open", 100)];
    var st2 := Step(st, team, user, labelExists, issuesOf);
    assert st2.effects == st1.effects + (list + adds);
    assert st2.seen == st1.seen && st2.missing == st1.missing;
    forall t ensures Lookups(st2.effects, t) == Lookups(st1.effects, t) {
      LookupsAppend(st1.effects, list + adds, t);
      LookupsAppend(list, adds, t);
      NoLookupsInAddCalls(Lacking(issuesOf(user), team), team, t);
      assert list[..0] == [];
    }
  }

  lemma {:induction false} ProcessConsistent(rows: seq<string>, labelExists: string -> bool, issuesOf: string -> seq<Issue>)
    ensures Consistent(Process(rows, labelExists, issuesOf).st, labelExists)
    decreases |rows|
  {
    if |rows| == 0 {
      assert Initial.effects == [];
    } else {
      var p := Process(rows[..|rows| - 1], labelExists, issuesOf);
      ProcessConsistent(rows[..|rows| - 1], labelExists, issuesOf);
      var row := rows[|rows| - 1];
      if p.ok && !Skipped(row) && Fields(row).Some? {
        var (team, user) := Fields(row).value;
        StepConsistent(p.st, team, user, labelExists, issuesOf);
      }
    }
  }

  /** The missing teams are the seen teams that failed their lookup. */
  lemma {:induction false} FailedLookupsMeaning(seen: seq<string>, labelExists: string -> bool)
    ensures forall t :: t in FailedLookups(seen, labelExists) <==> t in seen && !labelExists(t)
    ensures NoDuplicates(seen) ==> NoDuplicates(FailedLookups(seen, labelExists))
    decreases |seen|
  {
    if |seen| > 0 {
      var init := seen[..|seen| - 1];
      var t := seen[|seen| - 1];
      FailedLookupsMeaning(init, labelExists);
      assert seen == init + [t];
      var failed := FailedLookups(init, labelExists);
      if NoDuplicates(seen) && !labelExists(t) {
        assert t !in init by {
          forall i | 0 <= i < |init| ensures init[i] != t {
            assert seen[i] == init[i];
          }
        }
        NoDuplicatesSnoc(failed, t);
      }
    }
  }

  lemma NoDuplicatesSnoc(s: seq<string>, t: string)
    requires NoDuplicates(s) && t !in s
    ensures NoDuplicates(s + [t])
  {
    var r := s + [t];
    forall i, j | 0 <= i < j < |r|
      ensures r[i] != r[j]
    {
      if j < |s| {
        assert r[i] == s[i] && r[j] == s[j];
      } else {
        assert r[i] == s[i];
      }
    }
  }

  /** Over a whole run, `getLabel` is called exactly once for every team it
      has seen and for no other, and `missingProductLabels` lists, without
      repeats, exactly the seen teams whose lookup failed. */
  lemma LabelBookkeeping(rows: seq<string>, labelExists: string -> bool, issuesOf: string -> seq<Issue>)
    ensures var st := Process(rows, labelExists, issuesOf).st;
      (forall t :: Lookups(st.effects, t) <= 1)
      && (forall t :: Lookups(st.effects, t) == 1 <==> t in st.seen)
      && (forall t :: t in st.missing <==> t in st.seen && !labelExists(t))
      && NoDuplicates(st.missing)
  {
    var st := Process(rows, labelExists, issuesOf).st;
    ProcessConsistent(rows, labelExists, issuesOf);
    FailedLookupsMeaning(st.seen, labelExists);
  }

  /** `addLabels` goes to exactly the listed issues that lack the team's
      label, in listing order. */
  lemma {:induction false} LackingMeaning(issues: seq<Issue>, team: string)
    ensures forall x :: x in Lacking(issues, team) <==> x in issues && team !in x.labelNames
    decreases |issues|
  {
    if |issues| > 0 {
      LackingMeaning(issues[..|issues| - 1], team);
      assert issues == issues[..|issues| - 1] + [issues[|issues| - 1]];
    }
  }

  /** A row's user is warned about exactly when the listing returned 99
      issues or more. */
  lemma WarnedWhenFull(st: State, team: string, user: string, labelExists: string -> bool,
                       issuesOf: string -> seq<Issue>)
    ensures var after := Step(st, team, user, labelExists, issuesOf);
      (|issuesOf(user)| >= 99 ==> after.warned == st.warned + [user])
      && (|issuesOf(user)| < 99 ==> after.warned == st.warned)
  {
  }

  /** Header rows, empty rows and rows that throw make no call. */
  lemma NoCallsForSkippedRows(rows: seq<string>, row: string, labelExists: string -> bool,
                              issuesOf: string -> seq<Issue>)
    requires Skipped(row) || Fields(row).None?
    ensures Process(rows + [row], labelExists, issuesOf).st == Process(rows, labelExists, issuesOf).st
  {
    assert (rows + [row])[..|rows|] == rows;
  }

  /** A row with fewer than three fields ends the run with code 1. */
  lemma ShortRowFails(rows: seq<string>, row: string, labelExists: string -> bool,
                      issuesOf: string -> seq<Issue>)
    requires !Skipped(row) && |Split(row, ',')| < 3
    ensures !Process(rows + [row], labelExists, issuesOf).ok
  {
    assert (rows + [row])[..|rows|] == rows;
  }
}
