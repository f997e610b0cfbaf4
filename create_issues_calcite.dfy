/** `calcite/create-repo-issues.js`: the older issue-creation script. It walks
    the unfiltered directory list and decides per raw index whether to create,
    and drives its own progress spinner (`showProgress`). */
module CalciteCreateRepoIssues {
  import opened Text
  import opened GitHub
  import opened Components
  import opened Utils
  import Throttle

  /** A secondary rate limit is only logged. */
  const OnSecondary: Throttle.SecondaryPolicy := Throttle.LogOnly

  /** `issueTitle` */
  function IssueTitle(component: string): string {
    "Figma v2 design: " + component
  }

  function CreateFor(component: string): Effect {
    CreateIssue(IssueTitle(component), FigmaIssueBody(component), FigmaLabels)
  }

  /** One create call per component, in order. */
  function Creates(cs: seq<string>): seq<Effect>
    decreases |cs|
  {
    if |cs| == 0 then [] else Creates(cs[..|cs| - 1]) + [CreateFor(cs[|cs| - 1])]
  }

  /** The k-th call creates the issue of the k-th component. */
  lemma {:induction false} CreatesAt(cs: seq<string>, k: nat)
    requires k < |cs|
    ensures |Creates(cs)| == |cs| && Creates(cs)[k] == CreateFor(cs[k])
    decreases |cs|
  {
    var init := cs[..|cs| - 1];
    if k < |cs| - 1 {
      CreatesAt(init, k);
    } else if |init| > 0 {
      CreatesAt(init, 0);
    }
  }

  lemma CreatesSnoc(cs: seq<string>, c: string)
    ensures Creates(cs + [c]) == Creates(cs) + [CreateFor(c)]
  {
    assert (cs + [c])[..|cs|] == cs;
  }

  function Min(a: int, b: int): int { if a <= b then a else b }

  /** The components the loop creates issues for when `createdIssuesCount`
      starts at `resume`: the directories not in `skip` at raw index
      `resume + 2` or later. */
  function Selected(dirs: seq<string>, skip: seq<string>, resume: nat): seq<string> {
    Without(dirs[Min(resume + 2, |dirs|)..], skip)
  }

  /** The components whose issues the loop has created by the time it reaches
      raw index `i`: index `j` adds its component iff it is not skipped and
      `j >= resume + 2`. */
  function CreatedBefore(dirs: seq<string>, skip: seq<string>, resume: nat, i: nat): seq<string>
    requires i <= |dirs|
    decreases i
  {
    if i == 0 then []
    else CreatedBefore(dirs, skip, resume, i - 1)
         + (if i - 1 >= resume + 2 && dirs[i - 1] !in skip then [dirs[i - 1]] else [])
  }

  /** The step-wise definition is the filter of the raw indices from `resume + 2`. */
  lemma {:induction false} CreatedBeforeIsWithout(dirs: seq<string>, skip: seq<string>, resume: nat, i: nat)
    requires i <= |dirs|
    ensures CreatedBefore(dirs, skip, resume, i) == Without(dirs[Min(resume + 2, i)..i], skip)
    decreases i
  {
    if i > 0 {
      CreatedBeforeIsWithout(dirs, skip, resume, i - 1);
      var lo := Min(resume + 2, i - 1);
      if i - 1 < resume + 2 {
        assert dirs[lo..i - 1] == [];
        assert dirs[Min(resume + 2, i)..i] == [];
      } else {
        assert dirs[Min(resume + 2, i)..i] == dirs[lo..i - 1] + [dirs[i - 1]];
        WithoutAppend(dirs[lo..i - 1], [dirs[i - 1]], skip);
        assert Without([dirs[i - 1]][1..], skip) == [];
      }
    } else {
      assert dirs[Min(resume + 2, i)..i] == [];
    }
  }

  /** With the count at `resume` plus what was created so far, the loop's test
      `createdIssuesCount + 1 >= index` holds exactly while `index < resume + 2`. */
  lemma CreatedStep(dirs: seq<string>, skip: seq<string>, resume: nat, i: nat, created: nat)
    requires i < |dirs|
    requires created == resume + |CreatedBefore(dirs, skip, resume, i)|
    ensures created + 1 >= i <==> i < resume + 2
    ensures dirs[i] in skip || created + 1 >= i ==>
      CreatedBefore(dirs, skip, resume, i + 1) == CreatedBefore(dirs, skip, resume, i)
    ensures dirs[i] !in skip && created + 1 < i ==>
      CreatedBefore(dirs, skip, resume, i + 1) == CreatedBefore(dirs, skip, resume, i) + [dirs[i]]
  {
    assert CreatedBefore(dirs, skip, resume, i) + [] == CreatedBefore(dirs, skip, resume, i);
    CreatedBeforeIsWithout(dirs, skip, resume, i);
    WithoutMembers(dirs[Min(resume + 2, i)..i], skip);
    if i < resume + 2 {
      assert dirs[Min(resume + 2, i)..i] == [];
    }
  }

  /** What the loop has created by raw index `i` is a prefix of the
      selection, and all of it once the listing is exhausted. */
  lemma CreatedPrefix(dirs: seq<string>, skip: seq<string>, resume: nat, i: nat)
    requires i <= |dirs|
    ensures |CreatedBefore(dirs, skip, resume, i)| <= |Selected(dirs, skip, resume)|
    ensures Selected(dirs, skip, resume)[..|CreatedBefore(dirs, skip, resume, i)|] == CreatedBefore(dirs, skip, resume, i)
    ensures i == |dirs| ==> CreatedBefore(dirs, skip, resume, i) == Selected(dirs, skip, resume)
  {
    CreatedBeforeIsWithout(dirs, skip, resume, i);
    var lo := Min(resume + 2, i);
    var hi := Min(resume + 2, |dirs|);
    if lo == i {
      assert dirs[lo..i] == [];
      assert i == |dirs| ==> dirs[hi..] == [];
    } else {
      assert lo == hi;
      assert dirs[hi..] == dirs[lo..i] + dirs[i..];
      WithoutAppend(dirs[lo..i], dirs[i..], skip);
      assert i == |dirs| ==> dirs[lo..i] == dirs[hi..];
    }
  }

  /** The script's loop over the unfiltered directory names `dirs`, passing
      over the names in `skip`. `failAt`, if present, is the number of create calls
      that succeed before one throws; the error is caught and the exit code
      set to 1. Returns the calls made, the final count and the exit code. */
  method Walk(dirs: seq<string>, skip: seq<string>, resume: nat, failAt: Option<nat>)
    returns (effects: seq<Effect>, created: nat, exitCode: int)
    ensures var sel := Selected(dirs, skip, resume);
      (failAt.None? || failAt.value >= |sel|) ==>
        effects == Creates(sel) && created == resume + |sel| && exitCode == 0
    ensures var sel := Selected(dirs, skip, resume);
      (failAt.Some? && failAt.value < |sel|) ==>
        effects == Creates(sel[..failAt.value + 1]) && created == resume + failAt.value && exitCode == 1
  {
    effects, created := [], resume;
    ghost var done: seq<string> := [];
    var index := 0;
    while index < |dirs|
      invariant 0 <= index <= |dirs|
      invariant done == CreatedBefore(dirs, skip, resume, index)
      invariant created == resume + |done| && effects == Creates(done)
      invariant failAt.Some? ==> failAt.value >= |done|
    {
      var component := dirs[index];
      CreatedStep(dirs, skip, resume, index, created);
      if component in skip || created + 1 >= index {
        index := index + 1;
        continue;
      }
      CreatesSnoc(done, component);
      done := done + [component];
      effects := effects + [CreateFor(component)];
      if failAt == Some(created - resume) {
        CreatedPrefix(dirs, skip, resume, index + 1);
        return effects, created, 1;
      }
      created := created + 1;
      index := index + 1;
    }
    CreatedPrefix(dirs, skip, resume, index);
    return effects, created, 0;
  }

  /** The script: the loop over the directory listing with the skip list. A
      directory read that throws is caught and sets exit code 1 before any
      call. */
  method Run(entries: Option<seq<Dirent>>, resume: nat, failAt: Option<nat>)
    returns (effects: seq<Effect>, created: nat, exitCode: int)
    ensures entries.None? ==> effects == [] && created == resume && exitCode == 1
    ensures entries.Some? ==> var sel := Selected(GetDirectories(entries.value), SkipComponents, resume);
      (failAt.None? || failAt.value >= |sel|) ==>
        effects == Creates(sel) && created == resume + |sel| && exitCode == 0
    ensures entries.Some? ==> var sel := Selected(GetDirectories(entries.value), SkipComponents, resume);
      (failAt.Some? && failAt.value < |sel|) ==>
        effects == Creates(sel[..failAt.value + 1]) && created == resume + failAt.value && exitCode == 1
  {
    if entries.None? {
      return [], resume, 1;
    }
    effects, created, exitCode := Walk(GetDirectories(entries.value), SkipComponents, resume, failAt);
  }

  /** Over distinct directory names, a component gets an issue iff it is not
      skipped and sits at raw index `resume + 2` or later: the two indices
      right after the resume point are always passed over. */
  lemma SelectedMembers(dirs: seq<string>, skip: seq<string>, resume: nat)
    requires NoDuplicates(dirs)
    ensures forall j :: 0 <= j < |dirs| ==>
      (dirs[j] in Selected(dirs, skip, resume) <==> j >= resume + 2 && dirs[j] !in skip)
  {
    var m := Min(resume + 2, |dirs|);
    var tail := dirs[m..];
    WithoutMembers(tail, skip);
    forall j | 0 <= j < |dirs|
      ensures dirs[j] in Selected(dirs, skip, resume) <==> j >= resume + 2 && dirs[j] !in skip
    {
      if j >= m {
        assert tail[j - m] == dirs[j];
        assert dirs[j] in Elems(tail);
      } else {
        assert dirs[j] !in Elems(tail) by {
          forall t | 0 <= t < |tail| ensures tail[t] != dirs[j] {
            assert tail[t] == dirs[m + t];
          }
        }
      }
      assert dirs[j] in Selected(dirs, skip, resume) <==> dirs[j] in Elems(Without(tail, skip));
      assert dirs[j] in skip <==> dirs[j] in Elems(skip);
    }
  }

  /** On a fresh run the first two components never get an issue. */
  lemma FreshRunSkipsFirstTwo(dirs: seq<string>, skip: seq<string>)
    requires NoDuplicates(dirs) && |dirs| >= 2
    ensures dirs[0] !in Selected(dirs, skip, 0) && dirs[1] !in Selected(dirs, skip, 0)
  {
    SelectedMembers(dirs, skip, 0);
  }

  /** On a fresh run (`createdIssuesCount` starting at 0) the components at raw
      indices 0 and 1 never get an issue, skipped or not: the three-component
      listing below yields a single create. */
  lemma FreshRunMissesFirstTwo()
    ensures Selected(["accordion", "accordion-item", "action"], SkipComponents, 0) == ["action"]
  {
    var dirs := ["accordion", "accordion-item", "action"];
    assert dirs[2..] == ["action"];
    assert "action" !in SkipComponents;
    assert Without(dirs[2..][1..], SkipComponents) == [];
  }

  /** Handlers `showProgress` registers for every exit event. */
  datatype Listener = ShowProgressListener | PrintTotalListener

  /** The twelve registrations of the first `showProgress` call, in order. */
  function Registrations(events: seq<string>): (r: seq<(string, Listener)>)
    ensures |r| == 2 * |events|
    decreases |events|
  {
    if |events| == 0 then []
    else [(events[0], ShowProgressListener), (events[0], PrintTotalListener)] + Registrations(events[1..])
  }

  lemma {:induction false} RegistrationsSnoc(events: seq<string>, e: string)
    ensures Registrations(events + [e]) == Registrations(events) + [(e, ShowProgressListener), (e, PrintTotalListener)]
    decreases |events|
  {
    if |events| > 0 {
      assert (events + [e])[1..] == events[1..] + [e];
      RegistrationsSnoc(events[1..], e);
    } else {
      assert events + [e] == [e];
    }
  }

  /** The module state of `showProgress`: `progressInterval` (set, and whether
      it still runs), the spinner's `count`, the exit listeners and the text
      written to standard output. */
  class ProgressReporter {
    var intervalSet: bool
    var ticking: bool
    var count: nat
    var listeners: seq<(string, Listener)>
    var stdout: seq<string>

    ghost predicate Valid()
      reads this
    {
      (ticking ==> intervalSet) && listeners == if intervalSet then Registrations(ExitEvents) else []
    }

    constructor ()
      ensures Valid() && !intervalSet && !ticking && count == 0 && listeners == [] && stdout == []
    {
      intervalSet, ticking, count := false, false, 0;
      listeners, stdout := [], [];
    }

    /** The first call (no interval yet) registers itself and the count printer
        on the six exit events, hides the cursor and starts the spinner; every
        later call clears the interval and shows the cursor. */
    method ShowProgress()
      requires Valid()
      modifies this
      ensures Valid() && intervalSet && listeners == Registrations(ExitEvents)
      ensures !old(intervalSet) ==> ticking && count == 0 && stdout == old(stdout) + [HideCursor]
      ensures old(intervalSet) ==> !ticking && count == old(count) && stdout == old(stdout) + [ShowCursor]
    {
      if !intervalSet {
        var i := 0;
        while i < |ExitEvents|
          invariant 0 <= i <= |ExitEvents|
          invariant listeners == Registrations(ExitEvents[..i])
          invariant stdout == old(stdout) && !intervalSet
        {
          assert ExitEvents[..i + 1] == ExitEvents[..i] + [ExitEvents[i]];
          RegistrationsSnoc(ExitEvents[..i], ExitEvents[i]);
          listeners := listeners + [(ExitEvents[i], ShowProgressListener), (ExitEvents[i], PrintTotalListener)];
          i := i + 1;
        }
        assert ExitEvents[..i] == ExitEvents;
        stdout := stdout + [HideCursor];
        count := 0;
        intervalSet, ticking := true, true;
      } else {
        ticking := false;
        stdout := stdout + [ShowCursor];
      }
    }

    /** One firing of the 150 ms interval; a cleared interval does not fire. */
    method Tick()
      requires Valid()
      modifies this
      ensures Valid() && intervalSet == old(intervalSet) && ticking == old(ticking) && listeners == old(listeners)
      ensures old(ticking) ==> count == old(count) + 1 && stdout == old(stdout) + [SpinnerFrame(old(count), "creating issues")]
      ensures !old(ticking) ==> count == old(count) && stdout == old(stdout)
    {
      if ticking {
        stdout := stdout + [SpinnerFrame(count, "creating issues")];
        count := count + 1;
      }
    }
  }
}
