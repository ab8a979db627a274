/** The in-memory state of the project manager: the registered projects,
    one selection flag per project, the form for a new project, the
    progress of the last batch update and the log text. */
module GitPull {
  import opened LogText
  import opened Sync

  /** A registered local clone. */
  datatype Project = Project(path: string, name: string, notes: string)

  /** The empty form the new-project fields start with and return to. */
  const BlankProject := Project("", "", "")

  /** The progress bar value `completed / total`, kept as the two counts.
      The initial 0.0 is `Fraction(0, 1)`. */
  datatype Fraction = Fraction(completed: nat, total: nat)

  /** The configuration file as found at start-up. */
  datatype ConfigFile = Unreadable | Unparsable | Parsed(projects: seq<Project>)

  /** `Default::default`: a missing or unparsable file gives no projects. */
  function StartupProjects(config: ConfigFile): seq<Project>
  {
    if config.Parsed? then config.projects else []
  }

  // -----------------------------------------------------------------------
  // Registering a project

  /** How the "add project" button treats the form. */
  datatype Registration = Admitted | EmptyField | NotARepository | NoOriginRemote

  /** The checks of the add button, in order: both path and name filled in,
      the path opens as a repository (`opens`), the repository has an
      `origin` remote (`hasOrigin`). */
  function Register(candidate: Project, opens: bool, hasOrigin: bool): (r: Registration)
    ensures r == Admitted <==> candidate.path != "" && candidate.name != "" && opens && hasOrigin
    ensures r == EmptyField <==> candidate.path == "" || candidate.name == ""
    ensures r == NotARepository <==> candidate.path != "" && candidate.name != "" && !opens
    ensures r == NoOriginRemote <==> candidate.path != "" && candidate.name != "" && opens && !hasOrigin
  {
    if candidate.path != "" && candidate.name != "" then
      if opens then
        if hasOrigin then Admitted else NoOriginRemote
      else NotARepository
    else EmptyField
  }

  /** The message logged for a rejected registration. */
  function RegistrationError(r: Registration, candidate: Project): string
    requires r != Admitted
  {
    match r
    case EmptyField => "项目路径和名称不能为空"
    case NotARepository => "项目路径 " + candidate.path + " 不存在或不是一个有效的Git仓库"
    case NoOriginRemote => "项目 " + candidate.name + " 不是一个有效的Git仓库或没有origin远程仓库"
  }

  /** A rejection message is one clean line when the path and the name are. */
  lemma RegistrationErrorIsOneLine(r: Registration, candidate: Project)
    requires r != Admitted
    requires Clean(candidate.path) && Clean(candidate.name)
    ensures Clean(RegistrationError(r, candidate))
  {
    match r
    case EmptyField =>
      CleanChars("项目路径和名称不能为空");
    case NotARepository =>
      NotARepositoryClean(candidate.path);
    case NoOriginRemote =>
      NoOriginRemoteClean(candidate.name);
  }

  lemma NotARepositoryClean(path: string)
    requires Clean(path)
    ensures Clean("项目路径 " + path + " 不存在或不是一个有效的Git仓库")
  {
    CleanJoin("项目路径 ", path);
    CleanChars(" 不存在或不是一个有效的Git仓库");
    CleanJoin("项目路径 " + path, " 不存在或不是一个有效的Git仓库");
  }

  lemma NoOriginRemoteClean(name: string)
    requires Clean(name)
    ensures Clean("项目 " + name + " 不是一个有效的Git仓库或没有origin远程仓库")
  {
    CleanJoin("项目 ", name);
    CleanChars(" 不是一个有效的Git仓库或没有origin远程仓库");
    CleanJoin("项目 " + name, " 不是一个有效的Git仓库或没有origin远程仓库");
  }

  /** The text `log_error` pushes before capping. */
  function ErrorEntry(message: string): string
  {
    ErrorTag + message + "\n"
  }

  /** `log_error` adds exactly one line, tagged `[ERROR]`, to a log that ends
      at a line start. */
  lemma LogErrorAddsOneLine(log: string, message: string)
    requires AtLineStart(log)
    requires Clean(message)
    ensures Lines(log + ErrorEntry(message)) == Lines(log) + [ErrorTag + message]
  {
    assert '\n' !in ErrorTag && '\r' !in ErrorTag;
    var line := ErrorTag + message;
    assert Terminated([line]) == ErrorEntry(message);
    AppendMessages(log, [line]);
  }

  // -----------------------------------------------------------------------
  // Selections

  /** The indices whose flag is set, in ascending order: the
      `enumerate().filter(..).map(..)` chain of the batch update. */
  function SelectedIndices(flags: seq<bool>): (idx: seq<nat>)
    ensures forall p, q :: 0 <= p < q < |idx| ==> idx[p] < idx[q]
    ensures forall p :: 0 <= p < |idx| ==> idx[p] < |flags| && flags[idx[p]]
    ensures forall i :: 0 <= i < |flags| && flags[i] ==> i in idx
    decreases |flags|
  {
    if flags == [] then []
    else
      var n := |flags| - 1;
      var init := SelectedIndices(flags[..n]);
      init + (if flags[n] then [n] else [])
  }

  /** The elements of `xs` whose flag in `flags` is not set, in order. */
  function Unselected<T>(xs: seq<T>, flags: seq<bool>): seq<T>
    requires |xs| == |flags|
    decreases |xs|
  {
    if xs == [] then []
    else
      var n := |xs| - 1;
      Unselected(xs[..n], flags[..n]) + (if flags[n] then [] else [xs[n]])
  }

  /** The flags with every value flipped. */
  function Negated(flags: seq<bool>): (r: seq<bool>)
    ensures |r| == |flags| && forall i :: 0 <= i < |flags| ==> r[i] == !flags[i]
  {
    seq(|flags|, i requires 0 <= i < |flags| => !flags[i])
  }

  lemma {:induction false} UnselectedAppend<T>(a: seq<T>, fa: seq<bool>, b: seq<T>, fb: seq<bool>)
    requires |a| == |fa| && |b| == |fb|
    ensures Unselected(a + b, fa + fb) == Unselected(a, fa) + Unselected(b, fb)
    decreases |b|
  {
    if b == [] {
      assert a + b == a && fa + fb == fa;
    } else {
      var n := |b| - 1;
      assert (a + b)[..|a| + n] == a + b[..n];
      assert (fa + fb)[..|fa| + n] == fa + fb[..n];
      UnselectedAppend(a, fa, b[..n], fb[..n]);
    }
  }

  /** Nothing selected: nothing is dropped. */
  lemma {:induction false} UnselectedNoneSelected<T>(xs: seq<T>, flags: seq<bool>)
    requires |xs| == |flags|
    requires forall i :: 0 <= i < |flags| ==> !flags[i]
    ensures Unselected(xs, flags) == xs
    decreases |xs|
  {
    if xs != [] {
      var n := |xs| - 1;
      UnselectedNoneSelected(xs[..n], flags[..n]);
      assert xs[..n] + [xs[n]] == xs;
    }
  }

  /** Only the length of the flags decides how many elements remain, and the
      flags that remain are all clear. */
  lemma {:induction false} UnselectedFlags<T>(xs: seq<T>, flags: seq<bool>)
    requires |xs| == |flags|
    ensures |Unselected(xs, flags)| == |Unselected(flags, flags)|
    ensures forall j :: 0 <= j < |Unselected(flags, flags)| ==> !Unselected(flags, flags)[j]
    decreases |xs|
  {
    if xs != [] {
      var n := |xs| - 1;
      UnselectedFlags(xs[..n], flags[..n]);
    }
  }

  /** The kept elements are exactly those at the unselected indices, in
      ascending order of index. */
  lemma {:induction false} UnselectedAt<T>(xs: seq<T>, flags: seq<bool>)
    requires |xs| == |flags|
    ensures var keep := SelectedIndices(Negated(flags));
      |Unselected(xs, flags)| == |keep| &&
      forall j :: 0 <= j < |keep| ==> keep[j] < |xs| && Unselected(xs, flags)[j] == xs[keep[j]]
    decreases |xs|
  {
    if xs != [] {
      var n := |xs| - 1;
      UnselectedAt(xs[..n], flags[..n]);
      assert Negated(flags)[..n] == Negated(flags[..n]);
    }
  }

  /** Dropping the selected element `d`, followed by unselected ones up to `b`. */
  lemma UnselectedSkip<T>(xs: seq<T>, flags: seq<bool>, d: nat, b: nat)
    requires |xs| == |flags| && d < b <= |xs|
    requires flags[d]
    requires forall j :: d < j < b ==> !flags[j]
    ensures Unselected(xs[d..], flags[d..]) == xs[d + 1..b] + Unselected(xs[b..], flags[b..])
  {
    assert xs[d..] == ([xs[d]] + xs[d + 1..b]) + xs[b..];
    assert flags[d..] == ([flags[d]] + flags[d + 1..b]) + flags[b..];
    UnselectedAppend([xs[d]] + xs[d + 1..b], [flags[d]] + flags[d + 1..b], xs[b..], flags[b..]);
    UnselectedAppend([xs[d]], [flags[d]], xs[d + 1..b], flags[d + 1..b]);
    assert Unselected([xs[d]], [flags[d]]) == [] by {
      assert [xs[d]][..0] == [];
    }
    UnselectedNoneSelected(xs[d + 1..b], flags[d + 1..b]);
  }

  /** An unselected prefix is kept whole. */
  lemma UnselectedPrefix<T>(xs: seq<T>, flags: seq<bool>, b: nat)
    requires |xs| == |flags| && b <= |xs|
    requires forall j :: 0 <= j < b ==> !flags[j]
    ensures Unselected(xs, flags) == xs[..b] + Unselected(xs[b..], flags[b..])
  {
    assert xs == xs[..b] + xs[b..];
    assert flags == flags[..b] + flags[b..];
    UnselectedAppend(xs[..b], flags[..b], xs[b..], flags[b..]);
    UnselectedNoneSelected(xs[..b], flags[..b]);
  }

  /** One `Vec::remove` of the deletion loop: with everything from `b` on
      already filtered, removing the selected index `d` below `b` (nothing
      selected in between) extends the filtered part down to `d`. */
  lemma RemoveAt<T>(xs: seq<T>, flags: seq<bool>, d: nat, b: nat, cur: seq<T>)
    requires |xs| == |flags| && d < b <= |xs|
    requires flags[d]
    requires forall j :: d < j < b ==> !flags[j]
    requires cur == xs[..b] + Unselected(xs[b..], flags[b..])
    ensures d < |cur|
    ensures cur[..d] + cur[d + 1..] == xs[..d] + Unselected(xs[d..], flags[d..])
  {
    UnselectedSkip(xs, flags, d, b);
    assert cur[..d] == xs[..d];
    assert cur[d + 1..] == xs[d + 1..b] + Unselected(xs[b..], flags[b..]);
  }

  /** `r` lists every selected index of `flags` and nothing else, from the
      highest down. */
  ghost predicate DescendingSelection(flags: seq<bool>, r: seq<nat>)
  {
    (forall p :: 0 <= p < |r| ==> r[p] < |flags| && flags[r[p]]) &&
    (forall p, q :: 0 <= p < q < |r| ==> r[p] > r[q]) &&
    (forall j :: 0 <= j < |flags| && flags[j] ==> j in r)
  }

  /** Between two consecutive indices of a complete, strictly decreasing list
      of the selected indices, no flag is set. */
  lemma RemovalGap(flags: seq<bool>, r: seq<nat>, k: nat)
    requires DescendingSelection(flags, r)
    requires k <= |r|
    ensures var hi := if k == 0 then |flags| else r[k - 1];
      var lo := if k < |r| then r[k] + 1 else 0;
      lo <= hi && forall j :: lo <= j < hi ==> !flags[j]
  {
    var hi := if k == 0 then |flags| else r[k - 1];
    var lo := if k < |r| then r[k] + 1 else 0;
    forall j | lo <= j < hi ensures !flags[j] {
      forall p | 0 <= p < |r| ensures r[p] != j {
        if p < k {
          assert r[p] >= r[k - 1];
        } else if p > k {
          assert r[p] < r[k];
        }
      }
    }
  }

  /** The state before the `k`-th removal: everything from the last
      removed index on is filtered, the rest untouched. */
  ghost predicate RemovedDownTo<T>(xs: seq<T>, flags: seq<bool>, r: seq<nat>, k: nat, cur: seq<T>)
  {
    |xs| == |flags| && k <= |r| &&
    var b := if k == 0 then |flags| else r[k - 1];
    b <= |xs| && cur == xs[..b] + Unselected(xs[b..], flags[b..])
  }

  /** The `k`-th removal is in range and keeps the shape. */
  lemma RemovalStep<T>(xs: seq<T>, flags: seq<bool>, r: seq<nat>, k: nat, cur: seq<T>)
    requires |xs| == |flags| && k < |r|
    requires DescendingSelection(flags, r)
    requires RemovedDownTo(xs, flags, r, k, cur)
    ensures r[k] < |cur|
    ensures RemovedDownTo(xs, flags, r, k + 1, cur[..r[k]] + cur[r[k] + 1..])
  {
    RemovalGap(flags, r, k);
    var b := if k == 0 then |flags| else r[k - 1];
    RemoveAt(xs, flags, r[k], b, cur);
  }

  /** After the last removal only the unselected elements are left. */
  lemma RemovalDone<T>(xs: seq<T>, flags: seq<bool>, r: seq<nat>, cur: seq<T>)
    requires |xs| == |flags|
    requires DescendingSelection(flags, r)
    requires RemovedDownTo(xs, flags, r, |r|, cur)
    ensures cur == Unselected(xs, flags)
  {
    RemovalGap(flags, r, |r|);
    var b := if |r| == 0 then |flags| else r[|r| - 1];
    UnselectedPrefix(xs, flags, b);
  }

  /** `Vec::remove(i)`: the sequence without its element at `i` (every
      index the deletion loop removes is in range, see `RemoveEachSelected`). */
  function Without<T>(xs: seq<T>, i: nat): seq<T>
  {
    if i < |xs| then xs[..i] + xs[i + 1..] else xs
  }

  /** The second loop of `delete_selected_projects`: remove each index of
      `r`, in the order given. */
  function RemoveEach<T>(xs: seq<T>, r: seq<nat>): seq<T>
    decreases |r|
  {
    if r == [] then xs else RemoveEach(Without(xs, r[0]), r[1..])
  }

  /** From the state before the `k`-th removal, the remaining removals
      leave exactly the unselected elements. */
  lemma {:induction false} RemoveEachFrom<T>(xs: seq<T>, flags: seq<bool>, r: seq<nat>, k: nat, cur: seq<T>)
    requires DescendingSelection(flags, r)
    requires RemovedDownTo(xs, flags, r, k, cur)
    ensures RemoveEach(cur, r[k..]) == Unselected(xs, flags)
    decreases |r| - k
  {
    if k == |r| {
      RemovalDone(xs, flags, r, cur);
      assert r[k..] == [];
    } else {
      RemovalStep(xs, flags, r, k, cur);
      RemoveEachFrom(xs, flags, r, k + 1, cur[..r[k]] + cur[r[k] + 1..]);
      assert r[k..][1..] == r[k + 1..];
    }
  }

  /** Removing the selected indices from the highest down keeps exactly the
      unselected elements, of the projects and of the flags alike. */
  lemma RemoveEachSelected<T>(xs: seq<T>, flags: seq<bool>, r: seq<nat>)
    requires |xs| == |flags|
    requires DescendingSelection(flags, r)
    ensures RemoveEach(xs, r) == Unselected(xs, flags)
    ensures RemoveEach(flags, r) == Unselected(flags, flags)
  {
    assert xs[..|flags|] + Unselected(xs[|flags|..], flags[|flags|..]) == xs;
    assert flags[..|flags|] + Unselected(flags[|flags|..], flags[|flags|..]) == flags;
    assert r[0..] == r;
    RemoveEachFrom(xs, flags, r, 0, xs);
    RemoveEachFrom(flags, flags, r, 0, flags);
  }

  /** The `p`-th index removed is below the length left after `p` removals. */
  lemma {:induction false} DescendingBound(flags: seq<bool>, r: seq<nat>, p: nat)
    requires DescendingSelection(flags, r)
    requires p < |r|
    ensures r[p] + p < |flags|
    decreases p
  {
    if p > 0 {
      DescendingBound(flags, r, p - 1);
      assert r[p] < r[p - 1];
    }
  }

  // -----------------------------------------------------------------------
  // The batch update

  /** The outcome of one project of a batch update. */
  datatype Report = Report(outcome: Outcome, project: Project)

  /** The log messages of a sequence of reports, in the same order. */
  function Messages(reports: seq<Report>): (ms: seq<string>)
    requires forall j :: 0 <= j < |reports| ==> reports[j].outcome != Aborted
    ensures |ms| == |reports|
    ensures forall j :: 0 <= j < |ms| ==>
      ms[j] == Message(reports[j].outcome, reports[j].project.name, reports[j].project.path)
  {
    seq(|reports|, j requires 0 <= j < |reports| =>
      Message(reports[j].outcome, reports[j].project.name, reports[j].project.path))
  }

  lemma MessagesAppend(reports: seq<Report>, r: Report)
    requires forall j :: 0 <= j < |reports| ==> reports[j].outcome != Aborted
    requires r.outcome != Aborted
    ensures Messages(reports + [r]) == Messages(reports) + [Message(r.outcome, r.project.name, r.project.path)]
  {
    assert forall j :: 0 <= j < |reports| ==> (reports + [r])[j] == reports[j];
  }

  /** The reports collected so far (one per message the loop has pushed),
      the projects counted as completed, and whether a failing `unwrap()`
      has ended the batch. */
  datatype BatchResult = BatchResult(reports: seq<Report>, completed: nat, aborted: bool)

  /** One turn of the loop of `update_selected_projects` for index `i`: an
      index with a project gets a report of its outcome (or ends the batch
      when the outcome is `Aborted`); an index that does not end the batch
      counts as completed, whether it has a project or not. */
  function Step(projects: seq<Project>, prev: BatchResult, i: nat, probe: nat -> GitProbe): BatchResult
  {
    if prev.aborted then prev
    else if i < |projects| then
      var o := Classify(probe(i));
      if o == Aborted then prev.(aborted := true)
      else BatchResult(prev.reports + [Report(o, projects[i])], prev.completed + 1, false)
    else prev.(completed := prev.completed + 1)
  }

  /** The loop of `update_selected_projects` over the selected indices `idxs`. */
  function RunBatch(projects: seq<Project>, idxs: seq<nat>, probe: nat -> GitProbe): (run: BatchResult)
    ensures |run.reports| <= run.completed <= |idxs|
    ensures forall j :: 0 <= j < |run.reports| ==> run.reports[j].outcome != Aborted
    decreases |idxs|
  {
    if idxs == [] then BatchResult([], 0, false)
    else Step(projects, RunBatch(projects, idxs[..|idxs| - 1], probe), idxs[|idxs| - 1], probe)
  }

  lemma RunBatchPrefix(projects: seq<Project>, idxs: seq<nat>, k: nat, probe: nat -> GitProbe)
    requires k < |idxs|
    ensures RunBatch(projects, idxs[..k + 1], probe) == Step(projects, RunBatch(projects, idxs[..k], probe), idxs[k], probe)
  {
    assert idxs[..k + 1][..k] == idxs[..k];
  }

  /** Once the batch has ended, later indices change nothing. */
  lemma {:induction false} RunBatchStopped(projects: seq<Project>, xs: seq<nat>, ys: seq<nat>, probe: nat -> GitProbe)
    requires RunBatch(projects, xs, probe).aborted
    ensures RunBatch(projects, xs + ys, probe) == RunBatch(projects, xs, probe)
    decreases |ys|
  {
    if ys == [] {
      assert xs + ys == xs;
    } else {
      var n := |ys| - 1;
      assert (xs + ys)[..|xs| + n] == xs + ys[..n];
      RunBatchStopped(projects, xs, ys[..n], probe);
    }
  }

  /** The batch runs to the end unless some index with a project has the
      outcome `Aborted`; then it stops at the first such index, having
      completed exactly the indices before it. Run to the end, it completes
      every index, those without a project included. */
  lemma {:induction false} RunBatchProgress(projects: seq<Project>, idxs: seq<nat>, probe: nat -> GitProbe)
    ensures var run := RunBatch(projects, idxs, probe);
      (run.aborted <==> exists j :: 0 <= j < |idxs| && idxs[j] < |projects| && Classify(probe(idxs[j])) == Aborted) &&
      (!run.aborted ==> run.completed == |idxs|) &&
      (run.aborted ==>
        run.completed < |idxs| && idxs[run.completed] < |projects| &&
        Classify(probe(idxs[run.completed])) == Aborted &&
        !RunBatch(projects, idxs[..run.completed], probe).aborted &&
        run.reports == RunBatch(projects, idxs[..run.completed], probe).reports)
    decreases |idxs|
  {
    if idxs != [] {
      var n := |idxs| - 1;
      var init := idxs[..n];
      RunBatchProgress(projects, init, probe);
      var prev := RunBatch(projects, init, probe);
      if prev.aborted {
        assert init[..prev.completed] == idxs[..prev.completed];
        var j :| 0 <= j < |init| && init[j] < |projects| && Classify(probe(init[j])) == Aborted;
        assert idxs[j] == init[j];
      } else {
        assert idxs[..n] == init;
        forall j | 0 <= j < n ensures !(idxs[j] < |projects| && Classify(probe(idxs[j])) == Aborted) {
          assert idxs[j] == init[j];
        }
      }
    }
  }

  /** A batch that is not ended by a failing `unwrap()` completes every index. */
  lemma {:induction false} RunBatchCompletes(projects: seq<Project>, idxs: seq<nat>, probe: nat -> GitProbe)
    ensures !RunBatch(projects, idxs, probe).aborted ==> RunBatch(projects, idxs, probe).completed == |idxs|
  {
    RunBatchProgress(projects, idxs, probe);
  }

  /** Run to the end over indices that all have a project, the batch makes
      one report per index, in the order of the indices, each of that
      project's outcome. */
  lemma {:induction false} RunBatchInOrder(projects: seq<Project>, idxs: seq<nat>, probe: nat -> GitProbe)
    requires forall j :: 0 <= j < |idxs| ==> idxs[j] < |projects|
    ensures var run := RunBatch(projects, idxs, probe);
      !run.aborted ==>
        |run.reports| == |idxs| &&
        forall j :: 0 <= j < |idxs| ==>
          run.reports[j] == Report(Classify(probe(idxs[j])), projects[idxs[j]])
    decreases |idxs|
  {
    if idxs != [] {
      var n := |idxs| - 1;
      var init := idxs[..n];
      var prev := RunBatch(projects, init, probe);
      if !RunBatch(projects, idxs, probe).aborted {
        RunBatchInOrder(projects, init, probe);
        forall j | 0 <= j < n ensures idxs[j] == init[j] { }
      }
    }
  }

  /** Every flag of a valid state is within range, so with no failing
      `unwrap()` a batch update logs one message per selected project, in
      ascending order of index, each the message of its outcome, and counts
      every selected project as completed. */
  lemma SelectedBatch(projects: seq<Project>, flags: seq<bool>, probe: nat -> GitProbe)
    requires |flags| == |projects|
    ensures var idxs := SelectedIndices(flags);
      var run := RunBatch(projects, idxs, probe);
      !run.aborted ==>
        run.completed == |idxs| &&
        forall j :: 0 <= j < |idxs| ==> Classify(probe(idxs[j])) != Aborted
    ensures var idxs := SelectedIndices(flags);
      var run := RunBatch(projects, idxs, probe);
      !run.aborted ==>
        |Messages(run.reports)| == |idxs| &&
        forall j :: 0 <= j < |idxs| ==>
          Messages(run.reports)[j] ==
            Message(Classify(probe(idxs[j])), projects[idxs[j]].name, projects[idxs[j]].path)
  {
    var idxs := SelectedIndices(flags);
    RunBatchProgress(projects, idxs, probe);
    RunBatchInOrder(projects, idxs, probe);
  }

  /** The first loop of `delete_selected_projects`: the selected indices,
      from the highest down. */
  method IndicesToRemove(flags: seq<bool>) returns (r: seq<nat>)
    ensures DescendingSelection(flags, r)
  {
    r := [];
    var i := |flags|;
    while i > 0
      invariant 0 <= i <= |flags|
      invariant forall p :: 0 <= p < |r| ==> i <= r[p] < |flags| && flags[r[p]]
      invariant forall p, q :: 0 <= p < q < |r| ==> r[p] > r[q]
      invariant forall j :: i <= j < |flags| && flags[j] ==> j in r
    {
      i := i - 1;
      if flags[i] {
        r := r + [i];
      }
    }
  }

  // -----------------------------------------------------------------------
  // The application state

  class App {
    var projects: seq<Project>
    var newProject: Project
    var selectedProjects: seq<bool>
    var progress: Fraction
    var logBuffer: string

    /** One selection flag per project. */
    ghost predicate Valid()
      reads this
    {
      |selectedProjects| == |projects|
    }

    /** `Default::default`, given what was read from the configuration file. */
    constructor (config: ConfigFile)
      ensures Valid()
      ensures projects == StartupProjects(config)
      ensures forall i :: 0 <= i < |selectedProjects| ==> !selectedProjects[i]
      ensures newProject == BlankProject && progress == Fraction(0, 1) && logBuffer == ""
    {
      var loaded := StartupProjects(config);
      projects := loaded;
      newProject := BlankProject;
      selectedProjects := seq(|loaded|, _ => false);
      progress := Fraction(0, 1);
      logBuffer := "";
    }

    /** Typing into the three fields of the new-project form. */
    method EditNewProject(path: string, name: string, notes: string)
      requires Valid()
      modifies this
      ensures Valid()
      ensures newProject == Project(path, name, notes)
      ensures projects == old(projects) && selectedProjects == old(selectedProjects)
      ensures progress == old(progress) && logBuffer == old(logBuffer)
    {
      newProject := Project(path, name, notes);
    }

    /** Typing into the log area, which is an editable text field: the log
        becomes whatever the user leaves in it. */
    method EditLog(text: string)
      requires Valid()
      modifies this
      ensures Valid()
      ensures logBuffer == text
      ensures projects == old(projects) && selectedProjects == old(selectedProjects)
      ensures newProject == old(newProject) && progress == old(progress)
    {
      logBuffer := text;
    }

    /** Ticking or clearing the checkbox of project `i`. */
    method SetSelected(i: nat, value: bool)
      requires Valid() && i < |projects|
      modifies this
      ensures Valid()
      ensures selectedProjects == old(selectedProjects)[i := value]
      ensures projects == old(projects) && newProject == old(newProject)
      ensures progress == old(progress) && logBuffer == old(logBuffer)
    {
      selectedProjects := selectedProjects[i := value];
    }

    /** `limit_log_buffer`. */
    method LimitLogBuffer()
      modifies this`logBuffer
      ensures logBuffer == Capped(old(logBuffer))
      ensures projects == old(projects) && selectedProjects == old(selectedProjects)
      ensures newProject == old(newProject) && progress == old(progress)
    {
      var lines := Lines(logBuffer);
      if |lines| > MaxLines {
        var skip := |lines| - MaxLines;
        logBuffer := Join(lines[skip..]);
      }
    }

    /** `log_error`: push one tagged line, then cap the log. */
    method LogError(message: string)
      modifies this`logBuffer
      ensures logBuffer == Capped(old(logBuffer) + ErrorEntry(message))
      ensures projects == old(projects) && selectedProjects == old(selectedProjects)
      ensures newProject == old(newProject) && progress == old(progress)
    {
      logBuffer := logBuffer + ErrorEntry(message);
      LimitLogBuffer();
    }

    /** The "add project" button. `opens` and `hasOrigin` are what
        `Repository::open` and `find_remote("origin")` answer for the path
        in the form. An admitted project is appended with a clear flag and
        the form is emptied; otherwise only the log changes. */
    method AddProject(opens: bool, hasOrigin: bool)
      requires Valid()
      modifies this
      ensures Valid()
      ensures var r := Register(old(newProject), opens, hasOrigin);
        if r == Admitted then
          projects == old(projects) + [old(newProject)] &&
          selectedProjects == old(selectedProjects) + [false] &&
          newProject == BlankProject && logBuffer == old(logBuffer)
        else
          projects == old(projects) && selectedProjects == old(selectedProjects) &&
          newProject == old(newProject) &&
          logBuffer == Capped(old(logBuffer) + ErrorEntry(RegistrationError(r, old(newProject))))
      ensures progress == old(progress)
    {
      var r := Register(newProject, opens, hasOrigin);
      if r == Admitted {
        projects := projects + [newProject];
        selectedProjects := selectedProjects + [false];
        newProject := newProject.(path := "");
        newProject := newProject.(name := "");
        newProject := newProject.(notes := "");
      } else {
        LogError(RegistrationError(r, newProject));
      }
    }

    /** `update_selected_projects`. `probe(i)` is what the git library
        answers for the project at index `i`. Returns the number of
        completed projects and whether a failing `unwrap()` ended the run;
        in that case nothing is logged and the flags stay as they were. */
    method UpdateSelectedProjects(probe: nat -> GitProbe) returns (completed: nat, aborted: bool)
      requires Valid()
      modifies this
      ensures Valid()
      ensures projects == old(projects) && newProject == old(newProject)
      ensures var run := RunBatch(old(projects), SelectedIndices(old(selectedProjects)), probe);
        completed == run.completed && aborted == run.aborted &&
        (aborted ==> selectedProjects == old(selectedProjects) && logBuffer == old(logBuffer)) &&
        (!aborted ==>
          completed == |SelectedIndices(old(selectedProjects))| &&
          logBuffer == Capped(old(logBuffer) + Terminated(Messages(run.reports))) &&
          forall i :: 0 <= i < |selectedProjects| ==> !selectedProjects[i])
      ensures progress ==
        if completed == 0 then old(progress)
        else Fraction(completed, |SelectedIndices(old(selectedProjects))|)
    {
      var selected := SelectedIndices(selectedProjects);
      var logMessages;
      ghost var reports;
      logMessages, completed, aborted, reports := ProcessSelected(selected, probe);
      RunBatchCompletes(projects, selected, probe);
      if aborted {
        return;
      }
      PushMessages(logMessages);
      LimitLogBuffer();
      ClearSelections();
    }

    /** The main loop of `update_selected_projects` over the selected
        indices: classify each project, collect its message, count it as
        completed and move the progress bar. A failing `unwrap()` stops the
        loop. */
    method ProcessSelected(selected: seq<nat>, probe: nat -> GitProbe)
      returns (logMessages: seq<string>, completed: nat, aborted: bool, ghost reports: seq<Report>)
      modifies this`progress
      ensures RunBatch(projects, selected, probe) == BatchResult(reports, completed, aborted)
      ensures !aborted ==> logMessages == Messages(reports)
      ensures progress == if completed == 0 then old(progress) else Fraction(completed, |selected|)
    {
      var total := |selected|;
      completed, aborted := 0, false;
      logMessages, reports := [], [];
      var k := 0;
      while k < |selected| && !aborted
        invariant 0 <= k <= |selected|
        invariant RunBatch(projects, selected[..k], probe) == BatchResult(reports, completed, aborted)
        invariant logMessages == Messages(reports)
        invariant progress == if completed == 0 then old(progress) else Fraction(completed, total)
      {
        var index := selected[k];
        RunBatchPrefix(projects, selected, k, probe);
        ghost var before := BatchResult(reports, completed, aborted);
        if index < |projects| {
          var project := projects[index];
          var outcome := Classify(probe(index));
          if outcome == Aborted {
            aborted := true;
          } else {
            MessagesAppend(reports, Report(outcome, project));
            logMessages := logMessages + [Message(outcome, project.name, project.path)];
            reports := reports + [Report(outcome, project)];
          }
        }
        if !aborted {
          completed := completed + 1;
          progress := Fraction(completed, total);
        }
        assert Step(projects, before, index, probe) == BatchResult(reports, completed, aborted);
        k := k + 1;
      }
      if aborted {
        RunBatchStopped(projects, selected[..k], selected[k..], probe);
        assert selected[..k] + selected[k..] == selected;
      } else {
        assert selected[..k] == selected;
      }
    }

    /** The loop of `update_selected_projects` that appends each collected
        message and a line feed to the log. */
    method PushMessages(messages: seq<string>)
      modifies this`logBuffer
      ensures logBuffer == old(logBuffer) + Terminated(messages)
    {
      var j := 0;
      while j < |messages|
        invariant 0 <= j <= |messages|
        invariant logBuffer == old(logBuffer) + Terminated(messages[..j])
      {
        assert messages[..j + 1][..j] == messages[..j];
        logBuffer := logBuffer + messages[j] + "\n";
        j := j + 1;
      }
      assert messages[..j] == messages;
    }

    /** The last loop of `update_selected_projects`: take the flags, clear
        each one, put them back. */
    method ClearSelections()
      modifies this`selectedProjects
      ensures |selectedProjects| == |old(selectedProjects)|
      ensures forall i :: 0 <= i < |selectedProjects| ==> !selectedProjects[i]
    {
      var flags := selectedProjects;
      selectedProjects := [];
      var i := 0;
      while i < |flags|
        invariant 0 <= i <= |flags| == |old(selectedProjects)|
        invariant forall l :: 0 <= l < i ==> !flags[l]
      {
        flags := flags[i := false];
        i := i + 1;
      }
      selectedProjects := flags;
    }

    /** `delete_selected_projects`: collect the selected indices from the
        highest down, then remove each from both sequences. What remains are
        the projects that were not selected, in their order, each with a
        clear flag. */
    method DeleteSelectedProjects()
      requires Valid()
      modifies this
      ensures Valid()
      ensures projects == Unselected(old(projects), old(selectedProjects))
      ensures forall i :: 0 <= i < |selectedProjects| ==> !selectedProjects[i]
      ensures newProject == old(newProject) && progress == old(progress) && logBuffer == old(logBuffer)
    {
      var indicesToRemove := IndicesToRemove(selectedProjects);
      RemoveIndices(indicesToRemove);
    }

    /** One turn of the deletion loop: `Vec::remove` at `index` from both sequences. */
    method RemoveProject(index: nat)
      requires index < |projects| && index < |selectedProjects|
      modifies this`projects, this`selectedProjects
      ensures projects == old(projects)[..index] + old(projects)[index + 1..]
      ensures selectedProjects == old(selectedProjects)[..index] + old(selectedProjects)[index + 1..]
    {
      projects := projects[..index] + projects[index + 1..];
      selectedProjects := selectedProjects[..index] + selectedProjects[index + 1..];
    }

    /** The second loop of `delete_selected_projects`: `Vec::remove` of each
        index, highest first, from both sequences. */
    method RemoveIndices(indicesToRemove: seq<nat>)
      requires Valid()
      requires DescendingSelection(selectedProjects, indicesToRemove)
      modifies this`projects, this`selectedProjects
      ensures Valid()
      ensures projects == Unselected(old(projects), old(selectedProjects))
      ensures forall i :: 0 <= i < |selectedProjects| ==> !selectedProjects[i]
    {
      ghost var P, F := projects, selectedProjects;
      RemoveEachSelected(P, F, indicesToRemove);
      forall p | 0 <= p < |indicesToRemove|
        ensures indicesToRemove[p] + p < |F|
      {
        DescendingBound(F, indicesToRemove, p);
      }
      var k := 0;
      while k < |indicesToRemove|
        invariant k <= |indicesToRemove|
        invariant |projects| == |selectedProjects| == |F| - k
        invariant RemoveEach(projects, indicesToRemove[k..]) == Unselected(P, F)
        invariant RemoveEach(selectedProjects, indicesToRemove[k..]) == Unselected(F, F)
      {
        assert indicesToRemove[k..][1..] == indicesToRemove[k + 1..];
        RemoveProject(indicesToRemove[k]);
        k := k + 1;
      }
      assert indicesToRemove[k..] == [];
      UnselectedFlags(P, F);
    }
  }
}
