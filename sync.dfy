/** One project of a batch update: what the git calls answer for it, the
    outcome they lead to, and the log message written for that outcome. */
module Sync {
  import opened LogText

  /** What `remote.fetch(&["master"], ..)` returns. */
  datatype FetchResult = Fetched | FetchFailed(error: string)

  /** The answers the git library gives for one project, in the order the
      update loop asks for them. Only the answers the loop reaches matter. */
  datatype GitProbe = GitProbe(
    opens: bool,          // Repository::open(path) succeeds
    hasOrigin: bool,      // repo.find_remote("origin") succeeds
    fetch: FetchResult,   // fetching "master" from origin
    hasFetchHead: bool,   // repo.find_reference("FETCH_HEAD") succeeds
    analysisOk: bool,     // reference_to_annotated_commit and merge_analysis succeed
    upToDate: bool,       // analysis.is_up_to_date()
    fastForward: bool,    // analysis.is_fast_forward()
    fastForwardOk: bool)  // find_reference, set_target, set_head and checkout_head succeed

  /** What the update loop does with one project. `Aborted` is a failing
      `unwrap()`: the program panics and the batch goes no further. */
  datatype Outcome =
    | OpenFailed
    | NoOrigin
    | FetchErr(message: string)
    | NoFetchHead
    | UpToDate
    | FastForward
    | Diverged
    | Aborted

  /** The probe gets as far as the merge analysis. */
  ghost predicate ReachesAnalysis(p: GitProbe)
  {
    p.opens && p.hasOrigin && p.fetch == Fetched && p.hasFetchHead
  }

  /** The nested `if`s of the update loop: each check is consulted only when
      all earlier ones passed, in the order open, origin, fetch, FETCH_HEAD,
      up to date, fast-forward, otherwise a conflict. */
  function Classify(p: GitProbe): (o: Outcome)
    ensures o == OpenFailed <==> !p.opens
    ensures o == NoOrigin <==> p.opens && !p.hasOrigin
    ensures o.FetchErr? <==> p.opens && p.hasOrigin && p.fetch.FetchFailed?
    ensures o.FetchErr? ==> o.message == p.fetch.error
    ensures o == NoFetchHead <==> p.opens && p.hasOrigin && p.fetch == Fetched && !p.hasFetchHead
    ensures o == UpToDate <==> ReachesAnalysis(p) && p.analysisOk && p.upToDate
    ensures o == FastForward <==>
      ReachesAnalysis(p) && p.analysisOk && !p.upToDate && p.fastForward && p.fastForwardOk
    ensures o == Diverged <==> ReachesAnalysis(p) && p.analysisOk && !p.upToDate && !p.fastForward
    ensures o == Aborted <==>
      ReachesAnalysis(p) && (!p.analysisOk || (!p.upToDate && p.fastForward && !p.fastForwardOk))
  {
    if !p.opens then OpenFailed
    else if !p.hasOrigin then NoOrigin
    else if p.fetch.FetchFailed? then FetchErr(p.fetch.error)
    else if !p.hasFetchHead then NoFetchHead
    else if !p.analysisOk then Aborted
    else if p.upToDate then UpToDate
    else if p.fastForward then (if p.fastForwardOk then FastForward else Aborted)
    else Diverged
  }

  const InfoTag := "[INFO] "
  const ErrorTag := "[ERROR] "

  /** An outcome the log reports as information rather than an error. */
  predicate IsSuccess(o: Outcome)
  {
    o == UpToDate || o == FastForward
  }

  /** The severity tag a message for `o` starts with. */
  function Tag(o: Outcome): string
  {
    if IsSuccess(o) then InfoTag else ErrorTag
  }

  /** What follows the tag in the message for `o`. */
  function Detail(o: Outcome, name: string, path: string): string
    requires o != Aborted
  {
    match o
    case OpenFailed => "无法打开仓库: " + path
    case NoOrigin => "无法找到远程仓库'origin': " + name
    case FetchErr(e) => "无法获取远程更新: " + e
    case NoFetchHead => "项目 " + name + " 的 FETCH_HEAD 文件损坏或不存在"
    case UpToDate => "项目 " + name + " 已经是最新版本"
    case FastForward => "项目 " + name + " 更新成功"
    case Diverged => "项目 " + name + " 存在冲突,需要手动解决"
  }

  lemma CleanJoin(a: string, b: string)
    requires Clean(a) && Clean(b)
    ensures Clean(a + b)
  {
  }

  /** The four messages of the form "项目 <name> ..." are clean lines. */
  lemma ProjectDetailClean(o: Outcome, name: string)
    requires o.NoFetchHead? || o.UpToDate? || o.FastForward? || o.Diverged?
    requires Clean(name)
    ensures Clean(Detail(o, name, ""))
  {
    var suffix := Detail(o, name, "")[|"项目 " + name|..];
    assert Detail(o, name, "") == ("项目 " + name) + suffix;
    CleanChars("项目 ");
    CleanJoin("项目 ", name);
    if o.NoFetchHead? {
      CleanChars(" 的 FETCH_HEAD 文件损坏或不存在");
    } else if o.UpToDate? {
      CleanChars(" 已经是最新版本");
    } else if o.FastForward? {
      CleanChars(" 更新成功");
    } else {
      CleanChars(" 存在冲突,需要手动解决");
    }
    CleanJoin("项目 " + name, suffix);
  }

  lemma DetailClean(o: Outcome, name: string, path: string)
    requires o != Aborted
    requires Clean(name) && Clean(path) && (o.FetchErr? ==> Clean(o.message))
    ensures Clean(Detail(o, name, path))
  {
    match o
    case OpenFailed =>
      CleanChars("无法打开仓库: ");
      CleanJoin("无法打开仓库: ", path);
    case NoOrigin =>
      CleanChars("无法找到远程仓库'origin': ");
      CleanJoin("无法找到远程仓库'origin': ", name);
    case FetchErr(e) =>
      CleanChars("无法获取远程更新: ");
      CleanJoin("无法获取远程更新: ", e);
    case NoFetchHead => ProjectDetailClean(o, name);
    case UpToDate => ProjectDetailClean(o, name);
    case FastForward => ProjectDetailClean(o, name);
    case Diverged => ProjectDetailClean(o, name);
  }

  /** The log message pushed for a project named `name` at `path`: tagged
      `[INFO]` exactly for the two successful outcomes, `[ERROR]` otherwise. */
  function Message(o: Outcome, name: string, path: string): (m: string)
    requires o != Aborted
    ensures IsSuccess(o) ==> |InfoTag| <= |m| && m[..|InfoTag|] == InfoTag
    ensures !IsSuccess(o) ==> |ErrorTag| <= |m| && m[..|ErrorTag|] == ErrorTag
  {
    var t := Tag(o);
    var d := Detail(o, name, path);
    assert (t + d)[..|t|] == t;
    t + d
  }

  /** A message is a single clean log line whenever the name, the path and a
      fetch error text are. */
  lemma MessageIsOneLine(o: Outcome, name: string, path: string)
    requires o != Aborted
    requires Clean(name) && Clean(path) && (o.FetchErr? ==> Clean(o.message))
    ensures Clean(Message(o, name, path))
  {
    DetailClean(o, name, path);
    CleanJoin(Tag(o), Detail(o, name, path));
  }
}
