/**
 * The newer library path, `src/lib.rs`: configuration check, retention
 * pruning of the Gitee releases, correlation of GitHub and Gitee releases by
 * tag, the create/update/no-op decision, the asset diff, and the download and
 * upload of the missing assets through a local staging directory.
 */
module Lib {
  import opened Model
  import opened Text
  import opened Effects
  import opened ReleaseOrder

  // ---------------------------------------------------------------- check_cli

  /** Why `check_cli` rejects a configuration, in the order it checks. */
  datatype ConfigError =
    | LatestCountZero                  // github_latest_release_count < 1
    | RetainCountZero                  // gitee_retain_release_count < 1
    | RetainBelowLatest(retain: nat, latest: nat)

  /**
   * `check_cli`: at least one release is fetched, at least one is retained, and
   * no fewer are retained than fetched; the first rule broken is reported.
   */
  function CheckCli(cli: Cli): (r: Result<(), ConfigError>)
    ensures r.Ok? <==>
      && cli.githubLatestReleaseCount >= 1
      && cli.giteeRetainReleaseCount >= 1
      && cli.giteeRetainReleaseCount >= cli.githubLatestReleaseCount
    ensures r == Err(LatestCountZero) <==> cli.githubLatestReleaseCount == 0
    ensures r == Err(RetainCountZero) <==>
      cli.githubLatestReleaseCount >= 1 && cli.giteeRetainReleaseCount == 0
    ensures r.Err? && r.error.RetainBelowLatest? ==>
      r.error == RetainBelowLatest(cli.giteeRetainReleaseCount, cli.githubLatestReleaseCount)
  {
    if cli.githubLatestReleaseCount < 1 then Err(LatestCountZero)
    else if cli.giteeRetainReleaseCount < 1 then Err(RetainCountZero)
    else if cli.giteeRetainReleaseCount < cli.githubLatestReleaseCount then
      Err(RetainBelowLatest(cli.giteeRetainReleaseCount, cli.githubLatestReleaseCount))
    else Ok(())
  }

  // ---------------------------------------------------------- URL rewriting

  const GITHUB_SITE: Bytes := "https://github.com/"
  const GITEE_SITE: Bytes := "https://gitee.com/"

  /**
   * `https://github.com/<github_owner>/<github_repo>`; the site prefix in the
   * contract is the one fact the URL lemmas rely on.
   */
  function GithubRepoUrl(cli: Cli): (u: Bytes)
    ensures |u| > |GITHUB_SITE| && u[..|GITHUB_SITE|] == GITHUB_SITE
  {
    GITHUB_SITE + cli.githubOwner + "/" + cli.githubRepo
  }

  /**
   * `https://gitee.com/<gitee_owner>/<gitee_repo>`; the site prefix in the
   * contract is the one fact the URL lemmas rely on.
   */
  function GiteeRepoUrl(cli: Cli): (u: Bytes)
    ensures |u| > |GITEE_SITE| && u[..|GITEE_SITE|] == GITEE_SITE
  {
    GITEE_SITE + cli.giteeOwner + "/" + cli.giteeRepo
  }

  /** The two repository URLs differ within their first twelve bytes. */
  lemma RepoUrlsDisagree(cli: Cli)
    ensures !Agree(GiteeRepoUrl(cli), GithubRepoUrl(cli))
  {
    var g, e := GithubRepoUrl(cli), GiteeRepoUrl(cli);
    var n := if |e| < |g| then |e| else |g|;
    assert g[11] == GITHUB_SITE[11] == 'h';
    assert e[11] == GITEE_SITE[11] == 'e';
    assert g[..n][11] != e[..n][11];
  }

  /** `replace_download_url`: every GitHub repository URL becomes the Gitee one. */
  function ReplaceDownloadUrl(cli: Cli, content: Bytes): Bytes
  {
    ReplaceAll(content, GithubRepoUrl(cli), GiteeRepoUrl(cli))
  }

  /**
   * `replace_release_body_url`: the rewrite, when `release_body_url_replace`
   * is set. What the rewrite does to a body is stated by the
   * `ReplaceDownloadUrl*` lemmas below.
   */
  function ReplaceReleaseBodyUrl(cli: Cli, content: Bytes): (r: Bytes)
    ensures !cli.releaseBodyUrlReplace ==> r == content
    ensures cli.releaseBodyUrlReplace ==> r == ReplaceDownloadUrl(cli, content)
  {
    if cli.releaseBodyUrlReplace then ReplaceDownloadUrl(cli, content) else content
  }

  /** Text that does not mention the GitHub repository is left as it is. */
  lemma ReplaceDownloadUrlWithoutSource(cli: Cli, content: Bytes)
    requires !Contains(content, GithubRepoUrl(cli))
    ensures ReplaceDownloadUrl(cli, content) == content
  {
    ReplaceAllAbsent(content, GithubRepoUrl(cli), GiteeRepoUrl(cli));
  }

  /** Text that mentions the GitHub repository is always changed. */
  lemma ReplaceDownloadUrlWithSource(cli: Cli, content: Bytes)
    requires Contains(content, GithubRepoUrl(cli))
    ensures ReplaceDownloadUrl(cli, content) != content
  {
    RepoUrlsDisagree(cli);
    ReplaceAllChanges(content, GithubRepoUrl(cli), GiteeRepoUrl(cli));
  }

  /**
   * When no occurrence of the GitHub URL can straddle an inserted Gitee URL,
   * the rewrite leaves no GitHub URL behind, so rewriting twice is rewriting
   * once.
   */
  lemma ReplaceDownloadUrlIdempotent(cli: Cli, content: Bytes)
    requires OverlapFree(GithubRepoUrl(cli), GiteeRepoUrl(cli))
    ensures !Contains(ReplaceDownloadUrl(cli, content), GithubRepoUrl(cli))
    ensures ReplaceDownloadUrl(cli, ReplaceDownloadUrl(cli, content)) == ReplaceDownloadUrl(cli, content)
  {
    ReplaceAllLeavesNoMatch(content, GithubRepoUrl(cli), GiteeRepoUrl(cli));
    ReplaceAllIdempotent(content, GithubRepoUrl(cli), GiteeRepoUrl(cli));
  }

  /**
   * Without that condition rewriting twice can differ from rewriting once:
   * when the Gitee repository name ends in `h`, the Gitee URL inserted in front
   * of `ttps://github.com/...` completes a new GitHub URL.
   */
  lemma ReplaceDownloadUrlNotIdempotent(cli: Cli)
    requires |cli.giteeRepo| > 0 && cli.giteeRepo[|cli.giteeRepo| - 1] == 'h'
    ensures var content := GithubRepoUrl(cli) + GithubRepoUrl(cli)[1..];
      ReplaceDownloadUrl(cli, ReplaceDownloadUrl(cli, content)) != ReplaceDownloadUrl(cli, content)
  {
    var pat, rep := GithubRepoUrl(cli), GiteeRepoUrl(cli);
    assert pat[0] == GITHUB_SITE[0] == 'h';
    assert rep[|rep| - 1] == cli.giteeRepo[|cli.giteeRepo| - 1];
    RepoUrlsDisagree(cli);
    ReplaceAllNotIdempotent(pat, rep);
  }

  // ------------------------------------------------------------ correlation

  /** The position of the first release tagged `tag`, or `|releases|` when there is none. */
  function FirstWithTag(releases: seq<Release>, tag: Bytes): (k: nat)
    ensures k <= |releases|
    ensures k < |releases| ==> releases[k].tagName == tag
    ensures forall i :: 0 <= i < k ==> releases[i].tagName != tag
  {
    if releases == [] then 0
    else if releases[0].tagName == tag then 0
    else 1 + FirstWithTag(releases[1..], tag)
  }

  /**
   * `iter().find(|gr| gr.tag_name == tag)`: the first release tagged `tag`;
   * only tags are compared, never ids.
   */
  function FindByTag(releases: seq<Release>, tag: Bytes): (r: Option<Release>)
    ensures r.None? <==> forall i :: 0 <= i < |releases| ==> releases[i].tagName != tag
    ensures r.Some? ==> r == Some(releases[FirstWithTag(releases, tag)])
  {
    var k := FirstWithTag(releases, tag);
    if k < |releases| then Some(releases[k]) else None
  }

  // ------------------------------------------------- create, update or keep

  /** What `gitee_release_create_or_update` does for one GitHub release. */
  datatype Action =
    | CreateFrom(payload: ReleaseJson)  // POST of the GitHub release as it is
    | UpdateTo(updated: Release)        // PATCH of the Gitee release to `updated`
    | Keep(mirror: Release)             // no request; the Gitee copy is used

  /** The four fields whose difference triggers an update. */
  predicate SameContent(origin: Release, newBody: Bytes, mirror: Release)
  {
    && origin.name == mirror.name
    && newBody == mirror.body
    && origin.prerelease == mirror.prerelease
    && origin.targetCommitish == mirror.targetCommitish
  }

  /** The Gitee release brought up to date: its own id, tag and assets, the rest from GitHub. */
  function Refreshed(origin: Release, newBody: Bytes, mirror: Release): Release
  {
    Release(mirror.id, mirror.tagName, origin.name, newBody, origin.prerelease,
            origin.targetCommitish, mirror.assets)
  }

  function Decide(cli: Cli, origin: Release, counterpart: Option<Release>): Action
  {
    match counterpart
    case None => CreateFrom(ToJson(origin))
    case Some(mirror) =>
      var newBody := ReplaceReleaseBodyUrl(cli, origin.body);
      if SameContent(origin, newBody, mirror) then Keep(mirror)
      else UpdateTo(Refreshed(origin, newBody, mirror))
  }

  /**
   * Without a counterpart the GitHub release is created with every written
   * field as GitHub has it, the body not rewritten and the assets left out.
   */
  lemma DecideCreatesUnchanged(cli: Cli, origin: Release)
    ensures Decide(cli, origin, None).CreateFrom?
    ensures WithAssets(Decide(cli, origin, None).payload, origin.assets) == origin
  {
  }

  /**
   * With a counterpart nothing is written exactly when name, rewritten body,
   * prerelease flag and target commitish already agree; then the Gitee copy is
   * used as it is.
   */
  lemma DecideKeepsExactlyWhenSame(cli: Cli, origin: Release, mirror: Release)
    ensures !Decide(cli, origin, Some(mirror)).CreateFrom?
    ensures Decide(cli, origin, Some(mirror)).Keep? <==>
      && origin.name == mirror.name
      && ReplaceReleaseBodyUrl(cli, origin.body) == mirror.body
      && origin.prerelease == mirror.prerelease
      && origin.targetCommitish == mirror.targetCommitish
    ensures Decide(cli, origin, Some(mirror)).Keep? ==> Decide(cli, origin, Some(mirror)).mirror == mirror
  {
  }

  /**
   * An update keeps the Gitee release's id, tag and assets and takes name,
   * prerelease flag and target commitish from GitHub and the rewritten body;
   * the release then no longer needs an update.
   */
  lemma DecideUpdate(cli: Cli, origin: Release, mirror: Release)
    requires Decide(cli, origin, Some(mirror)).UpdateTo?
    ensures var u := Decide(cli, origin, Some(mirror)).updated;
      && u.id == mirror.id && u.tagName == mirror.tagName && u.assets == mirror.assets
      && u.name == origin.name && u.prerelease == origin.prerelease
      && u.targetCommitish == origin.targetCommitish
      && u.body == ReplaceReleaseBodyUrl(cli, origin.body)
      && u != mirror
      && Decide(cli, origin, Some(u)) == Keep(u)
  {
  }

  /**
   * A release created from GitHub and stored as sent is updated on the next
   * run exactly when the body rewrite changes its body: with
   * `release_body_url_replace` set and the GitHub URL in the body.
   */
  lemma SecondRunAfterCreate(cli: Cli, origin: Release, id: nat, assets: seq<Asset>)
    ensures var created := WithAssets(ToJson(origin), assets).(id := id);
      Decide(cli, origin, Some(created)).UpdateTo? <==>
        cli.releaseBodyUrlReplace && Contains(origin.body, GithubRepoUrl(cli))
  {
    if cli.releaseBodyUrlReplace {
      if Contains(origin.body, GithubRepoUrl(cli)) {
        ReplaceDownloadUrlWithSource(cli, origin.body);
      } else {
        ReplaceDownloadUrlWithoutSource(cli, origin.body);
      }
    }
  }

  // ------------------------------------------------------------- asset diff

  predicate HasAssetNamed(assets: seq<Asset>, name: Bytes)
  {
    exists i :: 0 <= i < |assets| && assets[i].name == name
  }

  /** `release_asserts_diff`: the GitHub assets, in order, whose name no Gitee asset has. */
  function MissingAssets(origin: seq<Asset>, mirror: seq<Asset>): seq<Asset>
  {
    if origin == [] then []
    else if HasAssetNamed(mirror, origin[0].name) then MissingAssets(origin[1..], mirror)
    else [origin[0]] + MissingAssets(origin[1..], mirror)
  }

  /** `a` is `b` with some elements dropped, the rest in their order. */
  predicate Subsequence<T(==)>(a: seq<T>, b: seq<T>)
    decreases |b|
  {
    if a == [] then true
    else if b == [] then false
    else if a[0] == b[0] then Subsequence(a[1..], b[1..])
    else Subsequence(a, b[1..])
  }

  /** An asset is missing exactly when GitHub has it and no Gitee asset has its name. */
  lemma {:induction false} MissingAssetsMembers(origin: seq<Asset>, mirror: seq<Asset>, a: Asset)
    ensures a in MissingAssets(origin, mirror) <==> a in origin && !HasAssetNamed(mirror, a.name)
  {
    if origin != [] {
      MissingAssetsMembers(origin[1..], mirror, a);
      assert origin == [origin[0]] + origin[1..];
    }
  }

  /** The missing assets keep GitHub's order. */
  lemma {:induction false} MissingAssetsInOrder(origin: seq<Asset>, mirror: seq<Asset>)
    ensures Subsequence(MissingAssets(origin, mirror), origin)
  {
    if origin != [] {
      MissingAssetsInOrder(origin[1..], mirror);
      if HasAssetNamed(mirror, origin[0].name) {
        SubsequenceOfTail(MissingAssets(origin[1..], mirror), origin);
      }
    }
  }

  lemma {:induction false} SubsequenceOfTail<T>(a: seq<T>, b: seq<T>)
    requires b != [] && Subsequence(a, b[1..])
    ensures Subsequence(a, b)
    decreases |b|, |a|
  {
    if a != [] && a[0] == b[0] {
      SubsequenceDropHead(a, b[1..]);
    }
  }

  lemma {:induction false} SubsequenceDropHead<T>(a: seq<T>, b: seq<T>)
    requires a != [] && Subsequence(a, b)
    ensures Subsequence(a[1..], b)
    decreases |b|, |a|
  {
    if a[0] == b[0] {
      if a[1..] != [] {
        SubsequenceOfTail(a[1..], b);
      }
    } else {
      SubsequenceDropHead(a, b[1..]);
      if a[1..] != [] {
        SubsequenceOfTail(a[1..], b);
      }
    }
  }

  /** Nothing is missing exactly when every GitHub asset's name is on Gitee. */
  lemma {:induction false} MissingAssetsEmpty(origin: seq<Asset>, mirror: seq<Asset>)
    ensures MissingAssets(origin, mirror) == [] <==>
      forall i :: 0 <= i < |origin| ==> HasAssetNamed(mirror, origin[i].name)
  {
    if origin != [] {
      MissingAssetsEmpty(origin[1..], mirror);
      assert forall i :: 1 <= i < |origin| ==> origin[i] == origin[1..][i - 1];
    }
  }

  /** Only names are compared: sizes and URLs of the Gitee assets play no part. */
  lemma {:induction false} MissingAssetsByNameOnly(origin: seq<Asset>, mirror: seq<Asset>, other: seq<Asset>)
    requires |mirror| == |other|
    requires forall i :: 0 <= i < |mirror| ==> mirror[i].name == other[i].name
    ensures MissingAssets(origin, mirror) == MissingAssets(origin, other)
  {
    if origin != [] {
      MissingAssetsByNameOnly(origin[1..], mirror, other);
      assert HasAssetNamed(mirror, origin[0].name) <==> HasAssetNamed(other, origin[0].name);
    }
  }

  /** The diff loop: each GitHub asset is pushed unless a Gitee asset has its name. */
  method ReleaseAssetsDiff(origin: Release, mirror: Release) returns (diff: seq<Asset>)
    ensures diff == MissingAssets(origin.assets, mirror.assets)
  {
    diff := [];
    var i := 0;
    while i < |origin.assets|
      invariant 0 <= i <= |origin.assets|
      invariant diff + MissingAssets(origin.assets[i..], mirror.assets) == MissingAssets(origin.assets, mirror.assets)
    {
      var asset := origin.assets[i];
      var found := false;
      var j := 0;
      while j < |mirror.assets| && !found
        invariant 0 <= j <= |mirror.assets|
        invariant found <==> exists k :: 0 <= k < j && mirror.assets[k].name == asset.name
      {
        found := mirror.assets[j].name == asset.name;
        j := j + 1;
      }
      assert found <==> HasAssetNamed(mirror.assets, asset.name);
      ghost var rest := origin.assets[i..];
      assert rest[0] == asset && rest[1..] == origin.assets[i + 1..];
      assert MissingAssets(rest, mirror.assets) ==
        (if found then [] else [asset]) + MissingAssets(origin.assets[i + 1..], mirror.assets);
      if !found {
        assert (diff + [asset]) + MissingAssets(origin.assets[i + 1..], mirror.assets)
            == diff + ([asset] + MissingAssets(origin.assets[i + 1..], mirror.assets));
        diff := diff + [asset];
      } else {
        assert [] + MissingAssets(origin.assets[i + 1..], mirror.assets) == MissingAssets(origin.assets[i + 1..], mirror.assets);
      }
      i := i + 1;
    }
  }

  // ----------------------------------------------------------------- pruning

  /** The DELETE requests for `releases`, in order. */
  function DeleteRequests(releases: seq<Release>): seq<Effect>
  {
    seq(|releases|, i requires 0 <= i < |releases| => Delete(releases[i].id))
  }

  /** The delete loop: one DELETE per release, stopping at the first that fails. */
  function DeleteEach(net: Network, releases: seq<Release>, st: State): (State, Outcome)
    decreases |releases|
  {
    if releases == [] then (st, Ok(()))
    else
      var e := Delete(releases[0].id);
      if net.delete(releases[0].id).Success? then DeleteEach(net, releases[1..], Emit(st, e))
      else (Emit(st, e), Err(e))
  }

  /**
   * `clean_oldest_gitee_releases` on a newest-first list: everything after the
   * first `retain` releases is deleted.
   */
  function Prune(net: Network, retain: nat, releases: seq<Release>, st: State): (State, Outcome)
  {
    if retain >= |releases| then (st, Ok(())) else DeleteEach(net, releases[retain..], st)
  }

  predicate AllDeleted(net: Network, releases: seq<Release>)
  {
    forall i :: 0 <= i < |releases| ==> net.delete(releases[i].id).Success?
  }

  /**
   * How many DELETEs the loop issues: all of them when each succeeds, and
   * otherwise up to and including the first that fails.
   */
  function Attempted(net: Network, releases: seq<Release>): (n: nat)
    ensures n <= |releases|
    ensures AllDeleted(net, releases) ==> n == |releases|
    ensures !AllDeleted(net, releases) ==>
      && 0 < n
      && !net.delete(releases[n - 1].id).Success?
      && forall i :: 0 <= i < n - 1 ==> net.delete(releases[i].id).Success?
  {
    if releases == [] then 0
    else if net.delete(releases[0].id).Success? then
      assert forall i :: 1 <= i < |releases| ==> releases[i] == releases[1..][i - 1];
      1 + Attempted(net, releases[1..])
    else 1
  }

  lemma DeleteRequestsCons(releases: seq<Release>, n: nat)
    requires 0 < n <= |releases|
    ensures DeleteRequests(releases[..n]) == [Delete(releases[0].id)] + DeleteRequests(releases[1..][..n - 1])
  {
  }

  /** The delete loop issues the DELETEs of its first `Attempted` releases, in order, and changes no file. */
  lemma {:induction false} DeleteEachTrace(net: Network, releases: seq<Release>, st: State)
    ensures DeleteEach(net, releases, st).0 ==
      State(st.trace + DeleteRequests(releases[..Attempted(net, releases)]), st.fs)
    decreases |releases|
  {
    if releases == [] {
      assert st.trace + DeleteRequests(releases[..0]) == st.trace;
    } else if net.delete(releases[0].id).Success? {
      var e := Delete(releases[0].id);
      var tail := releases[1..];
      DeleteEachTrace(net, tail, Emit(st, e));
      DeleteRequestsCons(releases, Attempted(net, tail) + 1);
    } else {
      DeleteRequestsCons(releases, 1);
    }
  }

  /** The delete loop fails, with the last request it issued, exactly when some DELETE fails. */
  lemma {:induction false} DeleteEachOutcome(net: Network, releases: seq<Release>, st: State)
    ensures DeleteEach(net, releases, st).1 ==
      if AllDeleted(net, releases) then Ok(()) else Err(Delete(releases[Attempted(net, releases) - 1].id))
    decreases |releases|
  {
    if releases != [] && net.delete(releases[0].id).Success? {
      var tail := releases[1..];
      DeleteEachOutcome(net, tail, Emit(st, Delete(releases[0].id)));
      assert AllDeleted(net, releases) <==> AllDeleted(net, tail) by {
        assert forall i :: 1 <= i < |releases| ==> releases[i] == tail[i - 1];
      }
      if !AllDeleted(net, tail) {
        assert releases[Attempted(net, tail)] == tail[Attempted(net, tail) - 1];
      }
    } else if releases != [] {
      assert !AllDeleted(net, releases);
    }
  }

  lemma DeleteEachSteps(net: Network, releases: seq<Release>, st: State)
    ensures DeleteEach(net, releases, st) ==
      (State(st.trace + DeleteRequests(releases[..Attempted(net, releases)]), st.fs),
       if AllDeleted(net, releases) then Ok(()) else Err(Delete(releases[Attempted(net, releases) - 1].id)))
  {
    DeleteEachTrace(net, releases, st);
    DeleteEachOutcome(net, releases, st);
  }

  /** With at least as many to retain as there are releases, nothing is requested. */
  lemma PruneNothing(net: Network, retain: nat, releases: seq<Release>, st: State)
    requires retain >= |releases|
    ensures Prune(net, retain, releases, st) == (st, Ok(()))
  {
  }

  /**
   * When every DELETE succeeds, exactly `|releases| - retain` are issued, for
   * the releases after the first `retain`, in list order.
   */
  lemma PruneAllSucceed(net: Network, retain: nat, releases: seq<Release>, st: State)
    requires retain < |releases|
    requires forall i :: retain <= i < |releases| ==> net.delete(releases[i].id).Success?
    ensures Prune(net, retain, releases, st) ==
      (State(st.trace + DeleteRequests(releases[retain..]), st.fs), Ok(()))
    ensures |DeleteRequests(releases[retain..])| == |releases| - retain
  {
    var rest := releases[retain..];
    DeleteEachSteps(net, rest, st);
    assert AllDeleted(net, rest) by {
      assert forall i :: 0 <= i < |rest| ==> rest[i] == releases[retain + i];
    }
    assert rest[..|rest|] == rest;
  }

  /** The first DELETE that fails ends the pruning with that request as the error. */
  lemma PruneStopsAtFirstFailure(net: Network, retain: nat, releases: seq<Release>, st: State, k: nat)
    requires retain <= k < |releases|
    requires forall i :: retain <= i < k ==> net.delete(releases[i].id).Success?
    requires !net.delete(releases[k].id).Success?
    ensures Prune(net, retain, releases, st) ==
      (State(st.trace + DeleteRequests(releases[retain..k + 1]), st.fs), Err(Delete(releases[k].id)))
  {
    var rest := releases[retain..];
    DeleteEachSteps(net, rest, st);
    var n := Attempted(net, rest);
    assert rest[k - retain] == releases[k];
    assert n - 1 >= k - retain by {
      assert rest[n - 1] == releases[retain + n - 1];
    }
    assert rest[..n] == releases[retain..k + 1];
  }

  /** With distinct ids, none of the first `retain` releases is ever deleted. */
  lemma PruneSparesNewest(net: Network, retain: nat, releases: seq<Release>, st: State, i: nat)
    requires UniqueIds(releases)
    requires i < retain && i < |releases|
    ensures Prune(net, retain, releases, st).0.fs == st.fs
    ensures Extends(Prune(net, retain, releases, st).0, st)
    ensures Delete(releases[i].id) !in Prune(net, retain, releases, st).0.trace[|st.trace|..]
  {
    if retain < |releases| {
      var rest := releases[retain..];
      DeleteEachSteps(net, rest, st);
      var n := Attempted(net, rest);
      var issued := Prune(net, retain, releases, st).0.trace[|st.trace|..];
      assert issued == DeleteRequests(rest[..n]);
      forall j | 0 <= j < |issued|
        ensures issued[j] != Delete(releases[i].id)
      {
        assert issued[j] == Delete(releases[retain + j].id);
      }
    }
  }

  /** On a newest-first list with distinct ids the DELETEs go by strictly decreasing id. */
  lemma PruneNewestFirst(releases: seq<Release>, retain: nat, i: nat, j: nat)
    requires NewestFirst(releases) && UniqueIds(releases)
    requires retain <= |releases|
    requires i < j < |releases| - retain
    ensures DeleteRequests(releases[retain..])[i].id > DeleteRequests(releases[retain..])[j].id
  {
    NewestFirstStrict(releases, retain + i, retain + j);
  }

  // ------------------------------------------------------ requests per step

  /** `gitee_release_create_or_update`: carries out `Decide`, giving the Gitee release to use. */
  function CreateOrUpdate(net: Network, cli: Cli, origin: Release, counterpart: Option<Release>, st: State)
    : (State, Result<Release, Effect>)
  {
    match Decide(cli, origin, counterpart)
    case CreateFrom(payload) =>
      var e := Create(payload);
      (Emit(st, e), if net.create(payload).Success? then Ok(net.create(payload).value) else Err(e))
    case UpdateTo(updated) =>
      var e := Update(updated.id, ToJson(updated));
      (Emit(st, e), if net.update(updated.id, ToJson(updated)).Success? then Ok(updated) else Err(e))
    case Keep(mirror) => (st, Ok(mirror))
  }

  const LATEST_JSON: Bytes := "latest.json"

  /** `tmp_dir_repo_tag`: `<temp>/<github_repo>/<tag>`. */
  function StagingDir(tempDir: Path, cli: Cli, origin: Release): Path
  {
    tempDir + [cli.githubRepo, origin.tagName]
  }

  /** Releases with different tags, or assets with different names, are staged apart. */
  lemma StagedPathsDistinct(tempDir: Path, cli: Cli, r1: Release, r2: Release, n1: Bytes, n2: Bytes)
    requires r1.tagName != r2.tagName || n1 != n2
    ensures StagingDir(tempDir, cli, r1) + [n1] != StagingDir(tempDir, cli, r2) + [n2]
  {
    var p1, p2 := StagingDir(tempDir, cli, r1) + [n1], StagingDir(tempDir, cli, r2) + [n2];
    assert p1[|tempDir| + 1] == r1.tagName && p2[|tempDir| + 1] == r2.tagName;
    assert p1[|tempDir| + 2] == n1 && p2[|tempDir| + 2] == n2;
  }

  /** A staged file that exists and has the size GitHub reports is not downloaded again. */
  predicate AlreadyStaged(fs: map<Path, Bytes>, path: Path, asset: Asset)
  {
    path in fs && asset.size.Some? && |fs[path]| == asset.size.value
  }

  /** The file content kept for a downloaded asset: `latest.json` rewritten when the flag is set. */
  function StagedContent(cli: Cli, asset: Asset, body: Bytes): Bytes
  {
    if cli.latestJsonUrlReplace && asset.name == LATEST_JSON then ReplaceDownloadUrl(cli, body) else body
  }

  /** One pass of the download loop. */
  function DownloadOne(net: Network, cli: Cli, dir: Path, asset: Asset, st: State): (State, Outcome)
  {
    var path := dir + [asset.name];
    if AlreadyStaged(st.fs, path, asset) then (st, Ok(()))
    else
      var e := Download(asset.browserDownloadUrl, path);
      match net.download(asset.browserDownloadUrl)
      case Success(body) => (State(st.trace + [e], st.fs[path := StagedContent(cli, asset, body)]), Ok(()))
      case _ => (Emit(st, e), Err(e))
  }

  /** `download_release_asserts` over the missing assets, stopping at the first failed download. */
  function DownloadAll(net: Network, cli: Cli, dir: Path, assets: seq<Asset>, st: State): (State, Outcome)
    decreases |assets|
  {
    if assets == [] then (st, Ok(()))
    else
      var (st1, r) := DownloadOne(net, cli, dir, assets[0], st);
      if r.Err? then (st1, r) else DownloadAll(net, cli, dir, assets[1..], st1)
  }

  /** One pass of the upload loop: a file that is not staged is skipped. */
  function UploadOne(net: Network, dir: Path, releaseId: nat, asset: Asset, st: State): (State, Outcome)
  {
    var path := dir + [asset.name];
    if path !in st.fs then (st, Ok(()))
    else
      var e := Upload(releaseId, path, st.fs[path]);
      (Emit(st, e), if net.upload(releaseId, path, st.fs[path]).Success? then Ok(()) else Err(e))
  }

  /** `upload_release_asserts` over the missing assets, stopping at the first failed upload. */
  function UploadAll(net: Network, dir: Path, releaseId: nat, assets: seq<Asset>, st: State): (State, Outcome)
    decreases |assets|
  {
    if assets == [] then (st, Ok(()))
    else
      var (st1, r) := UploadOne(net, dir, releaseId, assets[0], st);
      if r.Err? then (st1, r) else UploadAll(net, dir, releaseId, assets[1..], st1)
  }

  /** `sync_release`: create or update the Gitee release, then transfer the missing assets. */
  function SyncOne(net: Network, cli: Cli, tempDir: Path, origin: Release, counterpart: Option<Release>, st: State)
    : (State, Outcome)
  {
    var (st1, r) := CreateOrUpdate(net, cli, origin, counterpart, st);
    if r.Err? then (st1, Err(r.error))
    else
      var diff := MissingAssets(origin.assets, r.value.assets);
      if diff == [] then (st1, Ok(()))
      else
        var dir := StagingDir(tempDir, cli, origin);
        var (st2, d) := DownloadAll(net, cli, dir, diff, st1);
        if d.Err? then (st2, d) else UploadAll(net, dir, r.value.id, diff, st2)
  }

  /**
   * The sync loop over the GitHub releases in processing order, each paired
   * with the first Gitee release of the pre-pruning list that has its tag.
   */
  function SyncAll(net: Network, cli: Cli, tempDir: Path, pending: seq<Release>, mirror: seq<Release>, st: State)
    : (State, Outcome)
    decreases |pending|
  {
    if pending == [] then (st, Ok(()))
    else
      var (st1, r) := SyncOne(net, cli, tempDir, pending[0], FindByTag(mirror, pending[0].tagName), st);
      if r.Err? then (st1, r) else SyncAll(net, cli, tempDir, pending[1..], mirror, st1)
  }

  /** How many Gitee releases one list request asks for (`per_page=100`). */
  const MIRROR_PAGE_SIZE: nat := 100

  /** `sorted` is a newest-first permutation of the `decoded` list. */
  predicate NormalisedFrom(sorted: seq<Release>, decoded: seq<Release>)
  {
    NewestFirst(sorted) && multiset(sorted) == multiset(decoded)
  }

  /**
   * `sync_github_releases_to_gitee`, given how the two fetched lists were put
   * in newest-first order (`origin` and `mirror`): fetch both lists, prune the
   * Gitee releases, then sync the GitHub releases oldest first.
   */
  function Run(net: Network, cli: Cli, tempDir: Path, origin: seq<Release>, mirror: seq<Release>, st: State)
    : (State, Outcome)
  {
    var listOrigin := ListOrigin(cli.githubLatestReleaseCount);
    var st1 := Emit(st, listOrigin);
    if !net.originList(cli.githubLatestReleaseCount).Success? then (st1, Err(listOrigin))
    else
      var listMirror := ListMirror(MIRROR_PAGE_SIZE);
      var st2 := Emit(st1, listMirror);
      if !net.mirrorList(MIRROR_PAGE_SIZE).Success? then (st2, Err(listMirror))
      else
        var (st3, p) := Prune(net, cli.giteeRetainReleaseCount, mirror, st2);
        if p.Err? then (st3, p) else SyncAll(net, cli, tempDir, Reversed(origin), mirror, st3)
  }


  // ------------------------------------------------ properties of the steps

  /**
   * Creating or updating touches no file and issues at most one request: a
   * POST of the GitHub release exactly when there is no counterpart, nothing
   * exactly when the counterpart is up to date. A release it yields from a
   * counterpart keeps that release's id, tag and assets; an error is the
   * request that failed.
   */
  lemma CreateOrUpdateEffects(net: Network, cli: Cli, origin: Release, counterpart: Option<Release>, st: State)
    ensures var (st1, r) := CreateOrUpdate(net, cli, origin, counterpart, st);
      && st1.fs == st.fs
      && (counterpart.None? ==> st1.trace == st.trace + [Create(ToJson(origin))])
      && (counterpart.Some? ==>
            (st1 == st <==> SameContent(origin, ReplaceReleaseBodyUrl(cli, origin.body), counterpart.value)))
      && (counterpart.Some? && st1 != st ==>
            st1.trace == st.trace + [Update(counterpart.value.id, ToJson(Refreshed(origin,
              ReplaceReleaseBodyUrl(cli, origin.body), counterpart.value)))])
      && (counterpart.Some? && r.Ok? ==>
            r.value.id == counterpart.value.id && r.value.tagName == counterpart.value.tagName
            && r.value.assets == counterpart.value.assets)
      && (r.Err? ==> st1 != st && r.error == st1.trace[|st1.trace| - 1])
  {
  }

  /**
   * Rewriting the downloaded `latest.json` changes a file exactly when the flag
   * is set, the asset is `latest.json` and the file names the GitHub repository.
   */
  lemma StagedContentRewrites(cli: Cli, asset: Asset, body: Bytes)
    ensures StagedContent(cli, asset, body) != body <==>
      cli.latestJsonUrlReplace && asset.name == LATEST_JSON && Contains(body, GithubRepoUrl(cli))
  {
    if cli.latestJsonUrlReplace && asset.name == LATEST_JSON {
      if Contains(body, GithubRepoUrl(cli)) {
        ReplaceDownloadUrlWithSource(cli, body);
      } else {
        ReplaceDownloadUrlWithoutSource(cli, body);
      }
    }
  }

  /**
   * An asset is downloaded unless its file exists with the size GitHub
   * reports, so always when GitHub reports no size; a download that succeeds
   * leaves the file holding the (possibly rewritten) body.
   */
  lemma DownloadOneSkipsExactlyStaged(net: Network, cli: Cli, dir: Path, asset: Asset, st: State)
    ensures var (st1, r) := DownloadOne(net, cli, dir, asset, st);
      var path := dir + [asset.name];
      var e := Download(asset.browserDownloadUrl, path);
      && (st1 == st <==> AlreadyStaged(st.fs, path, asset))
      && (!AlreadyStaged(st.fs, path, asset) ==> st1.trace == st.trace + [e])
      && (asset.size.None? ==> st1.trace == st.trace + [e])
      && (r.Err? <==> !AlreadyStaged(st.fs, path, asset) && !net.download(asset.browserDownloadUrl).Success?)
      && (r.Err? ==> r.error == e && st1.fs == st.fs)
      && (r.Ok? && !AlreadyStaged(st.fs, path, asset) ==>
            st1.fs == st.fs[path := StagedContent(cli, asset, net.download(asset.browserDownloadUrl).value)])
  {
  }

  /** `p` is not a file of the staging directory `dir`. */
  predicate OutsideDir(p: Path, dir: Path)
  {
    |p| != |dir| + 1 || p[..|dir|] != dir
  }

  /**
   * The download loop issues only downloads, creates or replaces only files of
   * the staging directory, and leaves every asset's file in place when it
   * succeeds. When it issues nothing, every asset was already staged and
   * nothing changed.
   */
  lemma {:induction false} DownloadAllFacts(net: Network, cli: Cli, dir: Path, assets: seq<Asset>, st: State)
    ensures var (st1, r) := DownloadAll(net, cli, dir, assets, st);
      && Extends(st1, st)
      && (forall j :: |st.trace| <= j < |st1.trace| ==> st1.trace[j].Download?)
      && (forall p :: p in st.fs && OutsideDir(p, dir) ==> st1.fs[p] == st.fs[p])
      && (forall p :: p in st1.fs && (p !in st.fs || st1.fs[p] != st.fs[p]) ==> !OutsideDir(p, dir))
      && (r.Ok? ==> forall i :: 0 <= i < |assets| ==> dir + [assets[i].name] in st1.fs)
      && (r.Err? ==> |st1.trace| > |st.trace| && r.error == st1.trace[|st1.trace| - 1])
      && (st1.trace == st.trace ==>
            st1 == st && r.Ok? && forall i :: 0 <= i < |assets| ==> AlreadyStaged(st.fs, dir + [assets[i].name], assets[i]))
    decreases |assets|
  {
    if assets != [] {
      var (st1, r) := DownloadOne(net, cli, dir, assets[0], st);
      DownloadOneSkipsExactlyStaged(net, cli, dir, assets[0], st);
      assert Extends(st1, st) by {
        assert st1.trace[..|st.trace|] == st.trace;
      }
      forall p | p in st.fs && OutsideDir(p, dir)
        ensures st1.fs[p] == st.fs[p]
      {
        var path := dir + [assets[0].name];
        assert path[..|dir|] == dir;
      }
      forall p | p in st1.fs && (p !in st.fs || st1.fs[p] != st.fs[p])
        ensures !OutsideDir(p, dir)
      {
        var path := dir + [assets[0].name];
        assert p == path;
        assert path[..|dir|] == dir;
      }
      if r.Ok? {
        DownloadAllFacts(net, cli, dir, assets[1..], st1);
        var fin := DownloadAll(net, cli, dir, assets[1..], st1);
        ExtendsTransitive(fin.0, st1, st);
        forall p | p in fin.0.fs && (p !in st.fs || fin.0.fs[p] != st.fs[p])
          ensures !OutsideDir(p, dir)
        {
          if p in st1.fs && fin.0.fs[p] == st1.fs[p] {
            assert p !in st.fs || st1.fs[p] != st.fs[p];
          }
        }
        forall j | |st.trace| <= j < |fin.0.trace|
          ensures fin.0.trace[j].Download?
        {
          if j < |st1.trace| {
            assert fin.0.trace[j] == fin.0.trace[..|st1.trace|][j];
          }
        }
        forall i | 0 <= i < |assets|
          ensures dir + [assets[i].name] in fin.0.fs || fin.1.Err?
        {
          if i == 0 {
            assert dir + [assets[0].name] in st1.fs;
          } else {
            assert assets[i] == assets[1..][i - 1];
          }
        }
        if fin.0.trace == st.trace {
          assert st1.trace == st.trace;
          forall i | 0 <= i < |assets|
            ensures AlreadyStaged(st.fs, dir + [assets[i].name], assets[i])
          {
            if i > 0 {
              assert assets[i] == assets[1..][i - 1];
            }
          }
        }
      }
    }
  }

  /** An asset whose file is missing is skipped; otherwise its file is sent to the release. */
  lemma UploadOneSkipsExactlyMissing(net: Network, dir: Path, releaseId: nat, asset: Asset, st: State)
    ensures var (st1, r) := UploadOne(net, dir, releaseId, asset, st);
      var path := dir + [asset.name];
      && st1.fs == st.fs
      && (st1 == st <==> path !in st.fs)
      && (path in st.fs ==> st1.trace == st.trace + [Upload(releaseId, path, st.fs[path])])
      && (r.Err? <==> path in st.fs && !net.upload(releaseId, path, st.fs[path]).Success?)
  {
  }

  /** Every request the upload loop issues sends a staged file, as it is, to the given release. */
  predicate UploadOf(e: Effect, releaseId: nat, fs: map<Path, Bytes>)
  {
    e.Upload? && e.releaseId == releaseId && e.path in fs && e.content == fs[e.path]
  }

  lemma {:induction false} UploadAllFacts(net: Network, dir: Path, releaseId: nat, assets: seq<Asset>, st: State)
    ensures var (st1, r) := UploadAll(net, dir, releaseId, assets, st);
      && st1.fs == st.fs
      && Extends(st1, st)
      && (forall j :: |st.trace| <= j < |st1.trace| ==> UploadOf(st1.trace[j], releaseId, st.fs))
      && (assets != [] && dir + [assets[0].name] in st.fs ==> |st1.trace| > |st.trace|)
      && (r.Err? ==> |st1.trace| > |st.trace| && r.error == st1.trace[|st1.trace| - 1])
    decreases |assets|
  {
    if assets != [] {
      var (st1, r) := UploadOne(net, dir, releaseId, assets[0], st);
      UploadOneSkipsExactlyMissing(net, dir, releaseId, assets[0], st);
      assert Extends(st1, st) by {
        assert st1.trace[..|st.trace|] == st.trace;
      }
      if r.Ok? {
        UploadAllFacts(net, dir, releaseId, assets[1..], st1);
        var fin := UploadAll(net, dir, releaseId, assets[1..], st1);
        ExtendsTransitive(fin.0, st1, st);
        forall j | |st.trace| <= j < |fin.0.trace|
          ensures UploadOf(fin.0.trace[j], releaseId, st.fs)
        {
          if j < |st1.trace| {
            assert fin.0.trace[j] == fin.0.trace[..|st1.trace|][j];
          }
        }
      }
    }
  }

  /** The upload requests for assets whose files are all staged. */
  function UploadRequests(dir: Path, releaseId: nat, assets: seq<Asset>, fs: map<Path, Bytes>): seq<Effect>
    requires forall i :: 0 <= i < |assets| ==> dir + [assets[i].name] in fs
  {
    seq(|assets|, i requires 0 <= i < |assets| && dir + [assets[i].name] in fs =>
      Upload(releaseId, dir + [assets[i].name], fs[dir + [assets[i].name]]))
  }

  /** When every file is staged and every upload succeeds, each asset is sent once, in order. */
  lemma {:induction false} UploadAllComplete(net: Network, dir: Path, releaseId: nat, assets: seq<Asset>, st: State)
    requires forall i :: 0 <= i < |assets| ==> dir + [assets[i].name] in st.fs
    requires forall i :: 0 <= i < |assets| ==>
      net.upload(releaseId, dir + [assets[i].name], st.fs[dir + [assets[i].name]]).Success?
    ensures UploadAll(net, dir, releaseId, assets, st) ==
      (State(st.trace + UploadRequests(dir, releaseId, assets, st.fs), st.fs), Ok(()))
    decreases |assets|
  {
    if assets != [] {
      var st1 := UploadOne(net, dir, releaseId, assets[0], st).0;
      assert st1 == Emit(st, UploadRequests(dir, releaseId, assets, st.fs)[0]);
      forall i | 0 <= i < |assets| - 1
        ensures dir + [assets[1..][i].name] in st1.fs
        ensures net.upload(releaseId, dir + [assets[1..][i].name], st1.fs[dir + [assets[1..][i].name]]).Success?
      {
        assert assets[1..][i] == assets[i + 1];
      }
      assert UploadOne(net, dir, releaseId, assets[0], st).1 == Ok(());
      UploadAllComplete(net, dir, releaseId, assets[1..], st1);
      var all, tail := UploadRequests(dir, releaseId, assets, st.fs), UploadRequests(dir, releaseId, assets[1..], st.fs);
      assert all == [all[0]] + tail by {
        forall i | 0 <= i < |tail|
          ensures all[i + 1] == tail[i]
        {
          assert assets[1..][i] == assets[i + 1];
        }
      }
      assert st.trace + all == st1.trace + tail;
    } else {
      assert st.trace + UploadRequests(dir, releaseId, assets, st.fs) == st.trace;
    }
  }


  // ------------------------------------------------------ the sync as a whole

  /**
   * What the sync loop may ask of the registries, against the Gitee list it
   * fetched: a POST only of a release whose tag that list lacks, a PATCH only
   * of the listed release with that tag, and asset downloads and uploads;
   * never a list request or a DELETE.
   */
  predicate SyncEffectFor(mirror: seq<Release>, e: Effect)
  {
    match e
    case Create(p) => FindByTag(mirror, p.tagName).None?
    case Update(id, p) => FindByTag(mirror, p.tagName).Some? && FindByTag(mirror, p.tagName).value.id == id
    case Download(_, _) => true
    case Upload(_, _, _) => true
    case _ => false
  }

  lemma SyncOneEffects(net: Network, cli: Cli, tempDir: Path, origin: Release, mirror: seq<Release>, st: State)
    ensures var fin := SyncOne(net, cli, tempDir, origin, FindByTag(mirror, origin.tagName), st).0;
      && Extends(fin, st)
      && forall j :: |st.trace| <= j < |fin.trace| ==> SyncEffectFor(mirror, fin.trace[j])
  {
    var counterpart := FindByTag(mirror, origin.tagName);
    var (st1, r) := CreateOrUpdate(net, cli, origin, counterpart, st);
    CreateOrUpdateEffects(net, cli, origin, counterpart, st);
    assert Extends(st1, st) by {
      assert st1.trace[..|st.trace|] == st.trace;
    }
    assert forall j :: |st.trace| <= j < |st1.trace| ==> SyncEffectFor(mirror, st1.trace[j]) by {
      if counterpart.Some? {
        assert counterpart.value.tagName == origin.tagName;
      }
    }
    if r.Ok? && MissingAssets(origin.assets, r.value.assets) != [] {
      var diff := MissingAssets(origin.assets, r.value.assets);
      var dir := StagingDir(tempDir, cli, origin);
      var (st2, d) := DownloadAll(net, cli, dir, diff, st1);
      DownloadAllFacts(net, cli, dir, diff, st1);
      ExtendsTransitive(st2, st1, st);
      if d.Ok? {
        var st3 := UploadAll(net, dir, r.value.id, diff, st2).0;
        UploadAllFacts(net, dir, r.value.id, diff, st2);
        ExtendsTransitive(st3, st2, st);
        forall j | |st.trace| <= j < |st3.trace|
          ensures SyncEffectFor(mirror, st3.trace[j])
        {
          if j < |st2.trace| {
            assert st3.trace[j] == st3.trace[..|st2.trace|][j];
            if j < |st1.trace| {
              assert st2.trace[j] == st2.trace[..|st1.trace|][j];
            }
          }
        }
      } else {
        forall j | |st.trace| <= j < |st2.trace|
          ensures SyncEffectFor(mirror, st2.trace[j])
        {
          if j < |st1.trace| {
            assert st2.trace[j] == st2.trace[..|st1.trace|][j];
          }
        }
      }
    }
  }

  /**
   * Syncing a release that has a Gitee counterpart issues no request at all
   * exactly when the counterpart is up to date and has an asset of every name
   * the GitHub release has; it then changes nothing.
   */
  lemma SyncOneQuietExactlyWhenUpToDate(net: Network, cli: Cli, tempDir: Path, origin: Release, mirror: Release, st: State)
    ensures SyncOne(net, cli, tempDir, origin, Some(mirror), st).0.trace == st.trace <==>
      SameContent(origin, ReplaceReleaseBodyUrl(cli, origin.body), mirror)
      && MissingAssets(origin.assets, mirror.assets) == []
    ensures SyncOne(net, cli, tempDir, origin, Some(mirror), st).0.trace == st.trace ==>
      SyncOne(net, cli, tempDir, origin, Some(mirror), st) == (st, Ok(()))
  {
    var (st1, r) := CreateOrUpdate(net, cli, origin, Some(mirror), st);
    CreateOrUpdateEffects(net, cli, origin, Some(mirror), st);
    if r.Ok? && MissingAssets(origin.assets, r.value.assets) != [] {
      var diff := MissingAssets(origin.assets, r.value.assets);
      var dir := StagingDir(tempDir, cli, origin);
      var (st2, d) := DownloadAll(net, cli, dir, diff, st1);
      DownloadAllFacts(net, cli, dir, diff, st1);
      if d.Ok? {
        UploadAllFacts(net, dir, r.value.id, diff, st2);
        if st2.trace == st1.trace {
          assert AlreadyStaged(st1.fs, dir + [diff[0].name], diff[0]);
        }
      }
    }
  }

  /**
   * Whenever the Gitee release that results from the create-or-update step
   * has every GitHub asset name, the sync ends there: nothing is downloaded
   * or uploaded, no file changes, and at most the one POST or PATCH is issued.
   */
  lemma SyncOneEmptyDiffNoTransfer(net: Network, cli: Cli, tempDir: Path, origin: Release,
                                   counterpart: Option<Release>, st: State)
    requires CreateOrUpdate(net, cli, origin, counterpart, st).1.Ok?
    requires MissingAssets(origin.assets, CreateOrUpdate(net, cli, origin, counterpart, st).1.value.assets) == []
    ensures SyncOne(net, cli, tempDir, origin, counterpart, st) == (CreateOrUpdate(net, cli, origin, counterpart, st).0, Ok(()))
    ensures var fin := SyncOne(net, cli, tempDir, origin, counterpart, st).0;
      && fin.fs == st.fs && Extends(fin, st) && |fin.trace| <= |st.trace| + 1
      && forall j :: |st.trace| <= j < |fin.trace| ==> fin.trace[j].Create? || fin.trace[j].Update?
  {
    CreateOrUpdateEffects(net, cli, origin, counterpart, st);
    var st1 := CreateOrUpdate(net, cli, origin, counterpart, st).0;
    assert st1.trace[..|st.trace|] == st.trace;
  }

  /** Against a Gitee release without assets the diff is every GitHub asset, in order. */
  lemma {:induction false} MissingAssetsFromNothing(origin: seq<Asset>)
    ensures MissingAssets(origin, []) == origin
  {
    if origin != [] {
      MissingAssetsFromNothing(origin[1..]);
      assert !HasAssetNamed([], origin[0].name);
      assert [origin[0]] + origin[1..] == origin;
    }
  }

  /** Every request of the sync loop is one `SyncEffectFor` allows, and no file disappears. */
  lemma {:induction false} SyncAllEffects(net: Network, cli: Cli, tempDir: Path, pending: seq<Release>,
                                          mirror: seq<Release>, st: State)
    ensures var fin := SyncAll(net, cli, tempDir, pending, mirror, st).0;
      && Extends(fin, st)
      && forall j :: |st.trace| <= j < |fin.trace| ==> SyncEffectFor(mirror, fin.trace[j])
    decreases |pending|
  {
    if pending != [] {
      var (st1, r) := SyncOne(net, cli, tempDir, pending[0], FindByTag(mirror, pending[0].tagName), st);
      SyncOneEffects(net, cli, tempDir, pending[0], mirror, st);
      if r.Ok? {
        var fin := SyncAll(net, cli, tempDir, pending[1..], mirror, st1).0;
        SyncAllEffects(net, cli, tempDir, pending[1..], mirror, st1);
        ExtendsTransitive(fin, st1, st);
        forall j | |st.trace| <= j < |fin.trace|
          ensures SyncEffectFor(mirror, fin.trace[j])
        {
          if j < |st1.trace| {
            assert fin.trace[j] == fin.trace[..|st1.trace|][j];
          }
        }
      }
    }
  }

  /** Pruning issues only DELETEs and touches no file. */
  lemma PruneOnlyDeletes(net: Network, retain: nat, releases: seq<Release>, st: State)
    ensures var pruned := Prune(net, retain, releases, st).0;
      && pruned.fs == st.fs && Extends(pruned, st)
      && forall j :: |st.trace| <= j < |pruned.trace| ==> pruned.trace[j].Delete?
  {
    if retain < |releases| {
      DeleteEachTrace(net, releases[retain..], st);
      var pruned := Prune(net, retain, releases, st).0;
      assert pruned.trace[..|st.trace|] == st.trace;
    }
  }

  /**
   * A run whose list request fails issues nothing after it, and a run whose
   * pruning fails ends with the pruned state and that DELETE as the error.
   */
  lemma RunStopsAtFailedList(net: Network, cli: Cli, tempDir: Path, origin: seq<Release>, mirror: seq<Release>, st: State)
    ensures var listOrigin, listMirror := ListOrigin(cli.githubLatestReleaseCount), ListMirror(MIRROR_PAGE_SIZE);
      && (!net.originList(cli.githubLatestReleaseCount).Success? ==>
            Run(net, cli, tempDir, origin, mirror, st) == (Emit(st, listOrigin), Err(listOrigin)))
      && (net.originList(cli.githubLatestReleaseCount).Success? && !net.mirrorList(MIRROR_PAGE_SIZE).Success? ==>
            Run(net, cli, tempDir, origin, mirror, st) == (Emit(Emit(st, listOrigin), listMirror), Err(listMirror)))
      && (net.originList(cli.githubLatestReleaseCount).Success? && net.mirrorList(MIRROR_PAGE_SIZE).Success? &&
          Prune(net, cli.giteeRetainReleaseCount, mirror, Emit(Emit(st, listOrigin), listMirror)).1.Err? ==>
            Run(net, cli, tempDir, origin, mirror, st) ==
              Prune(net, cli.giteeRetainReleaseCount, mirror, Emit(Emit(st, listOrigin), listMirror)))
  {
  }

  /**
   * A run whose lists arrive issues the two list requests, then DELETEs only,
   * and only then the requests of the sync loop; no file disappears.
   */
  lemma RunOrder(net: Network, cli: Cli, tempDir: Path, origin: seq<Release>, mirror: seq<Release>, st: State)
    requires net.originList(cli.githubLatestReleaseCount).Success? && net.mirrorList(MIRROR_PAGE_SIZE).Success?
    ensures var fin := Run(net, cli, tempDir, origin, mirror, st).0;
      var listed := State(st.trace + [ListOrigin(cli.githubLatestReleaseCount), ListMirror(MIRROR_PAGE_SIZE)], st.fs);
      var pruned := Prune(net, cli.giteeRetainReleaseCount, mirror, listed).0;
      && Extends(pruned, listed) && Extends(fin, pruned)
      && (forall j :: |listed.trace| <= j < |pruned.trace| ==> pruned.trace[j].Delete?)
      && (forall j :: |pruned.trace| <= j < |fin.trace| ==> SyncEffectFor(mirror, fin.trace[j]))
  {
    var listed := State(st.trace + [ListOrigin(cli.githubLatestReleaseCount), ListMirror(MIRROR_PAGE_SIZE)], st.fs);
    assert Emit(Emit(st, ListOrigin(cli.githubLatestReleaseCount)), ListMirror(MIRROR_PAGE_SIZE)) == listed;
    var (pruned, p) := Prune(net, cli.giteeRetainReleaseCount, mirror, listed);
    PruneOnlyDeletes(net, cli.giteeRetainReleaseCount, mirror, listed);
    if p.Ok? {
      SyncAllEffects(net, cli, tempDir, Reversed(origin), mirror, pruned);
    }
  }


  // ------------------------------------------------------------- the program

  /** Copies a decoded list into an array and sorts it newest first. */
  method Normalise(decoded: seq<Release>) returns (sorted: seq<Release>)
    ensures NormalisedFrom(sorted, decoded)
  {
    var a := new Release[|decoded|](i requires 0 <= i < |decoded| => decoded[i]);
    assert a[..] == decoded;
    NewestFirstInPlace(a);
    sorted := a[..];
  }

  /** `github_releases`: the latest GitHub releases, newest first. */
  method GithubReleases(w: World, cli: Cli) returns (r: Result<seq<Release>, Effect>)
    modifies w`trace
    ensures w.Now() == Emit(old(w.Now()), ListOrigin(cli.githubLatestReleaseCount))
    ensures r.Err? <==> !w.net.originList(cli.githubLatestReleaseCount).Success?
    ensures r.Err? ==> r.error == ListOrigin(cli.githubLatestReleaseCount)
    ensures r.Ok? ==> NormalisedFrom(r.value, w.net.originList(cli.githubLatestReleaseCount).value)
  {
    var reply := w.FetchOrigin(cli.githubLatestReleaseCount);
    if !reply.Success? {
      return Err(ListOrigin(cli.githubLatestReleaseCount));
    }
    var sorted := Normalise(reply.value);
    r := Ok(sorted);
  }

  /** `gitee_releases`: the latest hundred Gitee releases, newest first. */
  method GiteeReleases(w: World, cli: Cli) returns (r: Result<seq<Release>, Effect>)
    modifies w`trace
    ensures w.Now() == Emit(old(w.Now()), ListMirror(MIRROR_PAGE_SIZE))
    ensures r.Err? <==> !w.net.mirrorList(MIRROR_PAGE_SIZE).Success?
    ensures r.Err? ==> r.error == ListMirror(MIRROR_PAGE_SIZE)
    ensures r.Ok? ==> NormalisedFrom(r.value, w.net.mirrorList(MIRROR_PAGE_SIZE).value)
  {
    var reply := w.FetchMirror(MIRROR_PAGE_SIZE);
    if !reply.Success? {
      return Err(ListMirror(MIRROR_PAGE_SIZE));
    }
    var sorted := Normalise(reply.value);
    r := Ok(sorted);
  }

  /** `clean_oldest_gitee_releases`: deletes every release after the first `retain`. */
  method CleanOldestGiteeReleases(w: World, cli: Cli, releases: seq<Release>) returns (r: Outcome)
    modifies w`trace
    ensures (w.Now(), r) == Prune(w.net, cli.giteeRetainReleaseCount, releases, old(w.Now()))
  {
    var retain := cli.giteeRetainReleaseCount;
    if retain >= |releases| {
      return Ok(());
    }
    var i := retain;
    while i < |releases|
      invariant retain <= i <= |releases|
      invariant w.fs == old(w.fs)
      invariant DeleteEach(w.net, releases[retain..], old(w.Now())) == DeleteEach(w.net, releases[i..], w.Now())
    {
      assert releases[i..][1..] == releases[i + 1..];
      var reply := w.DeleteRelease(releases[i].id);
      if !reply.Success? {
        return Err(Delete(releases[i].id));
      }
      i := i + 1;
    }
    r := Ok(());
  }

  /** `gitee_release_create_or_update`. */
  method GiteeReleaseCreateOrUpdate(w: World, cli: Cli, origin: Release, counterpart: Option<Release>)
    returns (r: Result<Release, Effect>)
    modifies w`trace
    ensures (w.Now(), r) == CreateOrUpdate(w.net, cli, origin, counterpart, old(w.Now()))
  {
    match Decide(cli, origin, counterpart)
    case CreateFrom(payload) =>
      var reply := w.Post(payload);
      r := if reply.Success? then Ok(reply.value) else Err(Create(payload));
    case UpdateTo(updated) =>
      var reply := w.Patch(updated.id, ToJson(updated));
      r := if reply.Success? then Ok(updated) else Err(Update(updated.id, ToJson(updated)));
    case Keep(mirror) =>
      r := Ok(mirror);
  }


  /** One pass of the loop of `download_release_asserts`. */
  method DownloadAsset(w: World, cli: Cli, dir: Path, asset: Asset) returns (r: Outcome)
    modifies w
    ensures (w.Now(), r) == DownloadOne(w.net, cli, dir, asset, old(w.Now()))
  {
    var path := dir + [asset.name];
    if w.Exists(path) && asset.size.Some? && |w.fs[path]| == asset.size.value {
      return Ok(());
    }
    ghost var before := w.fs;
    var ok := w.DownloadTo(asset.browserDownloadUrl, path);
    if !ok {
      return Err(Download(asset.browserDownloadUrl, path));
    }
    ghost var body := w.net.download(asset.browserDownloadUrl).value;
    if cli.latestJsonUrlReplace && asset.name == LATEST_JSON {
      var content := w.fs[path];
      w.WriteFile(path, ReplaceDownloadUrl(cli, content));
    }
    assert w.fs == before[path := StagedContent(cli, asset, body)];
    r := Ok(());
  }

  /** `download_release_asserts`: stages every asset of `diff` under the release's directory. */
  method DownloadReleaseAssets(w: World, cli: Cli, tempDir: Path, origin: Release, diff: seq<Asset>)
    returns (r: Outcome)
    modifies w
    ensures (w.Now(), r) == DownloadAll(w.net, cli, StagingDir(tempDir, cli, origin), diff, old(w.Now()))
  {
    var dir := StagingDir(tempDir, cli, origin);
    var i := 0;
    while i < |diff|
      invariant i <= |diff|
      invariant DownloadAll(w.net, cli, dir, diff, old(w.Now())) == DownloadAll(w.net, cli, dir, diff[i..], w.Now())
    {
      assert diff[i..][1..] == diff[i + 1..];
      r := DownloadAsset(w, cli, dir, diff[i]);
      if r.Err? {
        return;
      }
      i := i + 1;
    }
    r := Ok(());
  }

  /** `upload_release_asserts`: sends every staged file of `diff` to the Gitee release. */
  method UploadReleaseAssets(w: World, cli: Cli, tempDir: Path, origin: Release, giteeRelease: Release,
                             diff: seq<Asset>)
    returns (r: Outcome)
    modifies w`trace
    ensures (w.Now(), r) == UploadAll(w.net, StagingDir(tempDir, cli, origin), giteeRelease.id, diff, old(w.Now()))
  {
    var dir := StagingDir(tempDir, cli, origin);
    var i := 0;
    while i < |diff|
      invariant i <= |diff|
      invariant UploadAll(w.net, dir, giteeRelease.id, diff, old(w.Now())) ==
        UploadAll(w.net, dir, giteeRelease.id, diff[i..], w.Now())
    {
      assert diff[i..][1..] == diff[i + 1..];
      var path := dir + [diff[i].name];
      if !w.Exists(path) {
        i := i + 1;
        continue;
      }
      var reply := w.UploadFile(giteeRelease.id, path);
      if !reply.Success? {
        return Err(Upload(giteeRelease.id, path, w.fs[path]));
      }
      i := i + 1;
    }
    r := Ok(());
  }

  /** `sync_release`. */
  method SyncRelease(w: World, cli: Cli, tempDir: Path, origin: Release, counterpart: Option<Release>)
    returns (r: Outcome)
    modifies w
    ensures (w.Now(), r) == SyncOne(w.net, cli, tempDir, origin, counterpart, old(w.Now()))
  {
    var created := GiteeReleaseCreateOrUpdate(w, cli, origin, counterpart);
    if created.Err? {
      return Err(created.error);
    }
    var diff := ReleaseAssetsDiff(origin, created.value);
    if diff == [] {
      return Ok(());
    }
    r := DownloadReleaseAssets(w, cli, tempDir, origin, diff);
    if r.Err? {
      return;
    }
    r := UploadReleaseAssets(w, cli, tempDir, origin, created.value, diff);
  }

  /**
   * `sync_github_releases_to_gitee`. The ghost results are the two lists as
   * sorted; each is a newest-first permutation of what its registry sent, and
   * the run does what `Run` says for them.
   */
  method SyncGithubReleasesToGitee(w: World, cli: Cli, tempDir: Path)
    returns (r: Outcome, ghost origin: seq<Release>, ghost mirror: seq<Release>)
    modifies w
    ensures (w.Now(), r) == Run(w.net, cli, tempDir, origin, mirror, old(w.Now()))
    ensures w.net.originList(cli.githubLatestReleaseCount).Success? ==>
      NormalisedFrom(origin, w.net.originList(cli.githubLatestReleaseCount).value)
    ensures w.net.originList(cli.githubLatestReleaseCount).Success? && w.net.mirrorList(MIRROR_PAGE_SIZE).Success? ==>
      NormalisedFrom(mirror, w.net.mirrorList(MIRROR_PAGE_SIZE).value)
  {
    origin, mirror := [], [];
    var githubReleases := GithubReleases(w, cli);
    if githubReleases.Err? {
      return Err(githubReleases.error), origin, mirror;
    }
    var latest := githubReleases.value;
    origin := latest;
    var giteeReleases := GiteeReleases(w, cli);
    if giteeReleases.Err? {
      return Err(giteeReleases.error), origin, mirror;
    }
    var listed := giteeReleases.value;
    mirror := listed;
    r := CleanOldestGiteeReleases(w, cli, listed);
    if r.Err? {
      return;
    }
    var pending := Reversed(latest);
    ghost var synced := w.Now();
    var i := 0;
    while i < |pending|
      invariant i <= |pending|
      invariant SyncAll(w.net, cli, tempDir, pending, listed, synced) ==
        SyncAll(w.net, cli, tempDir, pending[i..], listed, w.Now())
    {
      assert pending[i..][1..] == pending[i + 1..];
      var counterpart := FindByTag(listed, pending[i].tagName);
      r := SyncRelease(w, cli, tempDir, pending[i], counterpart);
      if r.Err? {
        return;
      }
      i := i + 1;
    }
    r := Ok(());
  }


  /**
   * The sync loop pairs releases using the Gitee list fetched before pruning.
   * So a GitHub release whose first Gitee counterpart lies past the retained
   * prefix gets paired with a release whose DELETE was just issued.
   */
  lemma PrunedCounterpartStillUsed(mirror: seq<Release>, retain: nat, tag: Bytes, k: nat)
    requires retain <= k < |mirror| && mirror[k].tagName == tag
    requires forall i :: 0 <= i < k ==> mirror[i].tagName != tag
    ensures FindByTag(mirror, tag) == Some(mirror[k])
    ensures k - retain < |DeleteRequests(mirror[retain..])|
    ensures DeleteRequests(mirror[retain..])[k - retain] == Delete(FindByTag(mirror, tag).value.id)
  {
    assert FirstWithTag(mirror, tag) == k;
  }
}
