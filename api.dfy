/**
 * The older binary path, `src/api.rs` driven by the loop of `src/main.rs`:
 * the GitHub list is only reversed and the Gitee list kept as it arrives; a
 * Gitee release is created when its tag is missing and otherwise used as it
 * is, never updated; then every GitHub asset not on the Gitee release is
 * downloaded in 8 KB chunks into `<tag>/<name>` and uploaded. A failed
 * status of an asset request is only logged; a request that cannot be sent
 * ends the run.
 */
module Api {
  import opened Model
  import opened Effects
  import opened ReleaseOrder
  import opened Lib

  // ---------------------------------------------------------------- lists

  /** `github_releases`: the list as GitHub sent it, reversed. */
  method GithubReleases(w: World, cli: Cli) returns (r: Result<seq<Release>, Effect>)
    modifies w`trace
    ensures w.Now() == Emit(old(w.Now()), ListOrigin(cli.githubLatestReleaseCount))
    ensures r.Err? <==> !w.net.originList(cli.githubLatestReleaseCount).Success?
    ensures r.Err? ==> r.error == ListOrigin(cli.githubLatestReleaseCount)
    ensures r.Ok? ==> r.value == Reversed(w.net.originList(cli.githubLatestReleaseCount).value)
  {
    var reply := w.FetchOrigin(cli.githubLatestReleaseCount);
    if !reply.Success? {
      return Err(ListOrigin(cli.githubLatestReleaseCount));
    }
    var a := new Release[|reply.value|](i requires 0 <= i < |reply.value| => reply.value[i]);
    assert a[..] == reply.value;
    ReverseInPlace(a);
    r := Ok(a[..]);
  }

  /** `gitee_releases`: the latest hundred Gitee releases, in the order Gitee sent them. */
  method GiteeReleases(w: World, cli: Cli) returns (r: Result<seq<Release>, Effect>)
    modifies w`trace
    ensures w.Now() == Emit(old(w.Now()), ListMirror(MIRROR_PAGE_SIZE))
    ensures r.Err? <==> !w.net.mirrorList(MIRROR_PAGE_SIZE).Success?
    ensures r.Err? ==> r.error == ListMirror(MIRROR_PAGE_SIZE)
    ensures r.Ok? ==> r.value == w.net.mirrorList(MIRROR_PAGE_SIZE).value
  {
    var reply := w.FetchMirror(MIRROR_PAGE_SIZE);
    if !reply.Success? {
      return Err(ListMirror(MIRROR_PAGE_SIZE));
    }
    r := Ok(reply.value);
  }

  // ------------------------------------------------------------ the steps

  /** Where an asset is staged: `<tag>/<name>`, relative to the working directory. */
  function AssetPath(origin: Release, asset: Asset): Path
  {
    [origin.tagName, asset.name]
  }

  /** The Gitee release to use: the counterpart as it is, or a new one created from GitHub. */
  function CreateIfAbsent(net: Network, origin: Release, counterpart: Option<Release>, st: State)
    : (State, Result<Release, Effect>)
  {
    match counterpart
    case Some(mirror) => (st, Ok(mirror))
    case None =>
      var e := Create(ToJson(origin));
      (Emit(st, e), if net.create(ToJson(origin)).Success? then Ok(net.create(ToJson(origin)).value) else Err(e))
  }

  /** The file kept for a downloaded asset: `latest.json` is always rewritten. */
  function KeptContent(cli: Cli, asset: Asset, body: Bytes): Bytes
  {
    if asset.name == LATEST_JSON then ReplaceDownloadUrl(cli, body) else body
  }

  /** One pass of the loop of `download_release_asserts`. */
  function DownloadOne(net: Network, cli: Cli, origin: Release, mirror: Release, asset: Asset, st: State)
    : (State, Outcome)
  {
    var path := AssetPath(origin, asset);
    if HasAssetNamed(mirror.assets, asset.name) || AlreadyStaged(st.fs, path, asset) then (st, Ok(()))
    else
      var e := Get(asset.browserDownloadUrl);
      match net.download(asset.browserDownloadUrl)
      case TransportError => (Emit(st, e), Err(e))
      case ErrorStatus => (Emit(st, e), Ok(()))
      case Success(body) => (State(st.trace + [e], st.fs[path := KeptContent(cli, asset, body)]), Ok(()))
  }

  /** `download_release_asserts` over the assets of the GitHub release. */
  function DownloadAll(net: Network, cli: Cli, origin: Release, mirror: Release, assets: seq<Asset>, st: State)
    : (State, Outcome)
    decreases |assets|
  {
    if assets == [] then (st, Ok(()))
    else
      var (st1, r) := DownloadOne(net, cli, origin, mirror, assets[0], st);
      if r.Err? then (st1, r) else DownloadAll(net, cli, origin, mirror, assets[1..], st1)
  }

  /** One pass of the loop of `upload_release_asserts`. */
  function UploadOne(net: Network, origin: Release, mirror: Release, asset: Asset, st: State): (State, Outcome)
  {
    var path := AssetPath(origin, asset);
    if HasAssetNamed(mirror.assets, asset.name) || path !in st.fs then (st, Ok(()))
    else
      var e := Upload(mirror.id, path, st.fs[path]);
      (Emit(st, e), if net.upload(mirror.id, path, st.fs[path]).TransportError? then Err(e) else Ok(()))
  }

  /** `upload_release_asserts` over the assets of the GitHub release. */
  function UploadAll(net: Network, origin: Release, mirror: Release, assets: seq<Asset>, st: State)
    : (State, Outcome)
    decreases |assets|
  {
    if assets == [] then (st, Ok(()))
    else
      var (st1, r) := UploadOne(net, origin, mirror, assets[0], st);
      if r.Err? then (st1, r) else UploadAll(net, origin, mirror, assets[1..], st1)
  }

  /** `sync_gitee_release`. */
  function SyncOne(net: Network, cli: Cli, origin: Release, counterpart: Option<Release>, st: State)
    : (State, Outcome)
  {
    var (st1, r) := CreateIfAbsent(net, origin, counterpart, st);
    if r.Err? then (st1, Err(r.error))
    else
      var (st2, d) := DownloadAll(net, cli, origin, r.value, origin.assets, st1);
      if d.Err? then (st2, d) else UploadAll(net, origin, r.value, origin.assets, st2)
  }

  /** The loop of `main`: every GitHub release, paired with the first listed Gitee release of its tag. */
  function SyncAll(net: Network, cli: Cli, pending: seq<Release>, mirror: seq<Release>, st: State)
    : (State, Outcome)
    decreases |pending|
  {
    if pending == [] then (st, Ok(()))
    else
      var (st1, r) := SyncOne(net, cli, pending[0], FindByTag(mirror, pending[0].tagName), st);
      if r.Err? then (st1, r) else SyncAll(net, cli, pending[1..], mirror, st1)
  }

  /** `main` after parsing: both lists, then the sync loop. */
  function Run(net: Network, cli: Cli, st: State): (State, Outcome)
  {
    var listOrigin := ListOrigin(cli.githubLatestReleaseCount);
    var st1 := Emit(st, listOrigin);
    if !net.originList(cli.githubLatestReleaseCount).Success? then (st1, Err(listOrigin))
    else
      var listMirror := ListMirror(MIRROR_PAGE_SIZE);
      var st2 := Emit(st1, listMirror);
      if !net.mirrorList(MIRROR_PAGE_SIZE).Success? then (st2, Err(listMirror))
      else SyncAll(net, cli, Reversed(net.originList(cli.githubLatestReleaseCount).value),
                   net.mirrorList(MIRROR_PAGE_SIZE).value, st2)
  }

  // ------------------------------------------------------------ properties

  /** A release is created exactly when its tag has no counterpart; a counterpart is used unchanged. */
  lemma CreateIfAbsentRules(net: Network, origin: Release, counterpart: Option<Release>, st: State)
    ensures var (st1, r) := CreateIfAbsent(net, origin, counterpart, st);
      && st1.fs == st.fs
      && (counterpart.None? ==> st1.trace == st.trace + [Create(ToJson(origin))])
      && (counterpart.None? ==> (r.Err? <==> !net.create(ToJson(origin)).Success?))
      && (counterpart.Some? ==> st1 == st && r == Ok(counterpart.value))
  {
  }

  /**
   * An asset is fetched unless the Gitee release has an asset of its name or
   * its file exists with the size GitHub reports. Only a request that cannot
   * be sent fails the loop; a failed status leaves the files as they were, and
   * a body that arrives is kept, `latest.json` rewritten whatever the flags.
   */
  lemma DownloadOneRules(net: Network, cli: Cli, origin: Release, mirror: Release, asset: Asset, st: State)
    ensures var (st1, r) := DownloadOne(net, cli, origin, mirror, asset, st);
      var path := AssetPath(origin, asset);
      var skipped := HasAssetNamed(mirror.assets, asset.name) || AlreadyStaged(st.fs, path, asset);
      var reply := net.download(asset.browserDownloadUrl);
      && (st1 == st <==> skipped)
      && (!skipped ==> st1.trace == st.trace + [Get(asset.browserDownloadUrl)])
      && (r.Err? <==> !skipped && reply.TransportError?)
      && (r.Err? ==> r.error == Get(asset.browserDownloadUrl))
      && (!skipped && !reply.Success? ==> st1.fs == st.fs)
      && (!skipped && reply.Success? ==> st1.fs == st.fs[path := KeptContent(cli, asset, reply.value)])
  {
    var path := AssetPath(origin, asset);
    if !(HasAssetNamed(mirror.assets, asset.name) || AlreadyStaged(st.fs, path, asset)) {
      var st1 := DownloadOne(net, cli, origin, mirror, asset, st).0;
      assert |st1.trace| == |st.trace| + 1;
    }
  }

  /** Neither flag changes what the older path downloads or keeps. */
  lemma DownloadIgnoresFlags(net: Network, cli: Cli, origin: Release, mirror: Release, asset: Asset, st: State,
                             bodyFlag: bool, latestFlag: bool)
    ensures var other := cli.(releaseBodyUrlReplace := bodyFlag, latestJsonUrlReplace := latestFlag);
      DownloadOne(net, other, origin, mirror, asset, st) == DownloadOne(net, cli, origin, mirror, asset, st)
  {
    var other := cli.(releaseBodyUrlReplace := bodyFlag, latestJsonUrlReplace := latestFlag);
    assert GithubRepoUrl(other) == GithubRepoUrl(cli) && GiteeRepoUrl(other) == GiteeRepoUrl(cli);
  }

  /**
   * An asset is sent unless the Gitee release has an asset of its name or its
   * file is missing; only a request that cannot be sent fails the loop.
   */
  lemma UploadOneRules(net: Network, origin: Release, mirror: Release, asset: Asset, st: State)
    ensures var (st1, r) := UploadOne(net, origin, mirror, asset, st);
      var path := AssetPath(origin, asset);
      var skipped := HasAssetNamed(mirror.assets, asset.name) || path !in st.fs;
      && st1.fs == st.fs
      && (st1 == st <==> skipped)
      && (!skipped ==> st1.trace == st.trace + [Upload(mirror.id, path, st.fs[path])])
      && (r.Err? <==> !skipped && net.upload(mirror.id, path, st.fs[path]).TransportError?)
  {
    var path := AssetPath(origin, asset);
    if !(HasAssetNamed(mirror.assets, asset.name) || path !in st.fs) {
      var st1 := UploadOne(net, origin, mirror, asset, st).0;
      assert |st1.trace| == |st.trace| + 1;
    }
  }

  /** `path` is the staging file of an asset of `origin` that the Gitee release `mirror` lacks. */
  predicate StagedForMissing(path: Path, origin: Release, mirror: Release)
  {
    |path| == 2 && path[0] == origin.tagName && !HasAssetNamed(mirror.assets, path[1])
  }

  /**
   * The download loop issues only GETs, writes only the files of assets the
   * Gitee release lacks, removes none, and stops only at a GET that could not
   * be sent.
   */
  lemma {:induction false} DownloadAllFacts(net: Network, cli: Cli, origin: Release, mirror: Release,
                                            assets: seq<Asset>, st: State)
    ensures var (st1, r) := DownloadAll(net, cli, origin, mirror, assets, st);
      && Extends(st1, st)
      && (forall j :: |st.trace| <= j < |st1.trace| ==> st1.trace[j].Get?)
      && (forall p :: p in st1.fs && (p !in st.fs || st1.fs[p] != st.fs[p]) ==> StagedForMissing(p, origin, mirror))
      && (r.Err? ==> |st1.trace| > |st.trace| && r.error == st1.trace[|st1.trace| - 1]
                     && net.download(r.error.url).TransportError?)
    decreases |assets|
  {
    if assets != [] {
      var (st1, r) := DownloadOne(net, cli, origin, mirror, assets[0], st);
      DownloadOneRules(net, cli, origin, mirror, assets[0], st);
      assert Extends(st1, st) by {
        assert st1.trace[..|st.trace|] == st.trace;
      }
      if r.Ok? {
        var fin := DownloadAll(net, cli, origin, mirror, assets[1..], st1).0;
        DownloadAllFacts(net, cli, origin, mirror, assets[1..], st1);
        ExtendsTransitive(fin, st1, st);
        forall j | |st.trace| <= j < |fin.trace|
          ensures fin.trace[j].Get?
        {
          if j < |st1.trace| {
            assert fin.trace[j] == fin.trace[..|st1.trace|][j];
          }
        }
      }
    }
  }

  /** An upload the older path issues sends a staged file of an asset the Gitee release lacks, to that release. */
  predicate UploadFor(e: Effect, origin: Release, mirror: Release, fs: map<Path, Bytes>)
  {
    e.Upload? && e.releaseId == mirror.id && StagedForMissing(e.path, origin, mirror)
    && e.path in fs && e.content == fs[e.path]
  }

  /** The upload loop touches no file and stops only at an upload that could not be sent. */
  lemma {:induction false} UploadAllFacts(net: Network, origin: Release, mirror: Release, assets: seq<Asset>, st: State)
    ensures var (st1, r) := UploadAll(net, origin, mirror, assets, st);
      && st1.fs == st.fs
      && Extends(st1, st)
      && (forall j :: |st.trace| <= j < |st1.trace| ==> UploadFor(st1.trace[j], origin, mirror, st.fs))
      && (r.Err? ==> |st1.trace| > |st.trace| && r.error == st1.trace[|st1.trace| - 1]
                     && net.upload(r.error.releaseId, r.error.path, r.error.content).TransportError?)
    decreases |assets|
  {
    if assets != [] {
      var (st1, r) := UploadOne(net, origin, mirror, assets[0], st);
      UploadOneRules(net, origin, mirror, assets[0], st);
      assert Extends(st1, st) by {
        assert st1.trace[..|st.trace|] == st.trace;
      }
      if r.Ok? {
        var fin := UploadAll(net, origin, mirror, assets[1..], st1).0;
        UploadAllFacts(net, origin, mirror, assets[1..], st1);
        ExtendsTransitive(fin, st1, st);
        forall j | |st.trace| <= j < |fin.trace|
          ensures UploadFor(fin.trace[j], origin, mirror, st.fs)
        {
          if j < |st1.trace| {
            assert fin.trace[j] == fin.trace[..|st1.trace|][j];
          }
        }
      }
    }
  }


  /**
   * Skipping the assets the Gitee release has, asset by asset, amounts to
   * working through the diff that `src/lib.rs` computes first.
   */
  lemma {:induction false} DownloadAllIsOverMissing(net: Network, cli: Cli, origin: Release, mirror: Release,
                                                    assets: seq<Asset>, st: State)
    ensures DownloadAll(net, cli, origin, mirror, assets, st) ==
      DownloadAll(net, cli, origin, mirror, MissingAssets(assets, mirror.assets), st)
    decreases |assets|
  {
    if assets != [] {
      var missing := MissingAssets(assets, mirror.assets);
      if HasAssetNamed(mirror.assets, assets[0].name) {
        DownloadAllIsOverMissing(net, cli, origin, mirror, assets[1..], st);
      } else {
        var st1 := DownloadOne(net, cli, origin, mirror, assets[0], st).0;
        DownloadAllIsOverMissing(net, cli, origin, mirror, assets[1..], st1);
        assert missing[0] == assets[0] && missing[1..] == MissingAssets(assets[1..], mirror.assets);
      }
    }
  }

  lemma {:induction false} UploadAllIsOverMissing(net: Network, origin: Release, mirror: Release,
                                                  assets: seq<Asset>, st: State)
    ensures UploadAll(net, origin, mirror, assets, st) ==
      UploadAll(net, origin, mirror, MissingAssets(assets, mirror.assets), st)
    decreases |assets|
  {
    if assets != [] {
      var missing := MissingAssets(assets, mirror.assets);
      if HasAssetNamed(mirror.assets, assets[0].name) {
        UploadAllIsOverMissing(net, origin, mirror, assets[1..], st);
      } else {
        var st1 := UploadOne(net, origin, mirror, assets[0], st).0;
        UploadAllIsOverMissing(net, origin, mirror, assets[1..], st1);
        assert missing[0] == assets[0] && missing[1..] == MissingAssets(assets[1..], mirror.assets);
      }
    }
  }

  /** A Gitee release that has an asset of every name the GitHub release has is left alone. */
  lemma SyncOneUpToDate(net: Network, cli: Cli, origin: Release, mirror: Release, st: State)
    requires forall i :: 0 <= i < |origin.assets| ==> HasAssetNamed(mirror.assets, origin.assets[i].name)
    ensures SyncOne(net, cli, origin, Some(mirror), st) == (st, Ok(()))
  {
    MissingAssetsEmpty(origin.assets, mirror.assets);
    DownloadAllIsOverMissing(net, cli, origin, mirror, origin.assets, st);
    UploadAllIsOverMissing(net, origin, mirror, origin.assets, st);
  }

  /**
   * What the older sync loop may ask of the registries: a POST only of a
   * release whose tag the Gitee list lacks, asset GETs and uploads; never a
   * PATCH, a DELETE or a list request.
   */
  predicate SyncEffectFor(mirror: seq<Release>, e: Effect)
  {
    match e
    case Create(p) => FindByTag(mirror, p.tagName).None?
    case Get(_) => true
    case Upload(_, _, _) => true
    case _ => false
  }

  lemma SyncOneEffects(net: Network, cli: Cli, origin: Release, mirror: seq<Release>, st: State)
    ensures var fin := SyncOne(net, cli, origin, FindByTag(mirror, origin.tagName), st).0;
      && Extends(fin, st)
      && forall j :: |st.trace| <= j < |fin.trace| ==> SyncEffectFor(mirror, fin.trace[j])
  {
    var (st1, r) := CreateIfAbsent(net, origin, FindByTag(mirror, origin.tagName), st);
    CreateIfAbsentRules(net, origin, FindByTag(mirror, origin.tagName), st);
    assert Extends(st1, st) by {
      assert st1.trace[..|st.trace|] == st.trace;
    }
    if r.Ok? {
      var (st2, d) := DownloadAll(net, cli, origin, r.value, origin.assets, st1);
      DownloadAllFacts(net, cli, origin, r.value, origin.assets, st1);
      ExtendsTransitive(st2, st1, st);
      var fin := if d.Err? then st2 else UploadAll(net, origin, r.value, origin.assets, st2).0;
      UploadAllFacts(net, origin, r.value, origin.assets, st2);
      ExtendsTransitive(fin, st2, st);
      forall j | |st.trace| <= j < |fin.trace|
        ensures SyncEffectFor(mirror, fin.trace[j])
      {
        if j < |st2.trace| {
          assert fin.trace[j] == fin.trace[..|st2.trace|][j];
          if j < |st1.trace| {
            assert st2.trace[j] == st2.trace[..|st1.trace|][j];
          }
        }
      }
    }
  }

  lemma {:induction false} SyncAllEffects(net: Network, cli: Cli, pending: seq<Release>, mirror: seq<Release>, st: State)
    ensures var fin := SyncAll(net, cli, pending, mirror, st).0;
      && Extends(fin, st)
      && forall j :: |st.trace| <= j < |fin.trace| ==> SyncEffectFor(mirror, fin.trace[j])
    decreases |pending|
  {
    if pending != [] {
      var (st1, r) := SyncOne(net, cli, pending[0], FindByTag(mirror, pending[0].tagName), st);
      SyncOneEffects(net, cli, pending[0], mirror, st);
      if r.Ok? {
        var fin := SyncAll(net, cli, pending[1..], mirror, st1).0;
        SyncAllEffects(net, cli, pending[1..], mirror, st1);
        ExtendsTransitive(fin, st1, st);
        forall j | |st.trace| <= j < |fin.trace|
          ensures SyncEffectFor(mirror, fin.trace[j])
        {
          if j < |st1.trace| {
            assert fin.trace[j] == fin.trace[..|st1.trace|][j];
          }
        }
      }
    }
  }

  /**
   * A run of the older path lists both registries and then issues only what
   * `SyncEffectFor` allows against the Gitee list it received: it never
   * updates or deletes a release.
   */
  lemma RunNeverUpdatesOrDeletes(net: Network, cli: Cli, st: State)
    requires net.originList(cli.githubLatestReleaseCount).Success? && net.mirrorList(MIRROR_PAGE_SIZE).Success?
    ensures var fin := Run(net, cli, st).0;
      var listed := State(st.trace + [ListOrigin(cli.githubLatestReleaseCount), ListMirror(MIRROR_PAGE_SIZE)], st.fs);
      && Extends(fin, listed)
      && forall j :: |listed.trace| <= j < |fin.trace| ==>
           SyncEffectFor(net.mirrorList(MIRROR_PAGE_SIZE).value, fin.trace[j])
  {
    var listed := State(st.trace + [ListOrigin(cli.githubLatestReleaseCount), ListMirror(MIRROR_PAGE_SIZE)], st.fs);
    assert Emit(Emit(st, ListOrigin(cli.githubLatestReleaseCount)), ListMirror(MIRROR_PAGE_SIZE)) == listed;
    SyncAllEffects(net, cli, Reversed(net.originList(cli.githubLatestReleaseCount).value),
                   net.mirrorList(MIRROR_PAGE_SIZE).value, listed);
  }

  // ------------------------------------------------------------ the program

  /** The join of the chunks read, in order. */
  function Concat(chunks: seq<Bytes>): Bytes
  {
    if chunks == [] then [] else Concat(chunks[..|chunks| - 1]) + chunks[|chunks| - 1]
  }

  /** Size of the buffer the body is read into. */
  const CHUNK_SIZE: nat := 8192

  /**
   * The copy loop of `download_release_asserts`: reads the stream into an
   * 8 KB buffer and appends each piece to the file until a read yields
   * nothing. The file gains exactly the body; every piece is non-empty and at
   * most a buffer long; the count added to the progress bar is the body's
   * length.
   */
  method CopyToFile(w: World, reader: BodyReader, path: Path) returns (total: nat, ghost chunks: seq<Bytes>)
    requires path in w.fs
    modifies w`fs, reader
    ensures w.Now() == State(old(w.trace), old(w.fs)[path := old(w.fs[path]) + old(reader.rest)])
    ensures reader.rest == []
    ensures total == |old(reader.rest)|
    ensures Concat(chunks) == old(reader.rest)
    ensures forall k :: 0 <= k < |chunks| ==> 0 < |chunks[k]| <= CHUNK_SIZE
  {
    var buffer := new byte[CHUNK_SIZE](_ => '\0');
    total, chunks := 0, [];
    ghost var start := old(w.fs[path]);
    assert w.fs == old(w.fs)[path := start + Concat(chunks)] by {
      assert start + Concat(chunks) == start;
    }
    while true
      invariant path in w.fs && w.trace == old(w.trace)
      invariant old(reader.rest) == Concat(chunks) + reader.rest
      invariant w.fs == old(w.fs)[path := start + Concat(chunks)]
      invariant total == |Concat(chunks)|
      invariant forall k :: 0 <= k < |chunks| ==> 0 < |chunks[k]| <= CHUNK_SIZE
      decreases |reader.rest|
    {
      ghost var before := reader.rest;
      var n := reader.Read(buffer);
      if n == 0 {
        break;
      }
      var chunk := buffer[..n];
      w.Append(path, chunk);
      assert Concat(chunks + [chunk]) == Concat(chunks) + chunk by {
        assert (chunks + [chunk])[..|chunks|] == chunks;
      }
      assert before == chunk + reader.rest;
      assert w.fs == old(w.fs)[path := start + Concat(chunks) + chunk];
      ghost var prefix := start + Concat(chunks);
      chunks := chunks + [chunk];
      assert start + Concat(chunks) == prefix + chunk;
      total := total + n;
    }
    assert reader.rest == [] && Concat(chunks) + reader.rest == Concat(chunks);
  }

  /** One pass of the loop of `download_release_asserts`. */
  method DownloadAsset(w: World, cli: Cli, origin: Release, mirror: Release, asset: Asset) returns (r: Outcome)
    modifies w
    ensures (w.Now(), r) == DownloadOne(w.net, cli, origin, mirror, asset, old(w.Now()))
  {
    var path := AssetPath(origin, asset);
    if HasAssetNamed(mirror.assets, asset.name) {
      return Ok(());
    }
    if w.Exists(path) && asset.size.Some? && |w.fs[path]| == asset.size.value {
      return Ok(());
    }
    ghost var before := w.fs;
    var reply := w.GetStream(asset.browserDownloadUrl);
    match reply
    case TransportError =>
      r := Err(Get(asset.browserDownloadUrl));
    case ErrorStatus =>
      r := Ok(());
    case Success(reader) =>
      w.CreateFile(path);
      var total;
      ghost var chunks;
      ghost var body := w.net.download(asset.browserDownloadUrl).value;
      assert reader.rest == body && [] + body == body;
      total, chunks := CopyToFile(w, reader, path);
      assert w.fs == before[path := body];
      if asset.name == LATEST_JSON {
        var content := w.fs[path];
        w.WriteFile(path, ReplaceDownloadUrl(cli, content));
      }
      assert w.fs == before[path := KeptContent(cli, asset, w.net.download(asset.browserDownloadUrl).value)];
      r := Ok(());
  }

  /** `download_release_asserts`: every asset of the GitHub release the Gitee release lacks. */
  method DownloadReleaseAssets(w: World, cli: Cli, origin: Release, mirror: Release) returns (r: Outcome)
    modifies w
    ensures (w.Now(), r) == DownloadAll(w.net, cli, origin, mirror, origin.assets, old(w.Now()))
  {
    var assets := origin.assets;
    var i := 0;
    while i < |assets|
      invariant i <= |assets|
      invariant DownloadAll(w.net, cli, origin, mirror, assets, old(w.Now())) ==
        DownloadAll(w.net, cli, origin, mirror, assets[i..], w.Now())
    {
      assert assets[i..][1..] == assets[i + 1..];
      r := DownloadAsset(w, cli, origin, mirror, assets[i]);
      if r.Err? {
        return;
      }
      i := i + 1;
    }
    r := Ok(());
  }

  /** `upload_release_asserts`: every staged asset of the GitHub release the Gitee release lacks. */
  method UploadReleaseAssets(w: World, origin: Release, mirror: Release) returns (r: Outcome)
    modifies w`trace
    ensures (w.Now(), r) == UploadAll(w.net, origin, mirror, origin.assets, old(w.Now()))
  {
    var assets := origin.assets;
    var i := 0;
    while i < |assets|
      invariant i <= |assets|
      invariant UploadAll(w.net, origin, mirror, assets, old(w.Now())) ==
        UploadAll(w.net, origin, mirror, assets[i..], w.Now())
    {
      assert assets[i..][1..] == assets[i + 1..];
      var path := AssetPath(origin, assets[i]);
      if HasAssetNamed(mirror.assets, assets[i].name) || !w.Exists(path) {
        i := i + 1;
        continue;
      }
      var reply := w.UploadFile(mirror.id, path);
      if reply.TransportError? {
        return Err(Upload(mirror.id, path, w.fs[path]));
      }
      i := i + 1;
    }
    r := Ok(());
  }

  /** `gitee_release_create`. */
  method GiteeReleaseCreate(w: World, origin: Release) returns (r: Result<Release, Effect>)
    modifies w`trace
    ensures (w.Now(), r) == CreateIfAbsent(w.net, origin, None, old(w.Now()))
  {
    var reply := w.Post(ToJson(origin));
    r := if reply.Success? then Ok(reply.value) else Err(Create(ToJson(origin)));
  }

  /** `sync_gitee_release`. */
  method SyncGiteeRelease(w: World, cli: Cli, origin: Release, counterpart: Option<Release>) returns (r: Outcome)
    modifies w
    ensures (w.Now(), r) == SyncOne(w.net, cli, origin, counterpart, old(w.Now()))
  {
    var giteeRelease;
    if counterpart.None? {
      var created := GiteeReleaseCreate(w, origin);
      if created.Err? {
        return Err(created.error);
      }
      giteeRelease := created.value;
    } else {
      giteeRelease := counterpart.value;
    }
    r := DownloadReleaseAssets(w, cli, origin, giteeRelease);
    if r.Err? {
      return;
    }
    r := UploadReleaseAssets(w, origin, giteeRelease);
  }

  /** `main` after parsing the configuration. */
  method SyncAllReleases(w: World, cli: Cli) returns (r: Outcome)
    modifies w
    ensures (w.Now(), r) == Run(w.net, cli, old(w.Now()))
  {
    var githubReleases := GithubReleases(w, cli);
    if githubReleases.Err? {
      return Err(githubReleases.error);
    }
    var giteeReleases := GiteeReleases(w, cli);
    if giteeReleases.Err? {
      return Err(giteeReleases.error);
    }
    var pending, listed := githubReleases.value, giteeReleases.value;
    ghost var start := w.Now();
    var i := 0;
    while i < |pending|
      invariant i <= |pending|
      invariant SyncAll(w.net, cli, pending, listed, start) == SyncAll(w.net, cli, pending[i..], listed, w.Now())
    {
      assert pending[i..][1..] == pending[i + 1..];
      r := SyncGiteeRelease(w, cli, pending[i], FindByTag(listed, pending[i].tagName));
      if r.Err? {
        return;
      }
      i := i + 1;
    }
    r := Ok(());
  }
}
