/**
 * The records of `src/model.rs`: the configuration, the release and asset
 * records exchanged with both registries, and the token redactor used when the
 * configuration is displayed.
 *
 * Every text is a byte sequence: the Rust `String`s are UTF-8, and `len()` and
 * slicing count bytes, so a `char` of this model stands for one byte.
 */
module Model {

  /** One byte of a UTF-8 text or of a file. */
  type byte = c: char | c as int < 256 witness '\0'

  type Bytes = seq<byte>

  datatype Option<T> = None | Some(value: T)

  /** Rust's `Result`: the value, or the error that ended the operation. */
  datatype Result<T, E> = Ok(value: T) | Err(error: E)

  /** An asset attached to a release (the source calls it `Assert`). */
  datatype Asset = Asset(name: Bytes, size: Option<nat>, browserDownloadUrl: Bytes)

  /** A release as either registry reports it. `id` is local to one registry. */
  datatype Release = Release(
    id: nat,
    tagName: Bytes,
    name: Bytes,
    body: Bytes,
    prerelease: bool,
    targetCommitish: Bytes,
    assets: seq<Asset>)

  /**
   * What a create or update request carries: the release without its asset
   * list, which is marked `skip_serializing` and so never written.
   */
  datatype ReleaseJson = ReleaseJson(
    id: nat,
    tagName: Bytes,
    name: Bytes,
    body: Bytes,
    prerelease: bool,
    targetCommitish: Bytes)

  /** A decoded release: the written fields plus the asset list the registry reports. */
  function WithAssets(j: ReleaseJson, assets: seq<Asset>): Release
  {
    Release(j.id, j.tagName, j.name, j.body, j.prerelease, j.targetCommitish, assets)
  }

  /** Serialisation of a `Release`: every field but `assets` is kept. */
  function ToJson(r: Release): (j: ReleaseJson)
    ensures WithAssets(j, r.assets) == r
  {
    ReleaseJson(r.id, r.tagName, r.name, r.body, r.prerelease, r.targetCommitish)
  }

  /** Two releases that differ only in their assets are written identically. */
  lemma ToJsonIgnoresAssets(r: Release, assets: seq<Asset>)
    ensures ToJson(r.(assets := assets)) == ToJson(r)
  {
  }

  /** The command-line configuration (`Cli`); the verbosity flag is left out. */
  datatype Cli = Cli(
    githubOwner: Bytes,
    githubRepo: Bytes,
    githubToken: Option<Bytes>,
    giteeOwner: Bytes,
    giteeRepo: Bytes,
    giteeToken: Bytes,
    githubLatestReleaseCount: nat,
    giteeRetainReleaseCount: nat,
    releaseBodyUrlReplace: bool,
    latestJsonUrlReplace: bool)

  /** How many leading bytes of a long token are shown. */
  const SHOWN_TOKEN_PREFIX: nat := 8

  /** `"*".repeat(n)` */
  function Stars(n: nat): (r: Bytes)
    ensures |r| == n
    ensures forall i :: 0 <= i < n ==> r[i] == '*'
  {
    if n == 0 then [] else Stars(n - 1) + ['*']
  }

  /**
   * `mask_token`: an absent token reads "None"; a token longer than eight
   * bytes keeps its first eight bytes and every later byte becomes '*'; a
   * shorter one (the empty token included) becomes all '*'.
   */
  function MaskToken(token: Option<Bytes>): (r: Bytes)
    ensures token.None? ==> r == "None"
    ensures token.Some? ==> |r| == |token.value|
    ensures token.Some? ==> forall i :: 0 <= i < |r| ==>
      r[i] == if |token.value| > SHOWN_TOKEN_PREFIX && i < SHOWN_TOKEN_PREFIX then token.value[i] else '*'
  {
    match token
    case None => "None"
    case Some(t) =>
      if |t| > SHOWN_TOKEN_PREFIX then t[..SHOWN_TOKEN_PREFIX] + Stars(|t| - SHOWN_TOKEN_PREFIX)
      else Stars(|t|)
  }

  /**
   * The mask reveals nothing but the length of the token and, for a token
   * longer than eight bytes, its first eight bytes.
   */
  lemma MaskTokenRevealsOnlyPrefixAndLength(t1: Bytes, t2: Bytes)
    requires |t1| == |t2|
    requires |t1| > SHOWN_TOKEN_PREFIX ==> t1[..SHOWN_TOKEN_PREFIX] == t2[..SHOWN_TOKEN_PREFIX]
    ensures MaskToken(Some(t1)) == MaskToken(Some(t2))
  {
    var m1, m2 := MaskToken(Some(t1)), MaskToken(Some(t2));
    forall i | 0 <= i < |m1|
      ensures m1[i] == m2[i]
    {
      if |t1| > SHOWN_TOKEN_PREFIX && i < SHOWN_TOKEN_PREFIX {
        assert t1[i] == t1[..SHOWN_TOKEN_PREFIX][i];
      }
    }
  }

  /** A token of at most eight bytes is masked completely. */
  lemma MaskShortTokenHidesAll(t: Bytes)
    requires |t| <= SHOWN_TOKEN_PREFIX
    ensures MaskToken(Some(t)) == Stars(|t|)
  {
  }
}
