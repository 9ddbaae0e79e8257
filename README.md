# release2gitee in Dafny

This project models the decision core of release2gitee, a tool that mirrors the
releases of a GitHub repository onto a Gitee repository. The tool fetches the
latest GitHub releases and the latest hundred Gitee releases. It prunes the
oldest Gitee releases beyond a retention count. Then, oldest GitHub release
first, it creates or updates the Gitee release with the same tag, and finally
downloads every asset the Gitee release lacks and uploads it there. The
repository also holds an older variant of the same flow (`src/api.rs`, driven
by `src/main.rs`); it has no update step and no pruning, and always rewrites
`latest.json`.

Modules, one per concern of the source:

- `Model` (`model.dfy`): the records of `src/model.rs`.
  - `Release`, `Asset` (the source's `Assert`) and `Cli`.
  - The written form of a release without its asset list, `ReleaseJson`.
  - The token redactor `mask_token`.
  - Texts are byte sequences, because Rust's `len()` and slicing count bytes.
- `Text` (`text.dfy`): `str::replace` for a non-empty pattern, and its laws.
- `Effects` (`effects.dfy`): the outside world.
  - Every HTTP request the program makes is appended to an effect trace.
  - The registries answer from a `Network`: a fixed function from request to reply. A reply is a transport error, a failed status, or a success with the decoded value.
  - Local files are a map from path to bytes.
  - The class `World` holds the trace and the files and offers one method per primitive: list, POST, PATCH, DELETE, download, GET as a stream, upload, file create, append and write.
  - The class `BodyReader` is a response body read in chunks.
- `ReleaseOrder` (`order.dfy`): the in-place sort by id and the in-place reverse on an array of releases.
- `Lib` (`lib.dfy`): `src/lib.rs`.
  - Each operation is a specification function from a state to a new state and an outcome: `Prune`, `CreateOrUpdate`, `DownloadAll`, `UploadAll`, `SyncOne`, `SyncAll`, `Run`.
  - Lemmas state what the operation promises.
  - An imperative method carrying the source's loop is proved to compute exactly that function: `(w.Now(), r) == Spec(..., old(w.Now()))`.
- `Api` (`api.dfy`): `src/api.rs` and the loop of `src/main.rs`, in the same style.

The properties are proved for every network, every file map and every
configuration. I/O and the network are not part of the model; they are
reached only through `Network` and `World`.

## Model

| member | source | states |
|---|---|---|
| Model.ToJson | src/model.rs:107-118 | the written form keeps id, tag, name, body, prerelease and target commitish; putting the asset list back gives the release again |
| Model.ToJsonIgnoresAssets | src/model.rs:116-117 | two releases that differ only in their assets are written identically, so assets never enter a create or update payload |
| Model.MaskToken | src/model.rs:85-98 | an absent token reads "None"; a present token keeps its length; byte i is the token's byte when the token is longer than 8 and i < 8, and '*' otherwise |
| Model.MaskTokenRevealsOnlyPrefixAndLength | src/model.rs:90-97 | tokens of equal length that agree on the first 8 bytes (when longer than 8) mask identically |
| Model.MaskShortTokenHidesAll | src/model.rs:95-97 | a token of at most 8 bytes, the empty one included, becomes all '*' |
| Model.Stars | src/model.rs:93 | `"*".repeat(n)` has length n and only '*' |
| Text.ReplaceAllAbsent | src/lib.rs:327 | text without the pattern is returned unchanged |
| Text.ReplaceAllAtFirstMatch | src/lib.rs:327 | the text before the first match is kept, the match becomes the replacement, and the rest is replaced in turn |
| Text.ReplaceAllChanges | src/lib.rs:327 | text containing the pattern changes when the replacement does not agree with the pattern |
| Text.ReplaceAllLeavesNoMatch | src/lib.rs:327 | when no match can straddle an inserted replacement, no match remains |
| Text.ReplaceAllIdempotent | src/lib.rs:327 | under the same condition, replacing twice is replacing once |
| Text.ReplaceAllNotIdempotent | src/lib.rs:327 | a replacement ending in the pattern's first symbol makes a second replacement change the text again |
| Lib.CheckCli | src/lib.rs:17-34 | success exactly when latest ≥ 1, retain ≥ 1 and retain ≥ latest; each error names the first rule broken, in the source's order |
| Lib.GithubRepoUrl | src/lib.rs:322-325 | the URL begins with `https://github.com/` |
| Lib.GiteeRepoUrl | src/lib.rs:326 | the URL begins with `https://gitee.com/` |
| Lib.RepoUrlsDisagree | src/lib.rs:319-329 | the Gitee URL never agrees with the GitHub URL on their common length |
| Lib.ReplaceReleaseBodyUrl | src/lib.rs:331-337 | the identity when `release_body_url_replace` is off, the download-URL rewrite when it is on |
| Lib.ReplaceDownloadUrlWithoutSource | src/lib.rs:319-329 | text that does not mention the GitHub repository URL is unchanged |
| Lib.ReplaceDownloadUrlWithSource | src/lib.rs:319-329 | text that mentions it is always changed |
| Lib.ReplaceDownloadUrlIdempotent | src/lib.rs:319-329 | when no GitHub URL can straddle an inserted Gitee URL, no GitHub URL remains and rewriting twice is rewriting once |
| Lib.ReplaceDownloadUrlNotIdempotent | src/lib.rs:319-329 | when the Gitee repository name ends in `h`, rewriting twice differs from rewriting once |
| Lib.FirstWithTag | src/lib.rs:51-53 | the index of the first release with the tag, or the length when none has it |
| Lib.FindByTag | src/lib.rs:51-53 | none exactly when no release has the tag; otherwise the first release that has it |
| Lib.DecideCreatesUnchanged | src/lib.rs:166-167 | without a counterpart the GitHub release is created, with every written field as GitHub has it and the body not rewritten |
| Lib.DecideKeepsExactlyWhenSame | src/lib.rs:168-195 | with a counterpart nothing is created; nothing is written exactly when name, rewritten body, prerelease and target commitish all agree, and then the Gitee copy is used |
| Lib.DecideUpdate | src/lib.rs:172-186 | an update keeps the Gitee id, tag and assets, takes name, prerelease and target commitish from GitHub and the rewritten body, differs from the Gitee copy, and needs no further update |
| Lib.SecondRunAfterCreate | src/lib.rs:166-175 | a release created from GitHub is updated on the next run exactly when the body flag is on and its body names the GitHub repository |
| Lib.MissingAssetsMembers | src/lib.rs:221-233 | an asset is in the diff exactly when it is a GitHub asset whose name no Gitee asset has |
| Lib.MissingAssetsInOrder | src/lib.rs:221-233 | the diff is a subsequence of the GitHub assets |
| Lib.MissingAssetsEmpty | src/lib.rs:221-233 | the diff is empty exactly when every GitHub asset's name is on Gitee |
| Lib.MissingAssetsByNameOnly | src/lib.rs:225-228 | only names matter: Gitee assets with the same names give the same diff |
| Lib.MissingAssetsFromNothing | src/lib.rs:221-233 | against a Gitee release without assets the diff is every GitHub asset, in order |
| Lib.ReleaseAssetsDiff | src/lib.rs:221-233 | the loop builds exactly the diff |
| Lib.Attempted | src/lib.rs:118-121 | the number of DELETEs issued: all when each succeeds, otherwise up to and including the first failure, all earlier ones having succeeded |
| Lib.DeleteEachTrace | src/lib.rs:118-121 | the delete loop issues the DELETEs of the first `Attempted` releases, in order, and touches no file |
| Lib.DeleteEachOutcome | src/lib.rs:118-121 | the loop fails, with the last request issued, exactly when some DELETE fails |
| Lib.PruneNothing | src/lib.rs:108-110 | with retain ≥ the number of Gitee releases nothing is issued |
| Lib.PruneAllSucceed | src/lib.rs:111-123 | otherwise, when every DELETE succeeds, exactly len − retain DELETEs are issued, for positions retain..len−1 in order |
| Lib.PruneStopsAtFirstFailure | src/lib.rs:118-121 | the first DELETE that fails ends pruning with that request as the error |
| Lib.PruneSparesNewest | src/lib.rs:118 | no file changes, and none of the first `retain` releases is deleted |
| Lib.PruneNewestFirst | src/lib.rs:118-121 | on a newest-first list with distinct ids the DELETEs go in strictly decreasing id order |
| Lib.PruneOnlyDeletes | src/lib.rs:103-124 | pruning issues only DELETEs and touches no file |
| Lib.PrunedCounterpartStillUsed | src/lib.rs:47-54 | the sync loop pairs a GitHub release with the Gitee release found in the list fetched before pruning, even one pruning just deleted |
| Lib.CreateOrUpdateEffects | src/lib.rs:160-218 | no file changes; a POST of the GitHub release exactly without counterpart; no request exactly when the counterpart is up to date; otherwise a PATCH of the refreshed counterpart; the result keeps the counterpart's id, tag and assets; an error is the request that failed |
| Lib.StagedPathsDistinct | src/lib.rs:304-307 | staging paths `<temp>/<repo>/<tag>/<name>` differ when tags or names differ |
| Lib.StagedContentRewrites | src/lib.rs:262-268 | a downloaded file is changed exactly when `latest_json_url_replace` is on, the asset is `latest.json`, and the file names the GitHub repository |
| Lib.DownloadOneSkipsExactlyStaged | src/lib.rs:244-268 | an asset is skipped exactly when its file exists with the size GitHub reports, so always downloaded without a size; a failure leaves files unchanged; a success stores the possibly rewritten body |
| Lib.DownloadAllFacts | src/lib.rs:236-271 | the loop issues only downloads, creates or changes only files of the staging directory and leaves every other file as it was, stages every asset when it succeeds, fails with its last request, and issues nothing only when every asset is already staged |
| Lib.UploadOneSkipsExactlyMissing | src/lib.rs:284-298 | an asset is skipped exactly when its file is missing; otherwise the file is sent to the Gitee release |
| Lib.UploadAllFacts | src/lib.rs:274-301 | no file changes; every upload sends a staged file as it is to the given release; a present first file means something is sent |
| Lib.UploadAllComplete | src/lib.rs:284-299 | with every file staged and every upload succeeding, each asset is sent once, in order |
| Lib.SyncOneEffects | src/lib.rs:127-150 | syncing one release issues only: a POST for a tag missing from the Gitee list, a PATCH of the listed release with that tag, downloads and uploads |
| Lib.SyncOneQuietExactlyWhenUpToDate | src/lib.rs:133-142 | with a counterpart, no request is issued exactly when it is up to date and the diff is empty, and then nothing changes |
| Lib.SyncOneEmptyDiffNoTransfer | src/lib.rs:133-140 | whenever the created, updated or kept Gitee release has every GitHub asset name, the sync ends after that step: no download, no upload, no file change, at most one POST or PATCH |
| Lib.SyncAllEffects | src/lib.rs:50-55 | the sync loop issues only what a single sync may, and removes no file |
| Lib.RunStopsAtFailedList | src/lib.rs:36-47 | a failed list request ends the run at once, with that request as the error; a failed DELETE ends the run with the pruned state and that DELETE as the error |
| Lib.RunOrder | src/lib.rs:36-57 | the two list requests come first, then DELETEs only, then only requests of the sync loop |
| Lib.Normalise | src/lib.rs:66-68 | the list becomes a newest-first permutation of the decoded list |
| Lib.GithubReleases | src/lib.rs:60-74 | one list request; an error exactly when it fails; otherwise a newest-first permutation of the decoded list |
| Lib.GiteeReleases | src/lib.rs:77-91 | the same for the Gitee list, with a page size of 100 |
| Lib.CleanOldestGiteeReleases | src/lib.rs:103-124 | the loop does exactly what `Prune` says |
| Lib.GiteeReleaseCreateOrUpdate | src/lib.rs:160-218 | the method does exactly what `CreateOrUpdate` says |
| Lib.DownloadAsset | src/lib.rs:244-268 | one pass of the download loop does exactly what `DownloadOne` says |
| Lib.DownloadReleaseAssets | src/lib.rs:236-271 | the loop does exactly what `DownloadAll` says |
| Lib.UploadReleaseAssets | src/lib.rs:274-301 | the loop, with its `continue`, does exactly what `UploadAll` says |
| Lib.SyncRelease | src/lib.rs:127-150 | the method does exactly what `SyncOne` says |
| Lib.SyncGithubReleasesToGitee | src/lib.rs:36-57 | the run does exactly what `Run` says for the two lists as sorted, each a newest-first permutation of what its registry sent |
| ReleaseOrder.ReversedAt | src/lib.rs:67 | the reverse has the same length and element k at position n−1−k |
| ReleaseOrder.ReversedPermutes | src/lib.rs:67 | reversing keeps every element and its multiplicity |
| ReleaseOrder.ReversedSortedIsNewestFirst | src/lib.rs:66-67 | reversing an ascending list gives a newest-first list |
| ReleaseOrder.ReversedNewestFirstIsOldestFirst | src/lib.rs:50 | walking a newest-first list backwards visits releases in ascending id order, strictly when ids are distinct |
| ReleaseOrder.NewestFirstStrict | src/lib.rs:66-67 | with distinct ids, newest first is strictly decreasing |
| ReleaseOrder.NewestFirstUnique | src/lib.rs:66-67 | with distinct ids, any two newest-first permutations of a list are equal |
| ReleaseOrder.Swap | src/lib.rs:66 | two elements exchange places and nothing else changes |
| ReleaseOrder.InsertLeft | src/lib.rs:66 | one insertion step extends the sorted prefix and permutes the array |
| ReleaseOrder.SortByKey | src/lib.rs:66 | `sort_by_key`: the array is sorted by the key and is a permutation of its old contents |
| ReleaseOrder.ReverseInPlace | src/lib.rs:67 | `reverse`: the array holds its old contents reversed |
| ReleaseOrder.NewestFirstInPlace | src/lib.rs:66-67 | the array becomes a newest-first permutation of its old contents |
| Api.GithubReleases | src/api.rs:16-38 | one list request; an error exactly when it fails; otherwise the decoded list reversed, with no sort |
| Api.GiteeReleases | src/api.rs:41-61 | one list request of 100; the decoded list in the order received |
| Api.CreateIfAbsentRules | src/api.rs:80-84 | a POST of the GitHub release exactly when there is no counterpart; a counterpart is used unchanged, with no request |
| Api.DownloadOneRules | src/api.rs:128-198 | an asset is fetched unless the Gitee release has its name or its file `<tag>/<name>` has the reported size. Only a transport error fails. A failed status changes no file. A body that arrives is kept, with `latest.json` rewritten |
| Api.DownloadIgnoresFlags | src/api.rs:183-195 | neither flag changes what is downloaded or kept |
| Api.UploadOneRules | src/api.rs:210-244 | an asset is sent unless the Gitee release has its name or its file is missing; only a transport error fails |
| Api.DownloadAllFacts | src/api.rs:128-200 | the loop issues only GETs, writes only files of assets the Gitee release lacks, and stops only at a transport error |
| Api.UploadAllFacts | src/api.rs:210-246 | no file changes; every upload sends a staged file of an asset the Gitee release lacks, to that release; stops only at a transport error |
| Api.DownloadAllIsOverMissing | src/api.rs:128-132 | skipping names already on Gitee inside the loop amounts to looping over the asset diff |
| Api.UploadAllIsOverMissing | src/api.rs:210-217 | the same for uploads |
| Api.SyncOneUpToDate | src/api.rs:73-92 | a Gitee release that has every asset name of the GitHub release is left entirely alone |
| Api.SyncOneEffects | src/api.rs:73-92 | one sync issues only a POST for a tag missing from the Gitee list, GETs and uploads |
| Api.SyncAllEffects | src/main.rs:32-35 | the loop issues only what a single sync may and removes no file |
| Api.RunNeverUpdatesOrDeletes | src/main.rs:26-35 | after the two list requests the older path never updates or deletes a release |
| Api.CopyToFile | src/api.rs:166-178 | the file gains exactly the body; the chunks concatenate to the body, each non-empty and at most 8192 bytes; the progress count equals the bytes written |
| Api.DownloadAsset | src/api.rs:128-198 | one pass of the download loop does exactly what `DownloadOne` says |
| Api.DownloadReleaseAssets | src/api.rs:117-201 | the loop does exactly what `DownloadAll` says |
| Api.UploadReleaseAssets | src/api.rs:204-247 | the loop does exactly what `UploadAll` says |
| Api.GiteeReleaseCreate | src/api.rs:95-114 | one POST of the GitHub release; the created release or the failed request |
| Api.SyncGiteeRelease | src/api.rs:73-92 | the method does exactly what `SyncOne` says |
| Api.SyncAllReleases | src/main.rs:26-36 | the run does exactly what `Run` says |
| Effects.BodyReader.Read | src/api.rs:172 | a read delivers the next bytes of the body, at most a buffer's worth, and none exactly at the end |

## Left out

- HTTP transport is not modelled, because the registries are the abstract `Network`. This covers `src/http.rs`: client construction, the retry policy for `api.github.com`, timeouts, headers and tokens. It also covers the `download`/`post`/`patch`/`delete`/`upload` helpers, which are not part of this model; the model takes them to be requests that succeed or fail. A reply that cannot be decoded counts as a failed status.
- `Lib.DownloadOne` leaves the file unchanged when a download fails. How the unshown `download` helper leaves a partly written file is not known.
- Filesystem errors are not modelled: `create_dir(_all)`, `File::create`, `write_all`, `fs::write`, `read_to_string` on a file that is not UTF-8, `multipart::Form::file`, and `response.read` in the middle of a stream. Each of them makes the source return an error, which the model never produces. Directories are not modelled either: a path is its list of components, and `exists` means a file with that path is in the map.
- Path semantics are not modelled: `Path::join` with an absolute or `/`-containing asset name, and `env::temp_dir`, which is a parameter `tempDir`.
- Logging, the progress bar and the `Display` format of `Cli` are not modelled; they only observe. So are clap parsing and serde decoding: configurations and releases arrive already decoded.
- `Model.MaskToken` does not model the panic of `&token[..8]` when byte 8 is inside a multi-byte character, because the model treats text as bytes.
- The 64-bit width of ids and sizes is not modelled: they are unbounded naturals, and no arithmetic on them can overflow in the source.
- `ReleaseOrder.SortByKey` does not state that the sort is stable, although `sort_by_key` is: its contract says only sorted and a permutation. So `Lib.SyncGithubReleasesToGitee` returns the sorted lists as ghost results, since with equal ids several newest-first orders satisfy that contract. With distinct ids `ReleaseOrder.NewestFirstUnique` shows the order is determined.
- `Lib.ReplaceDownloadUrlIdempotent` requires that no GitHub URL can straddle an inserted Gitee URL. Idempotence does not hold in general, as `Lib.ReplaceDownloadUrlNotIdempotent` shows.
- `Api.GithubReleases` uses `githubLatestReleaseCount` as the page size. The source reads a field `lastest_release_count` that the `Cli` of `src/model.rs` does not have.
- `check_cli` is modelled, but its caller is not part of this model, so nothing ties the run to a configuration that passed it.
- Behaviour of the source that the model follows as written:
  - in `src/lib.rs` pruning runs before the sync loop;
  - pairing uses the Gitee list fetched before pruning;
  - every fetched GitHub release is synced;
  - a create sends the GitHub body as fetched, an empty one included, and only an update sends the rewritten body;
  - `target_commitish` is compared and written;
  - excess Gitee releases are deleted in decreasing id order;
  - in `src/lib.rs` a failed download or upload ends the run.
