# DotSlash release-asset pipeline and dev bundle loader, in Dafny

This project models the release tooling React Native uses to keep its first-party
DotSlash files in step with its GitHub releases, and the dev-mode bundle loader.

A DotSlash file is a JSON-with-comments descriptor, optionally behind a `#!`
interpreter line. It names an artifact and gives, per platform, a list of
providers (HTTP URLs or typed providers) plus the artifact's `size`, `hash`
algorithm and `digest`. The model covers:

- the shared driver `processDotSlashFileInPlace`:
  - validate the file;
  - split off the shebang;
  - offer each platform's providers to a transform, under a suggested file name;
  - edit only the platforms whose transform returned a different array;
  - write back only a changed text, then validate again.
- `validateDotSlashArtifactData`: the size check first, then the digest from a
  hashing subprocess, inside a temporary directory.
- `dangerouslyResignGeneratedFile`, through a signing capability.
- The write script:
  - drops the providers that already point into any React Native release;
  - checks every remaining HTTP provider upstream;
  - puts the new release URL first;
  - re-signs and re-validates the file.
- The upload script:
  - scans each platform's providers for the release's asset URL (the target)
    and an upstream URL;
  - for an asset the release already has, decides between skip, delete,
    download, check and upload, under `force` and `dryRun`.
- The validate script: checks every HTTP provider and changes nothing.
- `loadBundleFromServer`:
  - the bundle URL;
  - request-id filtering in `asyncRequest`;
  - the `Content-Type` gate in front of evaluation;
  - the `pendingRequests` counter behind the loading indicator.

Strings are sequences of UTF-16 code units, as in JavaScript.
`encodeURIComponent` and `decodeURIComponent` are given full definitions,
following section 19.2.6 of ECMA-262 (UTF-8 with percent escapes). Their round
trip is proved.

Effects appear as a trace of actions. External capabilities are function-valued
fields of an environment: the `dotslash` parser, the JSONC parser and editor,
curl, the hashing subprocess, signedsource and the GitHub API.

`Promise.all` is modelled as running the scheduled tasks in list order. The
batch fails with the first failure in list order.

Some behaviours of the code are easy to misread from its usage text or from
the usual expectations for such a tool. The model follows the code:

- **Digest comparison.** The comparison is exact, so it is case-sensitive
  (`DotSlashUtils.DigestComparisonIsCaseSensitive`): a digest written in upper
  case does not match the lower-case output of the hashing tool.
- **Assets the release does not have yet.** The upload script never uploads
  one, with or without `force`. The first clause of
  `UploadReleaseAssets.RunPublish` states this. The usage text says the script
  uploads the assets a DotSlash file references, and that `--force` is needed
  only to overwrite existing ones.
- **Choice of upstream URL.** The scan stops as soon as both a target and an
  upstream are set, so the upstream is the last non-release URL seen before
  that point, not the first one
  (`UploadReleaseAssets.LaterUpstreamBeforeTargetWins`).
- **Leading `v` in the version.** The write script does not strip one
  (`WriteReleaseAssetUrls.VersionIsNotNormalised`). The upload script strips
  one (`UploadReleaseAssets.UploadTagIgnoresOneLeadingV`). The two scripts
  agree only on a version written without a leading `v`.

## Model

| member | source | states |
|---|---|---|
| `UriComponent.DecodeEncode` | scripts/releases/upload-release-assets-for-dotslash.js:121-125 | decodeURIComponent undoes encodeURIComponent on every string that encodes |
| `UriComponent.EncodeFailsOnLoneSurrogates` | scripts/releases/upload-release-assets-for-dotslash.js:89-90 | encodeURIComponent throws exactly on the strings that hold an unpaired surrogate: a high one not followed by a low one, or a low one not preceded by a high one |
| `Utf16.Trim` | scripts/releases/utils/dotslash-utils.js:173 | the trimmed digest is the output with only whitespace and line terminators removed at both ends, and neither end of it is whitespace |
| `Utf16.IndexOf` | packages/react-native/Libraries/Core/Devtools/loadBundleFromServer.js:99 | the index is non-negative exactly when the needle occurs somewhere, and then it is the first occurrence |
| `Utf16.StripTrailing` | packages/react-native/Libraries/Core/Devtools/loadBundleFromServer.js:86 | `/\/+$/` removes only trailing units of the class, and what is left does not end in one |
| `Utf16.StripLeading` | packages/react-native/Libraries/Core/Devtools/loadBundleFromServer.js:86 | `/^\/+/` removes only leading units of the class, and what is left does not start with one |
| `Utf16.AfterLastSlash` | scripts/releases/upload-release-assets-for-dotslash.js:205-208 | the match of `/[^/]*$/` is the suffix after the last `/`, with no `/` inside, and the whole string when it has none |
| `DotSlashUtils.Sanitize` | scripts/releases/utils/dotslash-utils.js:66-70 | the result has the input's length; each unit outside `[A-Za-z0-9.]` becomes `.` and every other unit is kept |
| `DotSlashUtils.SanitizeFixedPoints` | scripts/releases/utils/dotslash-utils.js:66-70 | a name is left unchanged exactly when every unit is a letter, digit or `.`; the output is always such a name; sanitising twice changes nothing |
| `DotSlashUtils.SplitShebang` | scripts/releases/utils/dotslash-utils.js:72-81 | the two parts concatenate to the contents, and the first is empty or a `#!` line ending in `\n` with no other line terminator |
| `DotSlashUtils.ShebangLineIsSplit` | scripts/releases/utils/dotslash-utils.js:75-79 | whenever the contents start with such a line, exactly that line is split off |
| `DotSlashUtils.SplitShebangRoundTrip` | scripts/releases/utils/dotslash-utils.js:72-81 | a shebang line followed by any body splits back into that line and that body |
| `DotSlashUtils.CrLfShebangIsKept` | scripts/releases/utils/dotslash-utils.js:75 | any `#!` line ending in `\r\n`, whatever it holds and whatever follows, is not split off, because `.` does not match `\r` |
| `DotSlashUtils.SuggestedFilename` | scripts/releases/utils/dotslash-utils.js:107-109 | the name part is the sanitised descriptor name, so it is all file-name-safe; it is followed by `-`, the platform verbatim, and `.format` only when a format is given |
| `DotSlashUtils.NeverEditsKeepsText` | scripts/releases/utils/dotslash-utils.js:111-124 | when the transform never returns a different array, the running text is never edited |
| `DotSlashUtils.EditPlatformsSplit` | scripts/releases/utils/dotslash-utils.js:103-125 | the platform loop is a left fold: a prefix that does not throw leaves the text the rest starts from, and its tasks come first |
| `DotSlashUtils.OnePlatformEdit` | scripts/releases/utils/dotslash-utils.js:111-124 | a platform is edited at its own key, with the returned array, exactly when that array is not the one given |
| `DotSlashUtils.ProcessFile` | scripts/releases/utils/dotslash-utils.js:89-131 | validation comes first; an invalid file is neither read nor transformed; at most one write, made exactly when the pass succeeded and changed the text; what is written is the original shebang plus the edited text, validated again; without a write the file is validated only once |
| `DotSlashUtils.NeverEditingTransformNeverWrites` | scripts/releases/utils/dotslash-utils.js:111-130 | a transform that never returns a different array leaves the file system exactly as it was |
| `DotSlashUtils.CheckArtifact` | scripts/releases/utils/dotslash-utils.js:151-182 | a size mismatch fails before any hashing; otherwise the data is hashed once in a temporary directory that is removed on every path, with b3sum exactly for `blake3`; it passes exactly when the size matches and the trimmed output equals the digest |
| `DotSlashUtils.DigestComparisonIsCaseSensitive` | scripts/releases/utils/dotslash-utils.js:173-178 | any trimmed hasher output other than the declared digest, including one differing only in letter case, is a mismatch reporting that output |
| `DotSlashUtils.RunCheck` | scripts/releases/validate-dotslash-artifacts.js:82-93 | a check downloads its URL first, and passes exactly when the download succeeds and the artifact check passes |
| `DotSlashUtils.RunAll` | scripts/releases/write-dotslash-release-asset-urls.js:119 | a batch passes exactly when every task passes, and a failing batch reports the first failing task's error |
| `DotSlashUtils.RunAllTrace` | scripts/releases/write-dotslash-release-asset-urls.js:119 | every task's effects appear whole in the batch's trace, preceded by the traces of the tasks before it and followed by those of the tasks after it |
| `DotSlashUtils.RunAllAppend` | scripts/releases/write-dotslash-release-asset-urls.js:119 | running two lists of tasks one after the other traces the first list's effects, then the second's |
| `DotSlashUtils.ChecksNeverWrite` | scripts/releases/utils/dotslash-utils.js:151-182 | a batch of upstream checks never writes a DotSlash file |
| `DotSlashUtils.HttpUrls` | scripts/releases/validate-dotslash-artifacts.js:72-81 | the URLs collected are exactly those of the providers typed `http` or untyped; a single provider contributes its URL when it is an HTTP one and nothing otherwise |
| `DotSlashUtils.HttpUrlsAppend` | scripts/releases/validate-dotslash-artifacts.js:72-94 | collecting distributes over concatenation, so each HTTP provider contributes its URL once, in provider order |
| `DotSlashUtils.HttpUrlsCount` | scripts/releases/validate-dotslash-artifacts.js:72-94 | as many URLs are collected as there are HTTP providers |
| `DotSlashUtils.HttpChecks` | scripts/releases/validate-dotslash-artifacts.js:72-94 | one check per HTTP provider, in provider order, each against the platform's own size and digest |
| `DotSlashUtils.RunFiles` | scripts/releases/write-dotslash-release-asset-urls.js:65-122 | an empty list does nothing; a first file that fails ends the run with its outcome |
| `DotSlashUtils.RunFilesAppend` | scripts/releases/write-dotslash-release-asset-urls.js:65-122 | files run strictly one after another: a later file starts from the files the earlier ones left, and only if they all succeeded |
| `DotSlashUtils.RunFilesKeepsFiles` | scripts/releases/validate-dotslash-artifacts.js:65-99 | when no single file run changes anything, no run over a list does |
| `DotSlashUtils.RunFilesAllPass` | scripts/releases/validate-dotslash-artifacts.js:65-99 | when no file run changes anything, the run passes exactly when every file passes on its own |
| `DotSlashUtils.Resign` | scripts/releases/utils/dotslash-utils.js:138-149 | re-signing succeeds exactly when signing does, and then replaces only that file's contents with the signed text; on failure nothing is written |
| `WriteReleaseAssetUrls.KeptProvidersMembers` | scripts/releases/write-dotslash-release-asset-urls.js:73-103 | a provider is kept exactly when it is in the list and is not an HTTP provider under the release download prefix |
| `WriteReleaseAssetUrls.KeptProvidersAppend` | scripts/releases/write-dotslash-release-asset-urls.js:73-103 | the filter distributes over concatenation, keeping order |
| `WriteReleaseAssetUrls.KeptProvidersIdempotent` | scripts/releases/write-dotslash-release-asset-urls.js:73-103 | filtering twice is filtering once |
| `WriteReleaseAssetUrls.NewReleaseUrl` | scripts/releases/write-dotslash-release-asset-urls.js:110 | the URL exists exactly when both the tag and the file name encode, and is the prefix, the encoded tag, `/` and the encoded name |
| `WriteReleaseAssetUrls.WriteTransform` | scripts/releases/write-dotslash-release-asset-urls.js:71-117 | one check is scheduled per kept HTTP provider; with none kept it throws having scheduled nothing; otherwise it returns a new array of the release URL followed by the kept providers |
| `WriteReleaseAssetUrls.NewReleaseUrlIsReleaseAsset` | scripts/releases/write-dotslash-release-asset-urls.js:77-79 | the URL the script adds is one it drops again on a later run |
| `WriteReleaseAssetUrls.WriteTransformIdempotent` | scripts/releases/write-dotslash-release-asset-urls.js:71-117 | the transform applied to its own output returns the same providers and schedules the same checks |
| `WriteReleaseAssetUrls.WriteTransformKeepsTyped` | scripts/releases/write-dotslash-release-asset-urls.js:97-102 | typed providers always survive, and no surviving provider points into any React Native release |
| `WriteReleaseAssetUrls.VersionIsNotNormalised` | scripts/releases/write-dotslash-release-asset-urls.js:64 | the tag is `v` plus the version as given, so `v1.0` gives `vv1.0` |
| `WriteReleaseAssetUrls.PlatformWithoutUpstreamFails` | scripts/releases/write-dotslash-release-asset-urls.js:104-109 | a platform left without an upstream HTTP provider makes the platform loop throw |
| `WriteReleaseAssetUrls.NoUpstreamFailsWithoutWrite` | scripts/releases/write-dotslash-release-asset-urls.js:69-121 | such a platform fails the file without any write |
| `WriteReleaseAssetUrls.FailedCheckLeavesFileUnsigned` | scripts/releases/write-dotslash-release-asset-urls.js:119-121 | a failed upstream check leaves the rewritten file unsigned and adds no write; a file that succeeds was checked and then re-signed |
| `UploadReleaseAssets.UploadTagIgnoresOneLeadingV` | scripts/releases/upload-release-assets-for-dotslash.js:84-89 | `1.2.3` and `v1.2.3` give the same tag, and without a leading `v` it is the write script's tag |
| `UploadReleaseAssets.OnlyOneVIsStripped` | scripts/releases/upload-release-assets-for-dotslash.js:85-87 | every version starting `vv` keeps its second `v`: the tag is the version itself |
| `UploadReleaseAssets.AssetPrefix` | scripts/releases/upload-release-assets-for-dotslash.js:89-90 | the asset prefix exists exactly when the tag encodes, and is the download prefix, the encoded tag and `/` |
| `UploadReleaseAssets.ScanFrom` | scripts/releases/upload-release-assets-for-dotslash.js:112-132 | a target found is an HTTP URL under the prefix, named by its decoded suffix; an upstream found is an HTTP URL of the list outside the prefix |
| `UploadReleaseAssets.ScanFinds` | scripts/releases/upload-release-assets-for-dotslash.js:113-132 | when no suffix makes decodeURIComponent throw, the scan completes; it finds a target whenever some HTTP URL lies under the prefix, and then also an upstream whenever some HTTP URL lies outside it, in either order |
| `UploadReleaseAssets.NoPrefixedUrlNoTarget` | scripts/releases/upload-release-assets-for-dotslash.js:113-139 | with no URL under the prefix the scan finds no target, and the platform is skipped |
| `UploadReleaseAssets.ScanAfterTarget` | scripts/releases/upload-release-assets-for-dotslash.js:126-131 | once the target is set, the first HTTP URL outside the prefix becomes the upstream and the loop stops |
| `UploadReleaseAssets.LaterUpstreamBeforeTargetWins` | scripts/releases/upload-release-assets-for-dotslash.js:126-131 | for two upstream URLs before the target, the second is the upstream chosen |
| `UploadReleaseAssets.KeptUrlsOutsidePrefix` | scripts/releases/upload-release-assets-for-dotslash.js:120-128 | no provider the write script keeps lies under the asset prefix of any release, so each counts as an upstream URL in the scan |
| `UploadReleaseAssets.ScanOfWrittenProviders` | scripts/releases/upload-release-assets-for-dotslash.js:112-132 | on the providers the write script produced for the same release, the target is the new URL, named by the suggested file name, and the upstream is the first kept HTTP provider |
| `UploadReleaseAssets.UploadTransform` | scripts/releases/upload-release-assets-for-dotslash.js:133-145 | it never returns a different array; no target gives nothing scheduled; a target without an upstream throws naming the asset; otherwise one task for that target and upstream is scheduled |
| `UploadReleaseAssets.AssetsByNameKeys` | scripts/releases/upload-release-assets-for-dotslash.js:97-99 | the names looked up are exactly the names of the listed assets |
| `UploadReleaseAssets.AssetsByNameLookup` | scripts/releases/upload-release-assets-for-dotslash.js:97-99 | a name maps to the id of the last listed asset of that name |
| `UploadReleaseAssets.ContentType` | scripts/releases/upload-release-assets-for-dotslash.js:200-203 | the download's `content-type` header, or `application/octet-stream` when there is none |
| `UploadReleaseAssets.UploadOutcome` | scripts/releases/upload-release-assets-for-dotslash.js:192-214 | an upload succeeds exactly when the returned URL's decoded last path segment is the requested name, and a different name is reported as a rename |
| `UploadReleaseAssets.RunPublish` | scripts/releases/upload-release-assets-for-dotslash.js:146-219 | an asset the release lacks, or any asset without `force`, gives no action at all; a dry run never deletes or uploads; with `force` and no dry run the existing asset is deleted first, and a failed deletion ends the upload job; otherwise the upstream is downloaded next, in a dry run too, and a failed download is the job's failure with no upload |
| `UploadReleaseAssets.PublishStopsOnFailedCheck` | scripts/releases/upload-release-assets-for-dotslash.js:178-182 | after the download, a failed check is the job's failure and nothing is uploaded |
| `UploadReleaseAssets.PublishUploadsAfterPassingCheck` | scripts/releases/upload-release-assets-for-dotslash.js:183-214 | after a passing check a dry run ends successfully; otherwise the asset is uploaded under its name with the download's content type, after the hashing and as the last action, and the job's outcome is the upload's outcome |
| `UploadReleaseAssets.UploadOnlyAfterPassingCheck` | scripts/releases/upload-release-assets-for-dotslash.js:173-204 | an upload happens only with `force` and no dry run, after a download whose check passed; hashing precedes it, and it carries the download's content type |
| `UploadReleaseAssets.UploadNeverRewritesFiles` | scripts/releases/upload-release-assets-for-dotslash.js:100-224 | the upload script never changes a DotSlash file |
| `ValidateDotSlashArtifacts.ValidateTransform` | scripts/releases/validate-dotslash-artifacts.js:71-96 | it returns the very array it was given, with one check per HTTP provider in order, against that platform's info |
| `ValidateDotSlashArtifacts.PlatformChecksMembers` | scripts/releases/validate-dotslash-artifacts.js:69-97 | a check is scheduled exactly when its URL is an HTTP provider of some platform and it carries that platform's info |
| `ValidateDotSlashArtifacts.ValidatePass` | scripts/releases/validate-dotslash-artifacts.js:69-97 | the platform loop never throws, never edits, and starts every platform's checks in platform order |
| `ValidateDotSlashArtifacts.ValidateFileOutcome` | scripts/releases/validate-dotslash-artifacts.js:65-99 | a file is never changed, and passes exactly when it is a valid descriptor and every check of every platform passes |
| `ValidateDotSlashArtifacts.ValidateNeverWritesAndChecksEveryFile` | scripts/releases/validate-dotslash-artifacts.js:64-100 | the script changes no file, and passes exactly when every file passes |
| `LoadBundleFromServer.BuildUrlForBundle` | packages/react-native/Libraries/Core/Devtools/loadBundleFromServer.js:83-88 | the URL is the server URL less only trailing slashes, exactly one `/`, and the path less only leading slashes |
| `LoadBundleFromServer.ExtraSlashesDoNotMatter` | packages/react-native/Libraries/Core/Devtools/loadBundleFromServer.js:86 | any number of extra slashes at the join gives the same URL, and rebuilding from the stripped halves gives the same URL |
| `LoadBundleFromServer.Hear` | packages/react-native/Libraries/Core/Devtools/loadBundleFromServer.js:32-60 | an event for another request id changes nothing; a completion for this id rejects on a non-empty error and otherwise resolves with the text and headers received so far; a settled request no longer changes; an unsettled request records the id it is assigned and the latest text and headers for its id |
| `LoadBundleFromServer.Own` | packages/react-native/Libraries/Core/Devtools/loadBundleFromServer.js:35 | exactly the events carrying the given request id; a single event is kept exactly when it carries the id |
| `LoadBundleFromServer.OwnAppend` | packages/react-native/Libraries/Core/Devtools/loadBundleFromServer.js:35 | selecting a request's events distributes over concatenation, so they keep their order and multiplicity |
| `LoadBundleFromServer.ForeignEventsAreIgnored` | packages/react-native/Libraries/Core/Devtools/loadBundleFromServer.js:33-60 | once the id is assigned, listening to all events is listening to this request's events only |
| `LoadBundleFromServer.EventsBeforeAssignmentAreIgnored` | packages/react-native/Libraries/Core/Devtools/loadBundleFromServer.js:24-72 | before the `sendRequest` callback assigns the id, no event is heard |
| `LoadBundleFromServer.FirstSettlementStands` | packages/react-native/Libraries/Core/Devtools/loadBundleFromServer.js:48-80 | the first completion for the request settles it for good |
| `LoadBundleFromServer.JsonRejection` | packages/react-native/Libraries/Core/Devtools/loadBundleFromServer.js:101-105 | one case per parse outcome: a truthy `message` of the parsed object is the error; an object without one, or with an empty one, and any other non-null value give `Unknown error fetching '<path>'`; a missing or `null` body fails with a TypeError; a body that does not parse fails with the parser's SyntaxError |
| `LoadBundleFromServer.LoadBundle` | packages/react-native/Libraries/Core/Devtools/loadBundleFromServer.js:90-106 | the indicator is shown and the request sent first; a JSON response is rejected with the parsed body's error and is neither registered nor evaluated |
| `LoadBundleFromServer.LoadBundleEvaluatesAdmitted` | packages/react-native/Libraries/Core/Devtools/loadBundleFromServer.js:96-118 | a response is registered or evaluated exactly when it resolved with headers and is not JSON; it is then registered with HMR, then evaluated (with the source URL when the engine offers it); the load fulfils exactly when that evaluation does not throw |
| `LoadBundleFromServer.ContentTypeKeyIsCaseSensitive` | packages/react-native/Libraries/Core/Devtools/loadBundleFromServer.js:97-100 | for any headers without `Content-Type`, adding a lower-case `content-type` key never triggers the gate, while `Content-Type` with `application/json` plus any parameters does |
| `LoadBundleFromServer.Next` | packages/react-native/Libraries/Core/Devtools/loadBundleFromServer.js:119-122 | a start counts up and shows the indicator; a settle counts down and hides it exactly when the count reaches zero |
| `LoadBundleFromServer.IndicatorTracksPendingLoads` | packages/react-native/Libraries/Core/Devtools/loadBundleFromServer.js:93-122 | over any sequence where every settle follows its start, the counter is the number of loads in flight, and the indicator is visible exactly while one is |

## Left out

- Parsing and editing JSON with comments (jsonc-parser `parse`, `modify`, `applyEdits`) are capabilities of the environment. So are the `dotslash -- parse` validation and the `b3sum`/`sha256` subprocesses. The edit is not proved to touch only the `providers` array, because that code is not part of this model.
- curl (`utils/curl-utils.js`) is a capability that returns the body and a string-to-string header map, or fails. HTTP status codes, redirects and curl's array-valued header JSON are not modelled.
- signedsource's signing and the `@generated` token replacement are one capability, `sign`.
- The GitHub API (Octokit) is a set of capabilities of `Release`: list, delete and upload. Listing is a single call with no paging. Authentication is not modelled.
- `new URL(u).pathname` is a capability of `Release`. URL parsing is not modelled.
- Concurrency: scheduled tasks run to completion one after another in list order, and `Promise.all` reports the first failure in list order. The real interleaving, and which rejection JavaScript reports first in time, are not modelled.
- Tasks scheduled before a throw are started but never awaited by the script. Their effects are not part of the model's trace.
- `Object.entries` order: platforms are taken in the order the parser gives them. The integer-like-keys-first rule is not modelled.
- Failures of `mkdtemp`, temporary-file writes and `fs.rm` are not modelled. Only their occurrence and order are recorded.
- The command-line entry points (`main`, `parseArgs`, `--help`, missing-argument errors), all console output and styling, and the fixed list of first-party DotSlash files (`FIRST_PARTY_DOTSLASH_FILES`) are left out. The list of files is a parameter.
- `getDevServer`, the native `Networking` module, `HMRClient`, `LoadingView`, `eval` and `globalEvalWithSourceUrl` appear only as events and effects. The listeners' removal in `finally` is modelled by ignoring events after settlement.
- Provider kinds: a `Typed` provider is meant to carry a `type` other than `http`. The model does not forbid `Typed("http")`; the parser capability is trusted to map `{type: 'http'}` to `Http`.
- Platform keys: `Descriptor.platforms` is not required to have distinct keys. The parser capability is trusted to give each platform once, as a JSON object does.
- LoadBundleFromServer.JsonRejection: `JSON.parse` is reduced to the few outcomes `.message` can distinguish. A truthy non-string `message` is represented by its string form.
- LoadBundleFromServer.IndicatorTracksPendingLoads: the counter is modelled over a sequence of start and settle events. The interleaving of several loads' promise callbacks is not modelled.
- `packages/react-native/ReactCommon/jsinspector-modern/PageTarget.cpp` is not part of this model. It is debugger infrastructure, not part of the release pipeline or the bundle loader.
