/**
 * `upload-release-assets-for-dotslash.js`: for every platform whose providers
 * name an asset of the given release, download the upstream artifact, check
 * it, and publish it under that name. The DotSlash files are only read.
 */
module UploadReleaseAssets {
  import opened Wrappers
  import opened Utf16
  import opened UriComponent
  import opened DotSlashTypes
  import opened DotSlashUtils
  import opened WriteReleaseAssetUrls

  // ---------------------------------------------------------------------------
  // Version, tag and prefix

  /** The version with at most one leading `v` removed. */
  function NormalizeVersion(version: JsString): JsString {
    if StartsWith(version, Lit("v")) then version[1..] else version
  }

  /** `v` followed by the normalised version. */
  function UploadTag(version: JsString): JsString {
    Lit("v") + NormalizeVersion(version)
  }

  /** `1.2.3` and `v1.2.3` name the same release; and for a version without a leading `v`
      the tag is the one the write script forms. */
  lemma UploadTagIgnoresOneLeadingV(version: JsString)
    ensures UploadTag(Lit("v") + version) == Lit("v") + version
    ensures !StartsWith(version, Lit("v")) ==> UploadTag(version) == ReleaseTag(version)
  {
    assert (Lit("v") + version)[..1] == Lit("v");
    assert (Lit("v") + version)[1..] == version;
  }

  /** Only one `v` is stripped: a version starting `vv` keeps its second `v`, so its tag is the
      version itself (`vv1` gives `vv1`, not `v1`). */
  lemma OnlyOneVIsStripped(rest: JsString)
    ensures UploadTag(Lit("vv") + rest) == Lit("vv") + rest
  {
    var version := Lit("vv") + rest;
    assert version[..1] == Lit("v");
    assert version[1..] == Lit("v") + rest;
  }


  /** The prefix of the release's asset URLs: the download prefix, the encoded tag and `/`. */
  function AssetPrefix(version: JsString): (r: Option<JsString>)
    ensures r.Some? <==> Encode(UploadTag(version)).Some?
    ensures r.Some? ==> r.value == ReleaseDownloadPrefix + Encode(UploadTag(version)).value + [SLASH]
  {
    match Encode(UploadTag(version))
    case None => None
    case Some(t) => Some(ReleaseDownloadPrefix + t + [SLASH])
  }

  // ---------------------------------------------------------------------------
  // The provider scan

  /** The asset a target provider names: the decoded URL suffix, and the URL. */
  datatype ReleaseAsset = ReleaseAsset(name: JsString, url: JsString)

  /** The loop variables `targetReleaseAssetInfo` and `upstreamUrl`. */
  datatype Scan = Scan(target: Option<ReleaseAsset>, upstream: Option<JsString>)

  /** The `for (const provider of providers)` loop from the given loop state: typed providers are
      skipped, a URL under `prefix` sets the target, any other URL sets the upstream, and the loop
      stops as soon as both are set. `None` when decodeURIComponent throws. */
  function ScanFrom(ps: seq<Provider>, prefix: JsString, acc: Scan): (r: Option<Scan>)
    // a target found is a provider under the prefix, named by its decoded suffix
    ensures r.Some? && r.value.target.Some? && r.value.target != acc.target ==>
              && r.value.target.value.url in HttpUrls(ps)
              && StartsWith(r.value.target.value.url, prefix)
              && Decode(r.value.target.value.url[|prefix|..]) == Some(r.value.target.value.name)
    // an upstream found is an HTTP URL outside the prefix
    ensures r.Some? && r.value.upstream.Some? && r.value.upstream != acc.upstream ==>
              r.value.upstream.value in HttpUrls(ps) && !StartsWith(r.value.upstream.value, prefix)
    decreases |ps|
  {
    if ps == [] then Some(acc)
    else
      match ps[0]
      case Typed(_) =>
        var r := ScanFrom(ps[1..], prefix, acc);
        assert HttpUrls(ps) == HttpUrls(ps[1..]);
        r
      case Http(url, _) =>
        assert HttpUrls(ps) == [url] + HttpUrls(ps[1..]);
        if StartsWith(url, prefix) then
          match Decode(url[|prefix|..])
          case None => None
          case Some(name) =>
            var next := Scan(Some(ReleaseAsset(name, url)), acc.upstream);
            if next.upstream.Some? then Some(next) else ScanFrom(ps[1..], prefix, next)
        else
          var next := Scan(acc.target, Some(url));
          if next.target.Some? then Some(next) else ScanFrom(ps[1..], prefix, next)
  }

  /** The scan from its initial state. */
  function ScanProviders(ps: seq<Provider>, prefix: JsString): Option<Scan> {
    ScanFrom(ps, prefix, Scan(None, None))
  }

  /** Some URL of the list lies under the prefix. */
  predicate HasPrefixed(urls: seq<JsString>, prefix: JsString) {
    exists u :: u in urls && StartsWith(u, prefix)
  }

  /** Some URL of the list lies outside the prefix. */
  predicate HasOutside(urls: seq<JsString>, prefix: JsString) {
    exists u :: u in urls && !StartsWith(u, prefix)
  }

  /** Every URL of the list under the prefix has a suffix decodeURIComponent accepts. */
  predicate PrefixedDecode(urls: seq<JsString>, prefix: JsString) {
    forall u :: u in urls && StartsWith(u, prefix) ==> Decode(u[|prefix|..]).Some?
  }

  /** When no suffix makes decodeURIComponent throw, the scan completes; it finds a target
      whenever some HTTP URL lies under the prefix, and then also an upstream whenever some
      HTTP URL lies outside it, in whichever order the two come. */
  lemma {:induction false} ScanFinds(ps: seq<Provider>, prefix: JsString, acc: Scan)
    requires PrefixedDecode(HttpUrls(ps), prefix)
    ensures ScanFrom(ps, prefix, acc).Some?
    ensures acc.target.Some? || HasPrefixed(HttpUrls(ps), prefix) ==> ScanFrom(ps, prefix, acc).value.target.Some?
    ensures (acc.target.Some? || HasPrefixed(HttpUrls(ps), prefix))
            && (acc.upstream.Some? || HasOutside(HttpUrls(ps), prefix)) ==>
              ScanFrom(ps, prefix, acc).value.upstream.Some?
    decreases |ps|
  {
    if ps != [] {
      var rest := HttpUrls(ps[1..]);
      match ps[0]
      case Typed(_) =>
        assert HttpUrls(ps) == rest;
        ScanFinds(ps[1..], prefix, acc);
      case Http(url, _) =>
        assert HttpUrls(ps) == [url] + rest;
        assert PrefixedDecode(rest, prefix);
        if StartsWith(url, prefix) {
          var next := Scan(Some(ReleaseAsset(Decode(url[|prefix|..]).value, url)), acc.upstream);
          if next.upstream.None? {
            if HasOutside(HttpUrls(ps), prefix) {
              var u :| u in HttpUrls(ps) && !StartsWith(u, prefix);
              assert u in rest;
            }
            ScanFinds(ps[1..], prefix, next);
          }
        } else {
          var next := Scan(acc.target, Some(url));
          if next.target.None? {
            if HasPrefixed(HttpUrls(ps), prefix) {
              var u :| u in HttpUrls(ps) && StartsWith(u, prefix);
              assert u in rest;
            }
            ScanFinds(ps[1..], prefix, next);
          }
        }
    }
  }

  /** No HTTP URL under the prefix: no target, whatever else the list holds. */
  lemma {:induction false} NoPrefixedUrlNoTarget(ps: seq<Provider>, prefix: JsString, acc: Scan)
    requires acc.target.None?
    requires forall u :: u in HttpUrls(ps) ==> !StartsWith(u, prefix)
    ensures ScanFrom(ps, prefix, acc).Some? && ScanFrom(ps, prefix, acc).value.target.None?
    decreases |ps|
  {
    if ps != [] {
      if ps[0].Http? {
        assert HttpUrls(ps) == [ps[0].url] + HttpUrls(ps[1..]);
        NoPrefixedUrlNoTarget(ps[1..], prefix, Scan(None, Some(ps[0].url)));
      } else {
        NoPrefixedUrlNoTarget(ps[1..], prefix, acc);
      }
    }
  }

  /** Once the target is set, the first HTTP URL outside the prefix is taken as upstream and the
      loop stops there. */
  lemma {:induction false} ScanAfterTarget(ps: seq<Provider>, prefix: JsString, t: ReleaseAsset)
    requires |HttpUrls(ps)| > 0
    requires forall u :: u in HttpUrls(ps) ==> !StartsWith(u, prefix)
    ensures ScanFrom(ps, prefix, Scan(Some(t), None)) == Some(Scan(Some(t), Some(HttpUrls(ps)[0])))
    decreases |ps|
  {
    if ps[0].Typed? {
      assert HttpUrls(ps) == HttpUrls(ps[1..]);
      ScanAfterTarget(ps[1..], prefix, t);
    } else {
      assert HttpUrls(ps) == [ps[0].url] + HttpUrls(ps[1..]);
    }
  }

  /** The loop stops at the first point where both are set: with two upstream URLs before the
      target, the second upstream is the one kept. */
  lemma LaterUpstreamBeforeTargetWins(u1: JsString, u2: JsString, t: JsString, prefix: JsString)
    requires !StartsWith(u1, prefix) && !StartsWith(u2, prefix) && StartsWith(t, prefix)
    requires Decode(t[|prefix|..]).Some?
    ensures ScanProviders([Http(u1, false), Http(u2, false), Http(t, false)], prefix)
              == Some(Scan(Some(ReleaseAsset(Decode(t[|prefix|..]).value, t)), Some(u2)))
  {
    var ps := [Http(u1, false), Http(u2, false), Http(t, false)];
    var name := Decode(t[|prefix|..]).value;
    assert ps[1..] == [Http(u2, false), Http(t, false)];
    assert ps[1..][1..] == [Http(t, false)];
    assert ScanFrom(ps[1..][1..], prefix, Scan(None, Some(u2))) == Some(Scan(Some(ReleaseAsset(name, t)), Some(u2)));
    assert ScanFrom(ps[1..], prefix, Scan(None, Some(u1))) == ScanFrom(ps[1..][1..], prefix, Scan(None, Some(u2)));
    assert ScanFrom(ps, prefix, Scan(None, None)) == ScanFrom(ps[1..], prefix, Scan(None, Some(u1)));
  }

  /** No provider the write script keeps lies under any asset prefix of a release. */
  lemma KeptUrlsOutsidePrefix(ps: seq<Provider>, tag: JsString)
    ensures forall u :: u in HttpUrls(KeptProviders(ps)) ==> !StartsWith(u, ReleaseDownloadPrefix + tag + [SLASH])
  {
    var prefix := ReleaseDownloadPrefix + tag + [SLASH];
    assert prefix == ReleaseDownloadPrefix + (tag + [SLASH]);
    forall u | u in HttpUrls(KeptProviders(ps)) ensures !StartsWith(u, prefix) {
      var p :| p in KeptProviders(ps) && p.Http? && p.url == u;
      KeptProvidersMembers(ps, p);
      StartsWithConcat(u, ReleaseDownloadPrefix, tag + [SLASH]);
    }
  }

  /** On what the write script produces for the same release (the new release URL, then the
      kept providers), the target is that URL, named by the suggested file name, and the
      upstream is the first kept HTTP provider. */
  lemma ScanOfWrittenProviders(version: JsString, uploadVersion: JsString, ps: seq<Provider>,
                               filename: JsString, info: ArtifactInfo)
    requires WriteTransform(version, ps, filename, info).Returned?
    requires ReleaseTag(version) == UploadTag(uploadVersion)
    ensures AssetPrefix(uploadVersion).Some?
    ensures var out := WriteTransform(version, ps, filename, info).value.providers;
            ScanProviders(out, AssetPrefix(uploadVersion).value)
              == Some(Scan(Some(ReleaseAsset(filename, out[0].url)), Some(HttpUrls(KeptProviders(ps))[0])))
  {
    var prefix := AssetPrefix(uploadVersion).value;
    var tag := Encode(ReleaseTag(version)).value;
    var f := Encode(filename).value;
    var url := NewReleaseUrl(ReleaseTag(version), filename).value;
    var kept := KeptProviders(ps);
    var out := [Http(url, false)] + kept;
    assert WriteTransform(version, ps, filename, info).value.providers == out;
    assert prefix == ReleaseDownloadPrefix + tag + [SLASH];
    assert url == prefix + f;
    assert url[..|prefix|] == prefix;
    assert url[|prefix|..] == f;
    DecodeEncode(filename);
    assert out[1..] == kept;
    var target := ReleaseAsset(filename, url);
    assert ScanFrom(out, prefix, Scan(None, None)) == ScanFrom(kept, prefix, Scan(Some(target), None));
    KeptUrlsOutsidePrefix(ps, tag);
    ScanAfterTarget(kept, prefix, target);
  }

  // ---------------------------------------------------------------------------
  // The transform

  /** The closure scheduled for one platform with a target and an upstream. */
  datatype PublishTask = PublishTask(target: ReleaseAsset, upstream: JsString, info: ArtifactInfo)

  /** The transform the script hands to `processDotSlashFileInPlace`. It returns `undefined`
      on every path. */
  function UploadTransform(prefix: JsString, ps: seq<Provider>, filename: JsString, info: ArtifactInfo): (r: Step<PublishTask>)
    ensures r.Returned? ==> r.value == Nullish
    // no target: nothing scheduled; a target without an upstream: a throw
    ensures ScanProviders(ps, prefix).Some? && ScanProviders(ps, prefix).value.target.None? ==> r == Returned(Nullish, [])
    ensures var s := ScanProviders(ps, prefix);
            s.Some? && s.value.target.Some? && s.value.upstream.None? ==>
              r == Threw(NoUpstreamUrl(s.value.target.value.name), [])
    ensures var s := ScanProviders(ps, prefix);
            s.Some? && s.value.target.Some? && s.value.upstream.Some? ==>
              r == Returned(Nullish, [PublishTask(s.value.target.value, s.value.upstream.value, info)])
    ensures ScanProviders(ps, prefix).None? ==> r == Threw(UriError, [])
  {
    match ScanProviders(ps, prefix)
    case None => Threw(UriError, [])
    case Some(scan) =>
      if scan.target.None? then Returned(Nullish, [])
      else if scan.upstream.None? then Threw(NoUpstreamUrl(scan.target.value.name), [])
      else Returned(Nullish, [PublishTask(scan.target.value, scan.upstream.value, info)])
  }

  // ---------------------------------------------------------------------------
  // The per-asset task

  /** A release asset as `listReleaseAssets` reports it. */
  datatype Asset = Asset(name: JsString, id: int)

  /** The release's GitHub API: its listed assets (`None` when listing fails), deletion,
      upload (returning `browser_download_url`), and the `pathname` of `new URL(u)`. */
  datatype Release = Release(
    listed: Option<seq<Asset>>,
    delete: int -> bool,
    upload: (JsString, seq<Byte>, JsString) -> Option<JsString>,
    pathname: JsString -> Option<JsString>)

  /** `new Map(assets.map(a => [a.name, a]))`: a later asset of the same name wins. */
  function AssetsByName(assets: seq<Asset>): (r: map<JsString, int>)
    ensures |assets| > 0 ==> assets[|assets| - 1].name in r && r[assets[|assets| - 1].name] == assets[|assets| - 1].id
    decreases |assets|
  {
    if assets == [] then map[]
    else AssetsByName(assets[..|assets| - 1])[assets[|assets| - 1].name := assets[|assets| - 1].id]
  }

  /** Every listed name, and only those, is a key; each maps to the id of its last asset. */
  lemma {:induction false} AssetsByNameLookup(assets: seq<Asset>, i: nat)
    requires i < |assets| && IsLastNamed(assets, i)
    ensures assets[i].name in AssetsByName(assets) && AssetsByName(assets)[assets[i].name] == assets[i].id
    decreases |assets|
  {
    if i < |assets| - 1 {
      var init := assets[..|assets| - 1];
      assert init[i] == assets[i];
      assert IsLastNamed(init, i) by {
        forall j | i < j < |init| ensures init[j].name != init[i].name {
          assert init[j] == assets[j];
        }
      }
      AssetsByNameLookup(init, i);
    }
  }

  lemma {:induction false} AssetsByNameKeys(assets: seq<Asset>, n: JsString)
    ensures n in AssetsByName(assets) <==> exists i :: 0 <= i < |assets| && assets[i].name == n
    decreases |assets|
  {
    if assets != [] {
      var init := assets[..|assets| - 1];
      AssetsByNameKeys(init, n);
      if exists i :: 0 <= i < |init| && init[i].name == n {
        var i :| 0 <= i < |init| && init[i].name == n;
        assert assets[i] == init[i];
      }
      if exists i :: 0 <= i < |assets| && assets[i].name == n {
        var i :| 0 <= i < |assets| && assets[i].name == n;
        if i < |init| {
          assert init[i] == assets[i];
        }
      }
    }
  }

  /** No later asset has the same name as asset `i`. */
  predicate IsLastNamed(assets: seq<Asset>, i: nat)
    requires i < |assets|
  {
    forall j :: i < j < |assets| ==> assets[j].name != assets[i].name
  }

  /** `headers['content-type'] ?? 'application/octet-stream'`. */
  function ContentType(headers: map<JsString, JsString>): (r: JsString)
    ensures Lit("content-type") in headers ==> r == headers[Lit("content-type")]
    ensures Lit("content-type") !in headers ==> r == Lit("application/octet-stream")
  {
    if Lit("content-type") in headers then headers[Lit("content-type")] else Lit("application/octet-stream")
  }

  /** After an upload: the decoded last path segment of the returned URL must be the name asked for. */
  function UploadOutcome(release: Release, name: JsString, data: seq<Byte>, contentType: JsString, targetUrl: JsString): (r: Option<Error>)
    ensures r.None? <==>
              && release.upload(name, data, contentType).Some?
              && release.pathname(release.upload(name, data, contentType).value).Some?
              && Decode(AfterLastSlash(release.pathname(release.upload(name, data, contentType).value).value)) == Some(name)
    // an upload that comes back under another name is reported as a rename
    ensures var url := release.upload(name, data, contentType);
            url.Some? && release.pathname(url.value).Some? && Decode(AfterLastSlash(release.pathname(url.value).value)).Some? ==>
              var actual := Decode(AfterLastSlash(release.pathname(url.value).value)).value;
              actual != name ==> r == Some(AssetRenamed(name, actual, targetUrl))
  {
    match release.upload(name, data, contentType)
    case None => Some(ApiFailed)
    case Some(downloadUrl) =>
      match release.pathname(downloadUrl)
      case None => Some(InvalidUrl(downloadUrl))
      case Some(path) =>
        match Decode(AfterLastSlash(path))
        case None => Some(UriError)
        case Some(actual) => if actual != name then Some(AssetRenamed(name, actual, targetUrl)) else None
  }

  /** `a` occurs in `trace` strictly before `b`. */
  predicate Precedes(trace: seq<Action>, a: Action, b: Action) {
    exists i, j :: 0 <= i < j < |trace| && trace[i] == a && trace[j] == b
  }

  predicate Uploads(trace: seq<Action>) {
    exists i :: 0 <= i < |trace| && trace[i].UploadAsset?
  }

  predicate Deletes(trace: seq<Action>) {
    exists i :: 0 <= i < |trace| && trace[i].DeleteAsset?
  }

  /** The scheduled task for one asset, as written: an asset that does not exist yet is left
      alone, an existing one is skipped unless `force`, and with `force` it is deleted (unless
      `dryRun`), downloaded, checked and uploaded again (unless `dryRun`). */
  function RunPublish(env: Env, release: Release, byName: map<JsString, int>, force: bool, dryRun: bool,
                      task: PublishTask): (r: Checked)
    // absent, or present without force: nothing at all happens
    ensures task.target.name !in byName || !force ==> r == Checked(None, [])
    // a dry run never deletes and never uploads
    ensures dryRun ==> !Deletes(r.trace) && !Uploads(r.trace)
    // with force and no dry run the existing asset is deleted first
    ensures task.target.name in byName && force && !dryRun ==>
              |r.trace| > 0 && r.trace[0] == DeleteAsset(byName[task.target.name])
    // a failed deletion ends the upload job there
    ensures task.target.name in byName && force && !dryRun && !release.delete(byName[task.target.name]) ==>
              r == Checked(Some(ApiFailed), [DeleteAsset(byName[task.target.name])])
    // otherwise the upstream is downloaded next, in a dry run too
    ensures Proceeds(release, byName, force, dryRun, task) ==>
              |r.trace| > (if dryRun then 0 else 1) && r.trace[if dryRun then 0 else 1] == Fetch(task.upstream)
    ensures Proceeds(release, byName, force, dryRun, task) && env.fetch(task.upstream).None? ==>
              r.failure == Some(FetchFailed(task.upstream)) && !Uploads(r.trace)
  {
    var name := task.target.name;
    if name !in byName || !force then Checked(None, [])
    else
      var id := byName[name];
      var deletion := if dryRun then [] else [DeleteAsset(id)];
      if !dryRun && !release.delete(id) then Checked(Some(ApiFailed), deletion)
      else
        match env.fetch(task.upstream)
        case None => Checked(Some(FetchFailed(task.upstream)), deletion + [Fetch(task.upstream)])
        case Some(response) =>
          var check := CheckArtifact(env.hasher, response.data, task.info);
          var checked := deletion + [Fetch(task.upstream)] + check.trace;
          if check.failure.Some? then Checked(check.failure, checked)
          else if dryRun then Checked(None, checked)
          else
            var contentType := ContentType(response.headers);
            var uploaded := checked + [UploadAsset(name, contentType)];
            Checked(UploadOutcome(release, name, response.data, contentType, task.target.url), uploaded)
  }

  /** The upload job goes past the skip and the deletion: the asset exists, `force` is set, and either
      this is a dry run or the deletion succeeded. */
  predicate Proceeds(release: Release, byName: map<JsString, int>, force: bool, dryRun: bool, task: PublishTask) {
    task.target.name in byName && force && (dryRun || release.delete(byName[task.target.name]))
  }

  /** Once downloaded, the artifact is checked: a failed check is the job's failure, and
      nothing is uploaded. */
  lemma PublishStopsOnFailedCheck(env: Env, release: Release, byName: map<JsString, int>, force: bool, dryRun: bool,
                                  task: PublishTask)
    requires Proceeds(release, byName, force, dryRun, task) && env.fetch(task.upstream).Some?
    requires CheckArtifact(env.hasher, env.fetch(task.upstream).value.data, task.info).failure.Some?
    ensures RunPublish(env, release, byName, force, dryRun, task).failure
              == CheckArtifact(env.hasher, env.fetch(task.upstream).value.data, task.info).failure
    ensures !Uploads(RunPublish(env, release, byName, force, dryRun, task).trace)
  {
    var check := CheckArtifact(env.hasher, env.fetch(task.upstream).value.data, task.info);
    var deletion := if dryRun then [] else [DeleteAsset(byName[task.target.name])];
    var trace := deletion + [Fetch(task.upstream)] + check.trace;
    assert RunPublish(env, release, byName, force, dryRun, task) == Checked(check.failure, trace);
    assert check.trace == [] || check.trace == [MakeTempDir, WriteTempFile, RunHasher(HashCommandFor(task.info.hash)), RemoveTempDir];
    forall i | 0 <= i < |trace| ensures !trace[i].UploadAsset? {
      if i >= |deletion| + 1 {
        assert trace[i] == check.trace[i - |deletion| - 1];
      }
    }
  }

  /** A passing check ends a dry run successfully, and otherwise is followed by the upload
      under the asset's name with the download's content type, whose outcome is the job's. */
  lemma PublishUploadsAfterPassingCheck(env: Env, release: Release, byName: map<JsString, int>, force: bool, dryRun: bool,
                                        task: PublishTask)
    requires Proceeds(release, byName, force, dryRun, task) && env.fetch(task.upstream).Some?
    requires CheckArtifact(env.hasher, env.fetch(task.upstream).value.data, task.info).failure.None?
    ensures dryRun ==> RunPublish(env, release, byName, force, dryRun, task).failure.None?
    ensures var response := env.fetch(task.upstream).value;
            var r := RunPublish(env, release, byName, force, dryRun, task);
            !dryRun ==>
              && Uploads(r.trace)
              && r.trace[|r.trace| - 1] == UploadAsset(task.target.name, ContentType(response.headers))
              && Precedes(r.trace, RunHasher(HashCommandFor(task.info.hash)),
                          UploadAsset(task.target.name, ContentType(response.headers)))
              && r.failure == UploadOutcome(release, task.target.name, response.data,
                                            ContentType(response.headers), task.target.url)
  {
    var response := env.fetch(task.upstream).value;
    var check := CheckArtifact(env.hasher, response.data, task.info);
    var deletion := if dryRun then [] else [DeleteAsset(byName[task.target.name])];
    var checked := deletion + [Fetch(task.upstream)] + check.trace;
    if dryRun {
      assert RunPublish(env, release, byName, force, dryRun, task) == Checked(None, checked);
    } else {
      var upload := UploadAsset(task.target.name, ContentType(response.headers));
      var outcome := UploadOutcome(release, task.target.name, response.data, ContentType(response.headers), task.target.url);
      assert RunPublish(env, release, byName, force, dryRun, task) == Checked(outcome, checked + [upload]);
      assert (checked + [upload])[|checked|] == upload;
      assert check.trace[2] == RunHasher(HashCommandFor(task.info.hash));
      assert (checked + [upload])[4] == check.trace[2];
    }
  }

  /** An upload happens only with force and without dry run, after a download whose check passed,
      hashing before uploading, and with the download's content type. */
  lemma UploadOnlyAfterPassingCheck(env: Env, release: Release, byName: map<JsString, int>, force: bool, dryRun: bool,
                                    task: PublishTask)
    requires Uploads(RunPublish(env, release, byName, force, dryRun, task).trace)
    ensures !dryRun && force && task.target.name in byName
    ensures env.fetch(task.upstream).Some?
    ensures CheckArtifact(env.hasher, env.fetch(task.upstream).value.data, task.info).failure.None?
    ensures Precedes(RunPublish(env, release, byName, force, dryRun, task).trace,
                     RunHasher(HashCommandFor(task.info.hash)),
                     UploadAsset(task.target.name, ContentType(env.fetch(task.upstream).value.headers)))
  {
    var name := task.target.name;
    assert name in byName && force && !dryRun;
    assert release.delete(byName[name]);
    assert env.fetch(task.upstream).Some?;
    var check := CheckArtifact(env.hasher, env.fetch(task.upstream).value.data, task.info);
    if check.failure.Some? {
      PublishStopsOnFailedCheck(env, release, byName, force, dryRun, task);
    }
    PublishUploadsAfterPassingCheck(env, release, byName, force, dryRun, task);
  }

  // ---------------------------------------------------------------------------
  // The script

  /** One file: run the driver with the upload transform, then await every scheduled task. */
  function UploadForFile(env: Env, release: Release, byName: map<JsString, int>, prefix: JsString,
                         force: bool, dryRun: bool, fs: FileSystem, path: JsString): Run
  {
    var d := ProcessFile(env, fs, path, (ps, f, a) => UploadTransform(prefix, ps, f, a));
    if d.run.failure.Some? then d.run
    else
      var batch := RunAll((t: PublishTask) => RunPublish(env, release, byName, force, dryRun, t), d.scheduled);
      Run(d.run.fs, d.run.trace + batch.trace, batch.failure)
  }

  /** `uploadReleaseAssetsForDotSlash({version, releaseId, force, dryRun})` over the given files. */
  function UploadReleaseAssetsForDotSlash(env: Env, release: Release, version: JsString, force: bool, dryRun: bool,
                                          fs: FileSystem, paths: seq<JsString>): Run
  {
    match AssetPrefix(version)
    case None => Run(fs, [], Some(UriError))
    case Some(prefix) =>
      match release.listed
      case None => Run(fs, [ListAssets], Some(ApiFailed))
      case Some(assets) =>
        var byName := AssetsByName(assets);
        var files := RunFiles((fs': FileSystem, p: JsString) => UploadForFile(env, release, byName, prefix, force, dryRun, fs', p), fs, paths);
        Run(files.fs, [ListAssets] + files.trace, files.failure)
  }

  /** The upload script never rewrites a DotSlash file. */
  lemma UploadNeverRewritesFiles(env: Env, release: Release, version: JsString, force: bool, dryRun: bool,
                                 fs: FileSystem, paths: seq<JsString>)
    ensures UploadReleaseAssetsForDotSlash(env, release, version, force, dryRun, fs, paths).fs == fs
  {
    if AssetPrefix(version).Some? && release.listed.Some? {
      var prefix := AssetPrefix(version).value;
      var byName := AssetsByName(release.listed.value);
      var perFile := (fs': FileSystem, p: JsString) => UploadForFile(env, release, byName, prefix, force, dryRun, fs', p);
      var transform := (ps, f, a) => UploadTransform(prefix, ps, f, a);
      assert NeverEdits(transform);
      forall fs': FileSystem, p: JsString ensures perFile(fs', p).fs == fs' {
        NeverEditingTransformNeverWrites(env, fs', p, transform);
      }
      RunFilesKeepsFiles(perFile, fs, paths);
    }
  }
}
