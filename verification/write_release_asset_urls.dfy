/**
 * `write-dotslash-release-asset-urls.js`: before a release, point every
 * platform of each first-party DotSlash file at the release's own asset URL,
 * after checking that the upstream providers still serve the declared bytes.
 */
module WriteReleaseAssetUrls {
  import opened Wrappers
  import opened Utf16
  import opened UriComponent
  import opened DotSlashTypes
  import opened DotSlashUtils

  /** `https://github.com/facebook/react-native/releases/download/`, the download prefix shared
      by every React Native release (spelt out as code units to keep the solver from
      re-deriving them). */
  const ReleaseDownloadPrefix: JsString := [
    0x68, 0x74, 0x74, 0x70, 0x73, 0x3a, 0x2f, 0x2f, 0x67, 0x69, 0x74, 0x68,
    0x75, 0x62, 0x2e, 0x63, 0x6f, 0x6d, 0x2f, 0x66, 0x61, 0x63, 0x65, 0x62,
    0x6f, 0x6f, 0x6b, 0x2f, 0x72, 0x65, 0x61, 0x63, 0x74, 0x2d, 0x6e, 0x61,
    0x74, 0x69, 0x76, 0x65, 0x2f, 0x72, 0x65, 0x6c, 0x65, 0x61, 0x73, 0x65,
    0x73, 0x2f, 0x64, 0x6f, 0x77, 0x6e, 0x6c, 0x6f, 0x61, 0x64, 0x2f]

  /** An HTTP provider pointing at the assets of some release, whatever its tag. */
  predicate IsReleaseAssetProvider(p: Provider) {
    p.Http? && StartsWith(p.url, ReleaseDownloadPrefix)
  }

  /** The `providers.filter(...)` of the transform: every release-asset provider goes, every
      other provider (HTTP or typed) stays. */
  function KeptProviders(ps: seq<Provider>): (r: seq<Provider>)
    ensures |r| <= |ps|
  {
    if ps == [] then []
    else (if IsReleaseAssetProvider(ps[0]) then [] else [ps[0]]) + KeptProviders(ps[1..])
  }

  /** A provider is kept exactly when it is in the input and is not a release-asset provider. */
  lemma {:induction false} KeptProvidersMembers(ps: seq<Provider>, p: Provider)
    ensures p in KeptProviders(ps) <==> p in ps && !IsReleaseAssetProvider(p)
    decreases |ps|
  {
    if ps != [] {
      KeptProvidersMembers(ps[1..], p);
      assert p in ps <==> p == ps[0] || p in ps[1..];
    }
  }

  /** The filter works element by element and keeps the order: it distributes over
      concatenation, so kept providers keep their relative order. */
  lemma {:induction false} KeptProvidersAppend(a: seq<Provider>, b: seq<Provider>)
    ensures KeptProviders(a + b) == KeptProviders(a) + KeptProviders(b)
    decreases |a|
  {
    if a == [] {
      assert a + b == b;
    } else {
      KeptProvidersAppend(a[1..], b);
      assert (a + b)[0] == a[0];
      assert (a + b)[1..] == a[1..] + b;
    }
  }

  /** A list the filter has already passed over comes through unchanged. */
  lemma {:induction false} KeptProvidersIdempotent(ps: seq<Provider>)
    requires forall p :: p in ps ==> !IsReleaseAssetProvider(p)
    ensures KeptProviders(ps) == ps
    decreases |ps|
  {
    if ps != [] {
      assert ps[0] in ps;
      assert forall p :: p in ps[1..] ==> p in ps;
      KeptProvidersIdempotent(ps[1..]);
      assert ps == [ps[0]] + ps[1..];
    }
  }

  /** `https://github.com/facebook/react-native/releases/download/<tag>/<filename>`, both parts
      passed through encodeURIComponent; `None` when either encoding throws. */
  function NewReleaseUrl(tag: JsString, filename: JsString): (r: Option<JsString>)
    ensures r.Some? <==> Encode(tag).Some? && Encode(filename).Some?
    ensures r.Some? ==> r.value == ReleaseDownloadPrefix + Encode(tag).value + [SLASH] + Encode(filename).value
  {
    match (Encode(tag), Encode(filename))
    case (Some(t), Some(f)) => Some(ReleaseDownloadPrefix + t + [SLASH] + f)
    case _ => None
  }

  /** The release tag: `v` followed by the version exactly as given. */
  function ReleaseTag(version: JsString): JsString {
    Lit("v") + version
  }

  /** The transform the script hands to `processDotSlashFileInPlace`. */
  function WriteTransform(version: JsString, ps: seq<Provider>, filename: JsString, info: ArtifactInfo): (r: Step<CheckTask>)
    // one upstream check per kept HTTP provider, each against this platform's info
    ensures r.scheduled == HttpChecks(KeptProviders(ps), info)
    // no kept HTTP provider: throw, having scheduled nothing
    ensures r == Threw(NoUpstreamHttpProviders(filename), []) <==> |HttpUrls(KeptProviders(ps))| == 0
    // otherwise a new array: the new release URL, then the kept providers in order
    ensures r.Returned? <==> |HttpUrls(KeptProviders(ps))| > 0 && NewReleaseUrl(ReleaseTag(version), filename).Some?
    ensures r.Returned? ==>
              r.value == NewArray([Http(NewReleaseUrl(ReleaseTag(version), filename).value, false)] + KeptProviders(ps))
  {
    var kept := KeptProviders(ps);
    var checks := HttpChecks(kept, info);
    if |checks| == 0 then Threw(NoUpstreamHttpProviders(filename), [])
    else
      match NewReleaseUrl(ReleaseTag(version), filename)
      case None => Threw(UriError, checks)
      case Some(url) => Returned(NewArray([Http(url, false)] + kept), checks)
  }

  /** The new URL is itself a release-asset URL, so it is dropped again on the next run. */
  lemma NewReleaseUrlIsReleaseAsset(tag: JsString, filename: JsString)
    requires NewReleaseUrl(tag, filename).Some?
    ensures IsReleaseAssetProvider(Http(NewReleaseUrl(tag, filename).value, false))
  {
    var u := NewReleaseUrl(tag, filename).value;
    assert u[..|ReleaseDownloadPrefix|] == ReleaseDownloadPrefix;
  }

  /** Per platform: the transform applied to its own output gives the
      same output and schedules the same checks. */
  lemma WriteTransformIdempotent(version: JsString, ps: seq<Provider>, filename: JsString, info: ArtifactInfo)
    requires WriteTransform(version, ps, filename, info).Returned?
    ensures var out := WriteTransform(version, ps, filename, info).value.providers;
            WriteTransform(version, out, filename, info) == WriteTransform(version, ps, filename, info)
  {
    var url := NewReleaseUrl(ReleaseTag(version), filename).value;
    var head := Http(url, false);
    var kept := KeptProviders(ps);
    NewReleaseUrlIsReleaseAsset(ReleaseTag(version), filename);
    KeptProvidersAppend([head], kept);
    assert KeptProviders([head]) == [];
    forall p | p in kept ensures !IsReleaseAssetProvider(p) {
      KeptProvidersMembers(ps, p);
    }
    KeptProvidersIdempotent(kept);
    var out := [head] + kept;
    assert WriteTransform(version, ps, filename, info).value.providers == out;
    assert KeptProviders(out) == kept;
    assert HttpChecks(KeptProviders(out), info) == HttpChecks(kept, info);
  }

  /** Typed providers are never dropped; release-asset providers never survive. */
  lemma WriteTransformKeepsTyped(version: JsString, ps: seq<Provider>, filename: JsString, info: ArtifactInfo, p: Provider)
    requires WriteTransform(version, ps, filename, info).Returned?
    ensures var out := WriteTransform(version, ps, filename, info).value.providers;
            && (p in ps && p.Typed? ==> p in out[1..])
            && (p in out[1..] ==> !IsReleaseAssetProvider(p))
  {
    KeptProvidersMembers(ps, p);
  }

  /** The tag is not normalised here: version `v1.0` gives tag `vv1.0`. */
  lemma VersionIsNotNormalised()
    ensures ReleaseTag(Lit("v1.0")) == Lit("vv1.0")
  {
  }

  /** A platform whose providers keep no HTTP provider makes the platform loop throw, whether
      at that platform or at an earlier one. */
  lemma {:induction false} PlatformWithoutUpstreamFails(
    env: Env, version: JsString, name: JsString, text: JsString, entries: seq<(JsString, PlatformSpec)>, i: nat)
    requires i < |entries| && |HttpUrls(KeptProviders(entries[i].1.providers))| == 0
    ensures EditPlatforms(env, name, text, entries, (ps, f, a) => WriteTransform(version, ps, f, a)).failure.Some?
    decreases i
  {
    var transform := (ps, f, a) => WriteTransform(version, ps, f, a);
    var (platform, spec) := entries[0];
    var step := transform(spec.providers, SuggestedFilename(name, platform, spec.format), InfoOf(spec));
    if i > 0 && step.Returned? {
      var next := if step.value.NewArray? then env.edit(text, platform, step.value.providers) else text;
      PlatformWithoutUpstreamFails(env, version, name, next, entries[1..], i - 1);
    }
  }

  /** One file: rewrite it, await every upstream check, re-sign it, validate it. */
  function WriteUrlsForFile(env: Env, version: JsString, fs: FileSystem, path: JsString): (r: Run)
  {
    var d := ProcessFile(env, fs, path, (ps, f, a) => WriteTransform(version, ps, f, a));
    if d.run.failure.Some? then d.run
    else
      var checks := RunAll(CheckRunner(env), d.scheduled);
      var afterChecks := d.run.trace + checks.trace;
      if checks.failure.Some? then Run(d.run.fs, afterChecks, checks.failure)
      else
        var signed := Resign(env, d.run.fs, path);
        if signed.failure.Some? then Run(signed.fs, afterChecks + signed.trace, signed.failure)
        else
          Run(signed.fs, afterChecks + signed.trace + [ParseFile(path)],
              if env.parses(signed.fs[path]) then None else Some(StructuralError(path)))
  }

  /** A failed upstream check leaves the file rewritten but not re-signed; a file is
      re-signed only after every check of it has passed. */
  lemma FailedCheckLeavesFileUnsigned(env: Env, version: JsString, fs: FileSystem, path: JsString)
    ensures var d := ProcessFile(env, fs, path, (ps, f, a) => WriteTransform(version, ps, f, a));
            var checks := RunAll(CheckRunner(env), d.scheduled);
            var r := WriteUrlsForFile(env, version, fs, path);
            && (d.run.failure.None? && checks.failure.Some? ==>
                  r.fs == d.run.fs && r.failure == checks.failure && CountWrites(r.trace) == CountWrites(d.run.trace))
            && (r.failure.None? ==>
                  d.run.failure.None? && checks.failure.None? && path in d.run.fs
                  && r.fs == d.run.fs[path := env.sign(d.run.fs[path]).value])
  {
    var d := ProcessFile(env, fs, path, (ps, f, a) => WriteTransform(version, ps, f, a));
    var checks := RunAll(CheckRunner(env), d.scheduled);
    if d.run.failure.None? && checks.failure.Some? {
      CountWritesAppend(d.run.trace, checks.trace);
      ChecksNeverWrite(env, d.scheduled);
    }
  }

  /** A platform with no upstream HTTP provider fails the file without
      writing anything. */
  lemma NoUpstreamFailsWithoutWrite(env: Env, version: JsString, fs: FileSystem, path: JsString, i: nat)
    requires Validates(env, fs, path)
    requires var json := env.jsonc(SplitShebang(fs[path]).1);
             i < |json.platforms| && |HttpUrls(KeptProviders(json.platforms[i].1.providers))| == 0
    ensures var r := WriteUrlsForFile(env, version, fs, path);
            r.failure.Some? && r.fs == fs && !Writes(r.trace)
  {
    var body := SplitShebang(fs[path]).1;
    var json := env.jsonc(body);
    PlatformWithoutUpstreamFails(env, version, json.name, body, json.platforms, i);
  }

  /** `writeReleaseAssetUrlsToDotSlashFiles(version)` over the given files. */
  function WriteReleaseAssetUrls(env: Env, version: JsString, fs: FileSystem, paths: seq<JsString>): Run {
    RunFiles((fs': FileSystem, p: JsString) => WriteUrlsForFile(env, version, fs', p), fs, paths)
  }
}
