/**
 * `validate-dotslash-artifacts.js`: download every HTTP provider of every platform of the
 * first-party DotSlash files and check it against the platform's size and digest, without
 * changing any file.
 */
module ValidateDotSlashArtifacts {
  import opened Wrappers
  import opened Utf16
  import opened DotSlashTypes
  import opened DotSlashUtils

  /** The transform: start one check per HTTP (or untyped) provider and return the very
      array it was given, so nothing is ever edited. */
  function ValidateTransform(ps: seq<Provider>, filename: JsString, info: ArtifactInfo): (r: Step<CheckTask>)
    ensures r.Returned? && r.value == SameArray
    ensures |r.scheduled| == |HttpUrls(ps)|
    ensures forall i :: 0 <= i < |r.scheduled| ==> r.scheduled[i].url == HttpUrls(ps)[i] && r.scheduled[i].info == info
  {
    Returned(SameArray, HttpChecks(ps, info))
  }

  /** The checks every platform contributes, platform after platform. */
  function PlatformChecks(entries: seq<(JsString, PlatformSpec)>): seq<CheckTask>
    decreases |entries|
  {
    if entries == [] then []
    else HttpChecks(entries[0].1.providers, InfoOf(entries[0].1)) + PlatformChecks(entries[1..])
  }

  /** Each platform's providers are checked against that platform's own info, and nothing else
      is checked. */
  lemma {:induction false} PlatformChecksMembers(entries: seq<(JsString, PlatformSpec)>, t: CheckTask)
    ensures t in PlatformChecks(entries) <==>
              exists k :: 0 <= k < |entries| && t.info == InfoOf(entries[k].1) && t.url in HttpUrls(entries[k].1.providers)
    decreases |entries|
  {
    if entries != [] {
      PlatformChecksMembers(entries[1..], t);
      var here := HttpChecks(entries[0].1.providers, InfoOf(entries[0].1));
      assert t in here <==> t.info == InfoOf(entries[0].1) && t.url in HttpUrls(entries[0].1.providers) by {
        if t in here {
          var i :| 0 <= i < |here| && here[i] == t;
        }
        if t.info == InfoOf(entries[0].1) && t.url in HttpUrls(entries[0].1.providers) {
          var i :| 0 <= i < |HttpUrls(entries[0].1.providers)| && HttpUrls(entries[0].1.providers)[i] == t.url;
          assert here[i] == t;
        }
      }
      if exists k :: 0 <= k < |entries[1..]| && t.info == InfoOf(entries[1..][k].1) && t.url in HttpUrls(entries[1..][k].1.providers) {
        var k :| 0 <= k < |entries[1..]| && t.info == InfoOf(entries[1..][k].1) && t.url in HttpUrls(entries[1..][k].1.providers);
        assert entries[k + 1] == entries[1..][k];
      }
      if exists k :: 0 <= k < |entries| && t.info == InfoOf(entries[k].1) && t.url in HttpUrls(entries[k].1.providers) {
        var k :| 0 <= k < |entries| && t.info == InfoOf(entries[k].1) && t.url in HttpUrls(entries[k].1.providers);
        if k > 0 {
          assert entries[1..][k - 1] == entries[k];
        }
      }
    }
  }

  /** The platform loop never throws, never edits, and starts every platform's checks in order. */
  lemma {:induction false} ValidatePass(env: Env, name: JsString, text: JsString, entries: seq<(JsString, PlatformSpec)>)
    ensures EditPlatforms(env, name, text, entries, ValidateTransform) == EditPass(text, PlatformChecks(entries), None)
    decreases |entries|
  {
    if entries != [] {
      ValidatePass(env, name, text, entries[1..]);
    }
  }

  /** One file: the driver with the validate transform, then `await Promise.all` over the checks. */
  function ValidateFile(env: Env, fs: FileSystem, path: JsString): Run {
    var d := ProcessFile(env, fs, path, ValidateTransform);
    if d.run.failure.Some? then d.run
    else
      var batch := RunAll(CheckRunner(env), d.scheduled);
      Run(d.run.fs, d.run.trace + batch.trace, batch.failure)
  }

  /** A file is never changed; it passes exactly when it is a valid descriptor and every check
      of every platform passes. */
  lemma ValidateFileOutcome(env: Env, fs: FileSystem, path: JsString)
    ensures ValidateFile(env, fs, path).fs == fs && !Writes(ValidateFile(env, fs, path).trace)
    ensures ValidateFile(env, fs, path).failure.None? <==>
              && Validates(env, fs, path)
              && forall t :: t in PlatformChecks(env.jsonc(SplitShebang(fs[path]).1).platforms) ==> RunCheck(env, t).failure.None?
  {
    var d := ProcessFile(env, fs, path, ValidateTransform);
    assert NeverEdits(ValidateTransform);
    NeverEditingTransformNeverWrites(env, fs, path, ValidateTransform);
    if Validates(env, fs, path) {
      var body := SplitShebang(fs[path]).1;
      ValidatePass(env, env.jsonc(body).name, body, env.jsonc(body).platforms);
      assert d.run.failure.None?;
      var batch := RunAll(CheckRunner(env), d.scheduled);
      ChecksNeverWrite(env, d.scheduled);
      CountWritesAppend(d.run.trace, batch.trace);
      if batch.failure.None? {
        forall t | t in d.scheduled ensures RunCheck(env, t).failure.None? {
          var i :| 0 <= i < |d.scheduled| && d.scheduled[i] == t;
        }
      }
    }
  }

  /** `validateDotSlashArtifacts()` over the given files, one after another. */
  function ValidateDotSlashArtifactsRun(env: Env, fs: FileSystem, paths: seq<JsString>): Run {
    RunFiles((fs': FileSystem, p: JsString) => ValidateFile(env, fs', p), fs, paths)
  }

  /** The validate script never changes a file, and passes exactly when every file does. */
  lemma ValidateNeverWritesAndChecksEveryFile(env: Env, fs: FileSystem, paths: seq<JsString>)
    ensures ValidateDotSlashArtifactsRun(env, fs, paths).fs == fs
    ensures ValidateDotSlashArtifactsRun(env, fs, paths).failure.None? <==>
              forall i :: 0 <= i < |paths| ==> ValidateFile(env, fs, paths[i]).failure.None?
  {
    var perFile := (fs': FileSystem, p: JsString) => ValidateFile(env, fs', p);
    forall fs': FileSystem, p: JsString ensures perFile(fs', p).fs == fs' {
      ValidateFileOutcome(env, fs', p);
    }
    RunFilesKeepsFiles(perFile, fs, paths);
    RunFilesAllPass(perFile, fs, paths);
  }
}
