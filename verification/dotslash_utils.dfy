/**
 * The shared helpers of the release scripts: file-name sanitising, the shebang
 * split, the per-platform rewrite driver `processDotSlashFileInPlace`, the
 * artifact check `validateDotSlashArtifactData`, re-signing, and running a
 * batch of scheduled tasks to completion.
 */
module DotSlashUtils {
  import opened Wrappers
  import opened Utf16
  import opened DotSlashTypes

  // ---------------------------------------------------------------------------
  // sanitizeFileNameComponent

  /** The class `[a-zA-Z0-9.]`. */
  predicate IsFileNameSafe(c: CodeUnit) {
    (0x41 <= c <= 0x5A) || (0x61 <= c <= 0x7A) || (0x30 <= c <= 0x39) || c == DOT
  }

  /** `s.replace(/[^a-zA-Z0-9.]/g, '.')`. */
  function Sanitize(s: JsString): (r: JsString)
    ensures |r| == |s|
    ensures forall i :: 0 <= i < |s| ==> (IsFileNameSafe(s[i]) ==> r[i] == s[i])
    ensures forall i :: 0 <= i < |s| ==> (!IsFileNameSafe(s[i]) ==> r[i] == DOT)
  {
    if s == [] then [] else [if IsFileNameSafe(s[0]) then s[0] else DOT] + Sanitize(s[1..])
  }

  /** The strings sanitising leaves alone are exactly those made of safe code units, and
      every result is one of them: sanitising is idempotent. */
  lemma SanitizeFixedPoints(s: JsString)
    ensures Sanitize(s) == s <==> forall i :: 0 <= i < |s| ==> IsFileNameSafe(s[i])
    ensures forall i :: 0 <= i < |s| ==> IsFileNameSafe(Sanitize(s)[i])
    ensures Sanitize(Sanitize(s)) == Sanitize(s)
  {
    if Sanitize(s) == s {
      forall i | 0 <= i < |s| ensures IsFileNameSafe(s[i]) {
        assert s[i] == Sanitize(s)[i];
      }
    }
  }

  // ---------------------------------------------------------------------------
  // splitShebangFromContents

  /** A line that `/^#!.*\n/` matches in full: `#!`, no line terminator, then `\n`. */
  predicate IsShebangLine(l: JsString) {
    && |l| >= 3 && l[0] == HASH && l[1] == BANG && l[|l| - 1] == LF
    && forall i :: 2 <= i < |l| - 1 ==> !IsLineTerminator(l[i])
  }

  /** The index of the first line terminator at or after `from`, or `|s|`. */
  function FirstLineTerminator(s: JsString, from: nat): (r: nat)
    requires from <= |s|
    ensures from <= r <= |s|
    ensures r < |s| ==> IsLineTerminator(s[r])
    ensures forall i :: from <= i < r ==> !IsLineTerminator(s[i])
    decreases |s| - from
  {
    if from == |s| || IsLineTerminator(s[from]) then from else FirstLineTerminator(s, from + 1)
  }

  /** A line terminator preceded (from `from` on) by none is the first one. */
  lemma {:induction false} FirstLineTerminatorAt(s: JsString, from: nat, j: nat)
    requires from <= j < |s| && IsLineTerminator(s[j])
    requires forall i :: from <= i < j ==> !IsLineTerminator(s[i])
    ensures FirstLineTerminator(s, from) == j
    decreases j - from
  {
    if from < j {
      FirstLineTerminatorAt(s, from + 1, j);
    }
  }

  /** `splitShebangFromContents`: the match of `/^#!.*\n/` (or `''`) and the rest. `.` does
      not match `\r`, so a first line ending in `\r\n` is not split off. */
  function SplitShebang(s: JsString): (r: (JsString, JsString))
    ensures r.0 + r.1 == s
    ensures r.0 == [] || IsShebangLine(r.0)
  {
    if |s| >= 2 && s[0] == HASH && s[1] == BANG then
      var e := FirstLineTerminator(s, 2);
      if e < |s| && s[e] == LF then (s[..e + 1], s[e + 1..]) else ([], s)
    else ([], s)
  }

  /** Whenever a prefix of the contents is a shebang line, that prefix is what is split off;
      with the contract of `SplitShebang`, nothing is split off exactly when no prefix is one. */
  lemma ShebangLineIsSplit(s: JsString, k: nat)
    requires 0 < k <= |s| && IsShebangLine(s[..k])
    ensures SplitShebang(s) == (s[..k], s[k..])
  {
    var l := s[..k];
    assert s[0] == l[0] && s[1] == l[1] && s[k - 1] == l[k - 1];
    forall i | 2 <= i < k - 1 ensures !IsLineTerminator(s[i]) {
      assert s[i] == l[i];
    }
    FirstLineTerminatorAt(s, 2, k - 1);
  }

  /** Putting a shebang line back in front of a body and splitting again returns both unchanged:
      the written file keeps the original shebang verbatim. */
  lemma SplitShebangRoundTrip(shebang: JsString, body: JsString)
    requires IsShebangLine(shebang)
    ensures SplitShebang(shebang + body) == (shebang, body)
  {
    var s := shebang + body;
    assert s[..|shebang|] == shebang;
    ShebangLineIsSplit(s, |shebang|);
    assert s[|shebang|..] == body;
  }

  /** A `\r\n`-terminated interpreter line is not a shebang for the split: whatever the line
      holds and whatever follows it, nothing is split off. */
  lemma CrLfShebangIsKept(l: JsString, rest: JsString)
    requires forall i :: 0 <= i < |l| ==> !IsLineTerminator(l[i])
    ensures var s := [HASH, BANG] + l + [CR, LF] + rest;
            SplitShebang(s) == ([], s)
  {
    var s := [HASH, BANG] + l + [CR, LF] + rest;
    forall i | 2 <= i < 2 + |l| ensures !IsLineTerminator(s[i]) {
      assert s[i] == l[i - 2];
    }
    assert s[2 + |l|] == CR;
    FirstLineTerminatorAt(s, 2, 2 + |l|);
  }

  // ---------------------------------------------------------------------------
  // processDotSlashFileInPlace

  /** The name a transform is offered: the sanitised descriptor name, `-`, the platform key,
      and `.` plus the format when one is given. Platform and format are not sanitised. */
  function SuggestedFilename(name: JsString, platform: JsString, format: Option<JsString>): (r: JsString)
    ensures |r| > |name|
    ensures r[..|name|] == Sanitize(name)
    ensures forall i :: 0 <= i < |name| ==> IsFileNameSafe(r[i])
    ensures r[|name|] == DASH
    ensures r[|name| + 1..] == platform + (if format.Some? then [DOT] + format.value else [])
  {
    Sanitize(name) + [DASH] + platform + (if format.Some? then [DOT] + format.value else [])
  }

  /** The state of the per-platform loop: the running text, the tasks the transform has
      started, and its throw if it threw. */
  datatype EditPass<T> = EditPass(text: JsString, scheduled: seq<T>, failure: Option<Error>)

  /** The loop over `Object.entries(json.platforms)`: call the transform, and edit the running
      text only when it returns an array other than the one it was given. A throw ends the loop. */
  function EditPlatforms<T>(
    env: Env, name: JsString, text: JsString, entries: seq<(JsString, PlatformSpec)>,
    transform: (seq<Provider>, JsString, ArtifactInfo) -> Step<T>): (r: EditPass<T>)
    decreases |entries|
  {
    if entries == [] then EditPass(text, [], None)
    else
      var (platform, spec) := entries[0];
      match transform(spec.providers, SuggestedFilename(name, platform, spec.format), InfoOf(spec))
      case Threw(e, started) => EditPass(text, started, Some(e))
      case Returned(value, started) =>
        var next := if value.NewArray? then env.edit(text, platform, value.providers) else text;
        var rest := EditPlatforms(env, name, next, entries[1..], transform);
        EditPass(rest.text, started + rest.scheduled, rest.failure)
  }

  /** The transform never hands back a different array. */
  ghost predicate NeverEdits<T>(transform: (seq<Provider>, JsString, ArtifactInfo) -> Step<T>) {
    forall ps, f, i :: !(transform(ps, f, i).Returned? && transform(ps, f, i).value.NewArray?)
  }

  /** With a transform that never returns a different array the running text is never edited. */
  lemma {:induction false} NeverEditsKeepsText<T>(
    env: Env, name: JsString, text: JsString, entries: seq<(JsString, PlatformSpec)>,
    transform: (seq<Provider>, JsString, ArtifactInfo) -> Step<T>)
    requires NeverEdits(transform)
    ensures EditPlatforms(env, name, text, entries, transform).text == text
    decreases |entries|
  {
    if entries != [] {
      var (platform, spec) := entries[0];
      var step := transform(spec.providers, SuggestedFilename(name, platform, spec.format), InfoOf(spec));
      if step.Returned? {
        NeverEditsKeepsText(env, name, text, entries[1..], transform);
      }
    }
  }

  /** The loop is a left fold: the platforms after a prefix that did not throw are processed
      on the text that prefix left, and their tasks come after the prefix's tasks. */
  lemma {:induction false} EditPlatformsSplit<T>(
    env: Env, name: JsString, text: JsString, e1: seq<(JsString, PlatformSpec)>, e2: seq<(JsString, PlatformSpec)>,
    transform: (seq<Provider>, JsString, ArtifactInfo) -> Step<T>)
    requires EditPlatforms(env, name, text, e1, transform).failure.None?
    ensures var first := EditPlatforms(env, name, text, e1, transform);
            var second := EditPlatforms(env, name, first.text, e2, transform);
            EditPlatforms(env, name, text, e1 + e2, transform)
              == EditPass(second.text, first.scheduled + second.scheduled, second.failure)
    decreases |e1|
  {
    if e1 == [] {
      assert e1 + e2 == e2;
    } else {
      assert (e1 + e2)[0] == e1[0];
      assert (e1 + e2)[1..] == e1[1..] + e2;
      var (platform, spec) := e1[0];
      match transform(spec.providers, SuggestedFilename(name, platform, spec.format), InfoOf(spec))
      case Threw(_, _) =>
      case Returned(value, started) =>
        var next := if value.NewArray? then env.edit(text, platform, value.providers) else text;
        EditPlatformsSplit(env, name, next, e1[1..], e2, transform);
        var rest := EditPlatforms(env, name, next, e1[1..], transform);
        var second := EditPlatforms(env, name, rest.text, e2, transform);
        assert started + (rest.scheduled + second.scheduled) == (started + rest.scheduled) + second.scheduled;
    }
  }

  /** A single platform is edited at its own key, with the array the transform returned,
      exactly when that array is not the one it was given. */
  lemma OnePlatformEdit<T>(
    env: Env, name: JsString, text: JsString, platform: JsString, spec: PlatformSpec,
    transform: (seq<Provider>, JsString, ArtifactInfo) -> Step<T>)
    requires transform(spec.providers, SuggestedFilename(name, platform, spec.format), InfoOf(spec)).Returned?
    ensures var value := transform(spec.providers, SuggestedFilename(name, platform, spec.format), InfoOf(spec)).value;
            EditPlatforms(env, name, text, [(platform, spec)], transform).text
              == (if value.NewArray? then env.edit(text, platform, value.providers) else text)
  {
  }

  /** The platform loop of one call, run on the file's current contents. */
  function PassOf<T>(env: Env, fs: FileSystem, path: JsString,
                     transform: (seq<Provider>, JsString, ArtifactInfo) -> Step<T>): EditPass<T>
    requires path in fs
  {
    var (_, body) := SplitShebang(fs[path]);
    var json := env.jsonc(body);
    EditPlatforms(env, json.name, body, json.platforms, transform)
  }

  /** The outcome of `processDotSlashFileInPlace`, with the tasks its transform started. */
  datatype DriverRun<T> = DriverRun(run: Run, scheduled: seq<T>)

  /** `processDotSlashFileInPlace(path, transform)`. */
  function ProcessFile<T>(env: Env, fs: FileSystem, path: JsString,
                          transform: (seq<Provider>, JsString, ArtifactInfo) -> Step<T>): (r: DriverRun<T>)
    // structural validation comes first; a file that fails it is neither read nor handed to the transform
    ensures |r.run.trace| > 0 && r.run.trace[0] == ParseFile(path)
    ensures !Validates(env, fs, path) ==> r == DriverRun(Run(fs, [ParseFile(path)], Some(StructuralError(path))), [])
    // at most one write, and only of a text that differs from the original
    ensures CountWrites(r.run.trace) <= 1
    ensures !Writes(r.run.trace) ==> r.run.fs == fs
    ensures Writes(r.run.trace) <==>
              Validates(env, fs, path) && PassOf(env, fs, path, transform).failure.None?
              && PassOf(env, fs, path, transform).text != SplitShebang(fs[path]).1
    // what is written is the original shebang followed by the edited text, then validated again
    ensures Writes(r.run.trace) ==>
              && r.run.fs == fs[path := SplitShebang(fs[path]).0 + PassOf(env, fs, path, transform).text]
              && r.run.trace[|r.run.trace| - 1] == ParseFile(path)
              && (r.run.failure.None? <==> env.parses(r.run.fs[path]))
    ensures r.run.failure.None? ==> path in r.run.fs && Validates(env, r.run.fs, path)
    // without a write the file is validated once, and read only when valid
    ensures !Writes(r.run.trace) ==> r.run.trace == [ParseFile(path)] || r.run.trace == [ParseFile(path), ReadFile(path)]
    // a valid file hands over every task its transform started; without a write, the pass's throw is the outcome
    ensures Validates(env, fs, path) ==> r.scheduled == PassOf(env, fs, path, transform).scheduled
    ensures Validates(env, fs, path) && !Writes(r.run.trace) ==> r.run.failure == PassOf(env, fs, path, transform).failure
  {
    if !Validates(env, fs, path) then DriverRun(Run(fs, [ParseFile(path)], Some(StructuralError(path))), [])
    else
      var (shebang, body) := SplitShebang(fs[path]);
      var pass := PassOf(env, fs, path, transform);
      var head := [ParseFile(path), ReadFile(path)];
      assert CountWrites(head) == 0 by { CountWritesAppend([ParseFile(path)], [ReadFile(path)]); }
      if pass.failure.Some? then DriverRun(Run(fs, head, pass.failure), pass.scheduled)
      else if pass.text == body then DriverRun(Run(fs, head, None), pass.scheduled)
      else
        var written := shebang + pass.text;
        var trace := head + [WriteFile(path, written), ParseFile(path)];
        assert CountWrites(trace) == 1 by {
          CountWritesAppend([WriteFile(path, written)], [ParseFile(path)]);
          CountWritesAppend(head, [WriteFile(path, written), ParseFile(path)]);
        }
        var fs' := fs[path := written];
        DriverRun(Run(fs', trace, if env.parses(written) then None else Some(StructuralError(path))), pass.scheduled)
  }

  /** The guarantee the validate and upload scripts rely on: a transform
      that never hands back a different array leaves the file exactly as it was. */
  lemma NeverEditingTransformNeverWrites<T>(env: Env, fs: FileSystem, path: JsString,
                                            transform: (seq<Provider>, JsString, ArtifactInfo) -> Step<T>)
    requires NeverEdits(transform)
    ensures !Writes(ProcessFile(env, fs, path, transform).run.trace)
    ensures ProcessFile(env, fs, path, transform).run.fs == fs
  {
    if Validates(env, fs, path) {
      var (_, body) := SplitShebang(fs[path]);
      var json := env.jsonc(body);
      NeverEditsKeepsText(env, json.name, body, json.platforms, transform);
    }
  }

  // ---------------------------------------------------------------------------
  // validateDotSlashArtifactData

  /** `hash === 'blake3' ? 'b3sum' : 'sha256'`. */
  function HashCommandFor(hash: JsString): HashCommand {
    if hash == Lit("blake3") then B3sum else Sha256
  }

  /** The outcome of a check or task: its error if it failed, and the effects it had. */
  datatype Checked = Checked(failure: Option<Error>, trace: seq<Action>)

  /** `validateDotSlashArtifactData(data, info)`: the size first, then the trimmed output of the
      digest subprocess, compared exactly (case included) with the declared digest. */
  function CheckArtifact(hasher: (HashCommand, seq<Byte>) -> Option<JsString>,
                         data: seq<Byte>, info: ArtifactInfo): (r: Checked)
    // a size mismatch fails before anything is hashed, whatever the digest
    ensures |data| != info.size ==> r == Checked(Some(SizeMismatch(info.size, |data|)), [])
    // otherwise the data is hashed once, in a temporary directory removed on every path
    ensures |data| == info.size ==>
              r.trace == [MakeTempDir, WriteTempFile, RunHasher(HashCommandFor(info.hash)), RemoveTempDir]
    ensures RunHasher(B3sum) in r.trace <==> |data| == info.size && info.hash == Lit("blake3")
    ensures r.failure.None? <==>
              && |data| == info.size
              && hasher(HashCommandFor(info.hash), data).Some?
              && Trim(hasher(HashCommandFor(info.hash), data).value) == info.digest
  {
    if |data| != info.size then Checked(Some(SizeMismatch(info.size, |data|)), [])
    else
      var command := HashCommandFor(info.hash);
      var trace := [MakeTempDir, WriteTempFile, RunHasher(command), RemoveTempDir];
      match hasher(command, data)
      case None => Checked(Some(HasherFailed(command)), trace)
      case Some(stdout) =>
        var actual := Trim(stdout);
        if actual == info.digest then Checked(None, trace)
        else Checked(Some(DigestMismatch(info.hash, info.digest, actual)), trace)
  }

  /** The digest comparison is exact, so it is case-sensitive: any trimmed hasher output other
      than the declared digest, the same digest in another letter case included, is a mismatch
      that reports the trimmed output. */
  lemma DigestComparisonIsCaseSensitive(hasher: (HashCommand, seq<Byte>) -> Option<JsString>,
                                        data: seq<Byte>, info: ArtifactInfo, out: JsString)
    requires |data| == info.size
    requires hasher(HashCommandFor(info.hash), data) == Some(out)
    requires Trim(out) != info.digest
    ensures CheckArtifact(hasher, data, info).failure == Some(DigestMismatch(info.hash, info.digest, Trim(out)))
  {
  }


  /** A trace without a file write counts none. */
  lemma {:induction false} NoWriteActions(trace: seq<Action>)
    requires forall i :: 0 <= i < |trace| ==> !trace[i].WriteFile?
    ensures CountWrites(trace) == 0
    decreases |trace|
  {
    if trace != [] {
      NoWriteActions(trace[1..]);
    }
  }

  // ---------------------------------------------------------------------------
  // Upstream checks and task batches

  /** Download `url` and check it against `info`: the closure both the write and the
      validate script schedule per HTTP provider. */
  datatype CheckTask = CheckTask(url: JsString, info: ArtifactInfo)

  function RunCheck(env: Env, task: CheckTask): (r: Checked)
    ensures |r.trace| > 0 && r.trace[0] == Fetch(task.url)
    ensures r.failure.None? <==>
              env.fetch(task.url).Some? && CheckArtifact(env.hasher, env.fetch(task.url).value.data, task.info).failure.None?
  {
    match env.fetch(task.url)
    case None => Checked(Some(FetchFailed(task.url)), [Fetch(task.url)])
    case Some(response) =>
      var c := CheckArtifact(env.hasher, response.data, task.info);
      Checked(c.failure, [Fetch(task.url)] + c.trace)
  }

  /** `await Promise.all(tasks)`: every task runs to its end; the batch fails with the first
      failure in list order. */
  function RunAll<T>(run: T -> Checked, tasks: seq<T>): (r: Checked)
    ensures r.failure.None? <==> forall i :: 0 <= i < |tasks| ==> run(tasks[i]).failure.None?
    ensures r.failure.Some? ==>
              exists i :: 0 <= i < |tasks| && run(tasks[i]).failure == r.failure
                          && forall j :: 0 <= j < i ==> run(tasks[j]).failure.None?
    decreases |tasks|
  {
    if tasks == [] then Checked(None, [])
    else
      var first := run(tasks[0]);
      var rest := RunAll(run, tasks[1..]);
      var failure := if first.failure.Some? then first.failure else rest.failure;
      var r := Checked(failure, first.trace + rest.trace);
      assert r.failure.Some? && first.failure.None? ==>
        exists i :: 0 <= i < |tasks| && run(tasks[i]).failure == r.failure
                    && forall j :: 0 <= j < i ==> run(tasks[j]).failure.None? by {
        if r.failure.Some? && first.failure.None? {
          var k :| 0 <= k < |tasks[1..]| && run(tasks[1..][k]).failure == rest.failure
                   && forall j :: 0 <= j < k ==> run(tasks[1..][j]).failure.None?;
          assert run(tasks[k + 1]).failure == r.failure;
          forall j | 0 <= j < k + 1 ensures run(tasks[j]).failure.None? {
            if j > 0 { assert tasks[j] == tasks[1..][j - 1]; }
          }
        }
      }
      r
  }

  /** The closure each scheduled check runs. */
  function CheckRunner(env: Env): CheckTask -> Checked {
    t => RunCheck(env, t)
  }

  /** A check only downloads and hashes; so does a batch of them. */
  lemma {:induction false} ChecksNeverWrite(env: Env, tasks: seq<CheckTask>)
    ensures CountWrites(RunAll(CheckRunner(env), tasks).trace) == 0
    decreases |tasks|
  {
    if tasks != [] {
      ChecksNeverWrite(env, tasks[1..]);
      var c := RunCheck(env, tasks[0]);
      var rest := RunAll(CheckRunner(env), tasks[1..]);
      RunCheckNeverWrites(env, tasks[0]);
      CountWritesAppend(c.trace, rest.trace);
    }
  }

  /** A single check only downloads and hashes. */
  lemma RunCheckNeverWrites(env: Env, task: CheckTask)
    ensures CountWrites(RunCheck(env, task).trace) == 0
  {
    var c := RunCheck(env, task);
    match env.fetch(task.url)
    case None =>
      assert c.trace == [Fetch(task.url)];
      NoWriteActions(c.trace);
    case Some(response) =>
      if |response.data| == task.info.size {
        assert c.trace == [Fetch(task.url), MakeTempDir, WriteTempFile, RunHasher(HashCommandFor(task.info.hash)), RemoveTempDir];
      } else {
        assert c.trace == [Fetch(task.url)];
      }
      NoWriteActions(c.trace);
  }

  /** The batch's trace over concatenated task lists is the traces of the two batches, in order. */
  lemma {:induction false} RunAllAppend<T>(run: T -> Checked, a: seq<T>, b: seq<T>)
    ensures RunAll(run, a + b).trace == RunAll(run, a).trace + RunAll(run, b).trace
    decreases |a|
  {
    if a == [] {
      assert a + b == b;
    } else {
      assert (a + b)[1..] == a[1..] + b;
      RunAllAppend(run, a[1..], b);
    }
  }

  /** Every task's effects appear whole in the batch's trace, after those of the tasks before
      it and before those of the tasks after it. */
  lemma {:induction false} RunAllTrace<T>(run: T -> Checked, tasks: seq<T>, i: nat)
    requires i < |tasks|
    ensures exists pre, post :: RunAll(run, tasks).trace == pre + run(tasks[i]).trace + post
    ensures RunAll(run, tasks).trace
              == RunAll(run, tasks[..i]).trace + run(tasks[i]).trace + RunAll(run, tasks[i + 1..]).trace
  {
    assert tasks == tasks[..i] + ([tasks[i]] + tasks[i + 1..]);
    RunAllAppend(run, tasks[..i], [tasks[i]] + tasks[i + 1..]);
    RunAllAppend(run, [tasks[i]], tasks[i + 1..]);
    assert RunAll(run, [tasks[i]]).trace == run(tasks[i]).trace + RunAll(run, [tasks[i]][1..]).trace;
    assert [tasks[i]][1..] == [];
    var pre := RunAll(run, tasks[..i]).trace;
    var post := RunAll(run, tasks[i + 1..]).trace;
    assert RunAll(run, tasks).trace == pre + run(tasks[i]).trace + post;
  }

  /** The URLs of the HTTP (typed `http` or untyped) providers, in order. */
  function HttpUrls(ps: seq<Provider>): (r: seq<JsString>)
    ensures |r| <= |ps|
    ensures |ps| == 1 ==> r == (if ps[0].Http? then [ps[0].url] else [])
    ensures forall u :: u in r <==> exists p :: p in ps && p.Http? && p.url == u
  {
    if ps == [] then []
    else
      var rest := HttpUrls(ps[1..]);
      assert forall p :: p in ps[1..] ==> p in ps;
      assert forall p :: p in ps ==> p == ps[0] || p in ps[1..];
      (if ps[0].Http? then [ps[0].url] else []) + rest
  }

  /** Collecting distributes over concatenation: with the one-provider case, every HTTP provider
      contributes its URL once, in provider order. */
  lemma {:induction false} HttpUrlsAppend(a: seq<Provider>, b: seq<Provider>)
    ensures HttpUrls(a + b) == HttpUrls(a) + HttpUrls(b)
    decreases |a|
  {
    if a != [] {
      assert (a + b)[1..] == a[1..] + b;
      HttpUrlsAppend(a[1..], b);
    } else {
      assert a + b == b;
    }
  }

  /** The number of URLs collected is the number of HTTP providers. */
  function CountHttp(ps: seq<Provider>): nat {
    if ps == [] then 0 else (if ps[0].Http? then 1 else 0) + CountHttp(ps[1..])
  }

  lemma {:induction false} HttpUrlsCount(ps: seq<Provider>)
    ensures |HttpUrls(ps)| == CountHttp(ps)
    decreases |ps|
  {
    if ps != [] {
      HttpUrlsCount(ps[1..]);
    }
  }

  /** One check task per HTTP provider, in provider order, each against the platform's own info. */
  function HttpChecks(ps: seq<Provider>, info: ArtifactInfo): (r: seq<CheckTask>)
    ensures |r| == |HttpUrls(ps)|
    ensures forall i :: 0 <= i < |r| ==> r[i] == CheckTask(HttpUrls(ps)[i], info)
  {
    if ps == [] then []
    else (if ps[0].Http? then [CheckTask(ps[0].url, info)] else []) + HttpChecks(ps[1..], info)
  }

  // ---------------------------------------------------------------------------
  // The list of DotSlash files

  /** The files are processed one at a time, in list order; the first failure ends the run. */
  function RunFiles(perFile: (FileSystem, JsString) -> Run, fs: FileSystem, paths: seq<JsString>): (r: Run)
    ensures paths == [] ==> r == Run(fs, [], None)
    ensures paths != [] && perFile(fs, paths[0]).failure.Some? ==> r == perFile(fs, paths[0])
    decreases |paths|
  {
    if paths == [] then Run(fs, [], None)
    else
      var first := perFile(fs, paths[0]);
      if first.failure.Some? then first
      else
        var rest := RunFiles(perFile, first.fs, paths[1..]);
        Run(rest.fs, first.trace + rest.trace, rest.failure)
  }

  /** Running a list of files is running its first part, then (if that succeeded) its second part
      on the files the first part left: a file starts only after every earlier file is done. */
  lemma {:induction false} RunFilesAppend(perFile: (FileSystem, JsString) -> Run, fs: FileSystem,
                                          p1: seq<JsString>, p2: seq<JsString>)
    ensures var first := RunFiles(perFile, fs, p1);
            RunFiles(perFile, fs, p1 + p2)
              == if first.failure.Some? then first
                 else var second := RunFiles(perFile, first.fs, p2);
                      Run(second.fs, first.trace + second.trace, second.failure)
    decreases |p1|
  {
    if p1 == [] {
      assert p1 + p2 == p2;
    } else {
      assert (p1 + p2)[0] == p1[0];
      assert (p1 + p2)[1..] == p1[1..] + p2;
      var head := perFile(fs, p1[0]);
      if head.failure.None? {
        RunFilesAppend(perFile, head.fs, p1[1..], p2);
        var mid := RunFiles(perFile, head.fs, p1[1..]);
        if mid.failure.None? {
          var second := RunFiles(perFile, mid.fs, p2);
          assert head.trace + (mid.trace + second.trace) == (head.trace + mid.trace) + second.trace;
        }
      }
    }
  }

  /** When no single file is ever changed, no run over a list of files changes any. */
  lemma {:induction false} RunFilesKeepsFiles(perFile: (FileSystem, JsString) -> Run, fs: FileSystem, paths: seq<JsString>)
    requires forall fs', p :: perFile(fs', p).fs == fs'
    ensures RunFiles(perFile, fs, paths).fs == fs
    decreases |paths|
  {
    if paths != [] {
      RunFilesKeepsFiles(perFile, perFile(fs, paths[0]).fs, paths[1..]);
    }
  }

  /** When no file is ever changed, the run over a list succeeds exactly when every file on its own does. */
  lemma {:induction false} RunFilesAllPass(perFile: (FileSystem, JsString) -> Run, fs: FileSystem, paths: seq<JsString>)
    requires forall fs', p :: perFile(fs', p).fs == fs'
    ensures RunFiles(perFile, fs, paths).failure.None? <==> forall i :: 0 <= i < |paths| ==> perFile(fs, paths[i]).failure.None?
    decreases |paths|
  {
    if paths != [] {
      RunFilesAllPass(perFile, fs, paths[1..]);
      assert forall i :: 0 < i < |paths| ==> paths[i] == paths[1..][i - 1];
    }
  }

  // ---------------------------------------------------------------------------
  // dangerouslyResignGeneratedFile

  /** Read the file, re-sign it with signedsource and write it back. */
  function Resign(env: Env, fs: FileSystem, path: JsString): (r: Run)
    requires path in fs
    ensures r.failure.None? <==> env.sign(fs[path]).Some?
    ensures r.failure.None? ==> r.fs == fs[path := env.sign(fs[path]).value]
    ensures r.failure.Some? ==> r.fs == fs && !Writes(r.trace)
  {
    match env.sign(fs[path])
    case None =>
      assert CountWrites([ReadFile(path)]) == 0 by { CountWritesAppend([ReadFile(path)], []); }
      Run(fs, [ReadFile(path)], Some(SigningFailed(path)))
    case Some(signed) => Run(fs[path := signed], [ReadFile(path), WriteFile(path, signed)], None)
  }
}
