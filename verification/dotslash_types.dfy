/**
 * The data model of a DotSlash file and of the effects the release scripts
 * perform on it: providers, platform specs, errors, the action trace and the
 * external capabilities (the `dotslash` binary, jsonc-parser, curl,
 * signedsource) the scripts call.
 */
module DotSlashTypes {
  import opened Wrappers
  import opened Utf16

  /** A provider entry. `Http` is `{url}` or `{type: 'http', url}` (the flag says which);
      `Typed` is any other `type`, such as `github-release`, which no script looks into. */
  datatype Provider = Http(url: JsString, explicitType: bool) | Typed(kind: JsString)

  /** A platform's entry under `platforms`. `hash` is kept as the string the file holds. */
  datatype PlatformSpec = PlatformSpec(
    providers: seq<Provider>,
    hash: JsString,
    digest: JsString,
    size: int,
    format: Option<JsString>)

  /** The `{hash, digest, size}` a transform receives for its platform. */
  datatype ArtifactInfo = ArtifactInfo(hash: JsString, digest: JsString, size: int)

  function InfoOf(spec: PlatformSpec): ArtifactInfo {
    ArtifactInfo(spec.hash, spec.digest, spec.size)
  }

  /** The parsed JSON body: `name` and the entries of `platforms`, in `Object.entries` order. */
  datatype Descriptor = Descriptor(name: JsString, platforms: seq<(JsString, PlatformSpec)>)

  /** The two digest subcommands of the `dotslash` binary. */
  datatype HashCommand = B3sum | Sha256

  /** Everything the scripts throw. */
  datatype Error =
    | StructuralError(path: JsString)             // `dotslash -- parse` rejected the file
    | SigningFailed(path: JsString)               // signedsource found no signing token
    | SizeMismatch(expectedSize: int, actualSize: int)
    | DigestMismatch(hash: JsString, expected: JsString, actual: JsString)
    | HasherFailed(command: HashCommand)          // the digest subprocess failed
    | FetchFailed(url: JsString)                  // curl failed
    | NoUpstreamHttpProviders(asset: JsString)
    | NoUpstreamUrl(asset: JsString)
    | AssetRenamed(expected: JsString, actual: JsString, url: JsString)
    | ApiFailed                                   // a GitHub API call was rejected
    | InvalidUrl(url: JsString)                   // `new URL(...)` threw
    | UriError                                    // encodeURIComponent / decodeURIComponent threw

  /** The effects the scripts have, in the order the script awaits them. */
  datatype Action =
    | ParseFile(path: JsString)                   // `dotslash -- parse path`
    | ReadFile(path: JsString)
    | WriteFile(path: JsString, contents: JsString)
    | Fetch(url: JsString)
    | MakeTempDir
    | WriteTempFile
    | RunHasher(command: HashCommand)
    | RemoveTempDir
    | ListAssets
    | DeleteAsset(id: int)
    | UploadAsset(name: JsString, contentType: JsString)

  /** A response as curl reports it: the body and the response headers. */
  datatype Response = Response(data: seq<Byte>, headers: map<JsString, JsString>)

  /** The external capabilities. `edit(text, platform, providers)` is jsonc-parser's
      `applyEdits(text, modify(text, ['platforms', platform, 'providers'], providers))`. */
  datatype Env = Env(
    parses: JsString -> bool,
    jsonc: JsString -> Descriptor,
    edit: (JsString, JsString, seq<Provider>) -> JsString,
    fetch: JsString -> Option<Response>,
    hasher: (HashCommand, seq<Byte>) -> Option<JsString>,
    sign: JsString -> Option<JsString>)

  type FileSystem = map<JsString, JsString>

  /** What a provider transform gives back: `undefined`/`null`, the very array it was
      passed, or a different array (whatever its contents). */
  datatype Returned = Nullish | SameArray | NewArray(providers: seq<Provider>)

  /** One call of a provider transform: the tasks it started, then its return or its throw. */
  datatype Step<T> = Threw(error: Error, scheduled: seq<T>) | Returned(value: Returned, scheduled: seq<T>)

  /** The outcome of a script, or of part of one. */
  datatype Run = Run(fs: FileSystem, trace: seq<Action>, failure: Option<Error>)

  /** `dotslash -- parse path` succeeds. */
  predicate Validates(env: Env, fs: FileSystem, path: JsString) {
    path in fs && env.parses(fs[path])
  }

  /** How many file writes a trace holds. */
  function CountWrites(trace: seq<Action>): nat {
    if trace == [] then 0
    else (if trace[0].WriteFile? then 1 else 0) + CountWrites(trace[1..])
  }

  predicate Writes(trace: seq<Action>) {
    CountWrites(trace) > 0
  }

  lemma {:induction false} CountWritesAppend(a: seq<Action>, b: seq<Action>)
    ensures CountWrites(a + b) == CountWrites(a) + CountWrites(b)
    decreases |a|
  {
    if a == [] {
      assert a + b == b;
    } else {
      CountWritesAppend(a[1..], b);
      assert (a + b)[1..] == a[1..] + b;
    }
  }
}
