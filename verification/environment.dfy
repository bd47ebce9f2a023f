/** What the scripts observe of the machine they run on, and the ways a run
    can fail.  The filesystem, the image codec and `glob` are not executed:
    their answers are given as sets and lists. */
module Environment {
  import opened Wrappers

  type Bytes = seq<bv8>

  datatype Env = Env(
    existing: set<string>,                 // `os.path.exists(p)`
    directories: set<string>,              // `os.path.isdir(p)`
    images: set<string>,                   // `Image.open(p)` (and `verify()`) succeed
    globMatches: map<string, seq<string>>, // `glob.glob(pattern)`, in glob's own order
    decodable: set<Bytes>,                 // `Image.open(io.BytesIO(data))` succeeds
    writable: set<string>)                 // `image.save(p)` succeeds
  {
    /** `glob.glob(pattern)`: a pattern with no recorded matches matches nothing. */
    function Glob(pattern: string): seq<string> {
      if pattern in globMatches then globMatches[pattern] else []
    }
  }

  /** Why an exception was raised inside a script's generation `try` block. */
  datatype Cause =
    | TransportFailed          // `generate_content` raised (network, auth, quota)
    | OpenFailed(path: string) // `Image.open(path)` raised
    | DecodeFailed             // the inline data is not an image
    | SaveFailed(path: string) // `image.save(path)` raised

  datatype Error =
    | CredentialMissing
    | ReferenceNotFound(path: string)
    | ReferenceUnreadable(path: string)
    | ReferenceCountExceeded(count: nat)
    | NoReferencesProvided
    | NoImagesFound(folder: string)
    | GenerationFailed(cause: Cause)
    | NoImageInResponse

  /** `if not api_key`: `GEMINI_API_KEY` is set and non-empty. */
  predicate KeyGiven(apiKey: Option<string>) {
    apiKey.Some? && apiKey.value != []
  }

  /** `[p for p in paths if os.path.exists(p)]`: missing files dropped, order kept. */
  function Existing(paths: seq<string>, env: Env): (r: seq<string>)
    ensures |r| <= |paths|
    ensures forall p :: p in r <==> p in paths && p in env.existing
  {
    if paths == [] then []
    else
      var init := paths[..|paths| - 1];
      var last := paths[|paths| - 1];
      assert paths == init + [last];
      Existing(init, env) + (if last in env.existing then [last] else [])
  }

  /** Filtering a concatenation filters each side, so the relative order of the
      surviving paths is the order they were given in. */
  lemma {:induction false} ExistingConcat(a: seq<string>, b: seq<string>, env: Env)
    ensures Existing(a + b, env) == Existing(a, env) + Existing(b, env)
  {
    if b != [] {
      var init := b[..|b| - 1];
      assert (a + b)[..|a + b| - 1] == a + init;
      assert (a + b)[|a + b| - 1] == b[|b| - 1];
      var last := b[|b| - 1];
      var tail := if last in env.existing then [last] else [];
      ExistingConcat(a, init, env);
      calc {
        Existing(a + b, env);
        Existing(a + init, env) + tail;
        Existing(a, env) + Existing(init, env) + tail;
        Existing(a, env) + (Existing(init, env) + tail);
        Existing(a, env) + Existing(b, env);
      }
    } else {
      assert a + b == a;
    }
  }

  /** The first path that `Image.open` rejects, if any. */
  function FirstUnopenable(paths: seq<string>, env: Env): (r: Option<nat>)
    ensures r.None? ==> forall j :: 0 <= j < |paths| ==> paths[j] in env.images
    ensures r.Some? ==> r.value < |paths| && paths[r.value] !in env.images
    ensures r.Some? ==> forall j :: 0 <= j < r.value ==> paths[j] in env.images
  {
    if paths == [] then None
    else if paths[0] !in env.images then Some(0)
    else
      match FirstUnopenable(paths[1..], env)
      case None => None
      case Some(k) => Some(k + 1)
  }

  /** Opening `a + b` fails at the first failure in `a`, or else at the first
      failure in `b`. */
  lemma FirstUnopenableConcat(a: seq<string>, b: seq<string>, env: Env)
    ensures FirstUnopenable(a + b, env)
         == if FirstUnopenable(a, env).Some? then FirstUnopenable(a, env)
            else match FirstUnopenable(b, env)
                 case None => None
                 case Some(k) => Some(|a| + k)
  {
    var ab := a + b;
    match FirstUnopenable(a, env)
    case Some(i) =>
      assert ab[i] == a[i];
      assert forall j :: 0 <= j < i ==> ab[j] == a[j];
    case None =>
      assert forall j :: 0 <= j < |a| ==> ab[j] == a[j];
      match FirstUnopenable(b, env)
      case None =>
        assert forall j :: |a| <= j < |ab| ==> ab[j] == b[j - |a|];
      case Some(k) =>
        assert ab[|a| + k] == b[k];
        assert forall j :: |a| <= j < |a| + k ==> ab[j] == b[j - |a|];
  }
}
