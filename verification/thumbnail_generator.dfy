/** `thumbnail-generator.py`: a thumbnail is generated from a prompt, a set of
    character reference photos (by default the first five images of a fixed
    folder, in name order), an optional style image and optional logos; a
    batch repeats the generation under numbered output names. */
module ThumbnailGenerator {
  import opened Wrappers
  import opened Text
  import opened Ordering
  import opened Environment
  import opened Service

  const DefaultReferenceFolder := "./reference photos"
  /** The lower-case glob patterns; each is also searched upper-cased. */
  const ImageExtensions := ["*.jpg", "*.jpeg", "*.png", "*.webp"]
  /** How many folder images are kept for character consistency. */
  const MaxReferences := 5
  const StylePrefix := "Create a thumbnail inspired by the style reference image. "
  const DefaultExtension := ".png"

  // ---------------------------------------------------------------------------
  // get_reference_images

  /** `os.path.join(folder, name)` for a relative `name`. */
  function JoinPath(folder: string, name: string): string {
    if folder == [] || folder[|folder| - 1] == '/' then folder + name else folder + "/" + name
  }

  /** The joined path is the folder, then the name, with exactly one `/`
      between them when the folder is not empty. */
  lemma JoinPathParts(folder: string, name: string)
    ensures var p := JoinPath(folder, name);
            && |folder| + |name| <= |p| <= |folder| + |name| + 1
            && p[..|folder|] == folder && p[|p| - |name|..] == name
            && (folder != [] ==> p[|p| - |name| - 1] == '/')
  {
  }

  /** The glob matches in `folder` for each pattern of `exts`, its lower-case
      form first and its upper-case form second, concatenated in that order. */
  function Matches(env: Env, folder: string, exts: seq<string>): (found: seq<string>)
    ensures exts == [] ==> found == []
  {
    if exts == [] then []
    else
      var ext := exts[|exts| - 1];
      Matches(env, folder, exts[..|exts| - 1])
        + env.Glob(JoinPath(folder, ext)) + env.Glob(JoinPath(folder, AsciiUpper(ext)))
  }

  function Min(a: nat, b: nat): nat {
    if a <= b then a else b
  }

  /** A path is found exactly when some pattern matches it, in its lower-case
      or its upper-case form. */
  lemma {:induction false} MatchesMembers(env: Env, folder: string, exts: seq<string>, p: string)
    ensures p in Matches(env, folder, exts)
        <==> exists i :: 0 <= i < |exts| && (p in env.Glob(JoinPath(folder, exts[i]))
                                           || p in env.Glob(JoinPath(folder, AsciiUpper(exts[i]))))
  {
    if exts != [] {
      var init := exts[..|exts| - 1];
      MatchesMembers(env, folder, init, p);
      assert forall i :: 0 <= i < |init| ==> init[i] == exts[i];
    }
  }

  /** `sorted(image_files)[:5]`: at most five paths, ascending, drawn from
      `found`. */
  function KeptReferences(found: seq<string>): (kept: seq<string>)
    ensures |kept| == Min(MaxReferences, |found|)
    ensures Sorted(kept) && multiset(kept) <= multiset(found)
  {
    var n := Min(MaxReferences, |found|);
    SortedTruncation(found, Sort(found), n);
    Sort(found)[..n]
  }

  /** What `get_reference_images(path)` returns or raises: never an empty
      list, and at most five paths. */
  function ReferenceImages(path: Option<string>, env: Env): (r: Result<seq<string>, Error>)
    ensures r.Success? ==> 1 <= |r.value| <= MaxReferences
    ensures r.Failure? ==> var folder := path.GetOr(DefaultReferenceFolder);
                           folder in env.directories && r.error == NoImagesFound(folder)
  {
    var folder := path.GetOr(DefaultReferenceFolder);
    if folder !in env.directories then Success([folder])
    else
      var found := Matches(env, folder, ImageExtensions);
      if found == [] then Failure(NoImagesFound(folder))
      else Success(KeptReferences(found))
  }

  /** Globs `folder` with each pattern of `exts`, lower case then upper case,
      extending one list. */
  method CollectMatches(folder: string, exts: seq<string>, env: Env) returns (imageFiles: seq<string>)
    ensures imageFiles == Matches(env, folder, exts)
  {
    imageFiles := [];
    for i := 0 to |exts|
      invariant imageFiles == Matches(env, folder, exts[..i])
    {
      var ext := exts[i];
      assert exts[..i + 1][..i] == exts[..i];
      imageFiles := imageFiles + env.Glob(JoinPath(folder, ext));
      imageFiles := imageFiles + env.Glob(JoinPath(folder, AsciiUpper(ext)));
    }
    assert exts[..|exts|] == exts;
  }

  /** Collects the matches pattern by pattern, then sorts and keeps five. */
  method GetReferenceImages(path: Option<string>, env: Env) returns (r: Result<seq<string>, Error>)
    ensures r == ReferenceImages(path, env)
  {
    var folder := path.GetOr(DefaultReferenceFolder);
    if folder in env.directories {
      var imageFiles := CollectMatches(folder, ImageExtensions, env);
      if imageFiles == [] {
        return Failure(NoImagesFound(folder));
      }
      var sorted := Sort(imageFiles);
      return Success(sorted[..Min(MaxReferences, |sorted|)]);
    }
    return Success([folder]);
  }

  /** The kept images are `sorted(found)[:5]`, for `ordered` any ascending
      arrangement of `found`: at most five paths, in ascending order, drawn
      from `found` without deduplication (all of it when it has five or
      fewer), and no path left out is smaller than one kept. */
  lemma KeptReferencesOrder(found: seq<string>, ordered: seq<string>)
    requires Sorted(ordered) && multiset(ordered) == multiset(found)
    ensures |ordered| == |found|
    ensures var kept := KeptReferences(found);
            && kept == ordered[..Min(MaxReferences, |found|)]
            && |kept| == Min(MaxReferences, |found|)
            && Sorted(kept)
            && multiset(kept) <= multiset(found)
            && (|found| <= MaxReferences ==> multiset(kept) == multiset(found))
            && (forall x, y :: x in kept && y in multiset(found) - multiset(kept) ==> Le(x, y))
  {
    var n := Min(MaxReferences, |found|);
    SortedTruncation(found, ordered, n);
    if |found| <= MaxReferences {
      assert ordered[..n] == ordered;
    }
  }

  /** A folder resolves to its kept images, between one and five of them; a
      folder without matches raises instead, so it never resolves to an empty
      list.  A path that is not a folder is passed through as a one-element
      list. */
  lemma FolderReferences(path: Option<string>, env: Env)
    ensures var folder := path.GetOr(DefaultReferenceFolder);
            var found := Matches(env, folder, ImageExtensions);
            var r := ReferenceImages(path, env);
            && (folder !in env.directories ==> r == Success([folder]))
            && (folder in env.directories ==>
                  && (r.Failure? <==> found == [])
                  && (r.Failure? ==> r.error == NoImagesFound(folder))
                  && (r.Success? ==> r.value == KeptReferences(found) && 1 <= |r.value| <= MaxReferences))
  {
    var folder := path.GetOr(DefaultReferenceFolder);
    var found := Matches(env, folder, ImageExtensions);
    if folder in env.directories && found != [] {
      assert |Sort(found)| == |found|;
    }
  }

  /** The upper-case forms of the patterns. */
  lemma UpperPatterns()
    ensures AsciiUpper("*.jpg") == "*.JPG" && AsciiUpper("*.jpeg") == "*.JPEG"
    ensures AsciiUpper("*.png") == "*.PNG" && AsciiUpper("*.webp") == "*.WEBP"
  {
    UpperIs("*.jpg", "*.JPG");
    UpperIs("*.jpeg", "*.JPEG");
    UpperIs("*.png", "*.PNG");
    UpperIs("*.webp", "*.WEBP");
  }

  lemma UpperIs(s: string, t: string)
    requires |s| == |t| && forall k :: 0 <= k < |s| ==> UpperChar(s[k]) == t[k]
    ensures AsciiUpper(s) == t
  {
  }

  /** The search patterns, in the order they are globbed. */
  lemma SearchPatterns(folder: string, env: Env)
    ensures Matches(env, folder, ImageExtensions)
         == env.Glob(JoinPath(folder, "*.jpg")) + env.Glob(JoinPath(folder, "*.JPG"))
          + env.Glob(JoinPath(folder, "*.jpeg")) + env.Glob(JoinPath(folder, "*.JPEG"))
          + env.Glob(JoinPath(folder, "*.png")) + env.Glob(JoinPath(folder, "*.PNG"))
          + env.Glob(JoinPath(folder, "*.webp")) + env.Glob(JoinPath(folder, "*.WEBP"))
  {
    UpperPatterns();
    var e1, e2, e3 := ["*.jpg"], ["*.jpg", "*.jpeg"], ["*.jpg", "*.jpeg", "*.png"];
    assert e1[..0] == [] && e2[..1] == e1 && e3[..2] == e2 && ImageExtensions[..3] == e3;
    var m1 := Matches(env, folder, e1);
    assert m1 == Matches(env, folder, []) + env.Glob(JoinPath(folder, "*.jpg")) + env.Glob(JoinPath(folder, "*.JPG"));
    assert [] + env.Glob(JoinPath(folder, "*.jpg")) == env.Glob(JoinPath(folder, "*.jpg"));
    assert m1 == env.Glob(JoinPath(folder, "*.jpg")) + env.Glob(JoinPath(folder, "*.JPG"));
    var m2 := Matches(env, folder, e2);
    assert m2 == m1 + env.Glob(JoinPath(folder, "*.jpeg")) + env.Glob(JoinPath(folder, "*.JPEG"));
    var m3 := Matches(env, folder, e3);
    assert m3 == m2 + env.Glob(JoinPath(folder, "*.png")) + env.Glob(JoinPath(folder, "*.PNG"));
    assert Matches(env, folder, ImageExtensions)
        == m3 + env.Glob(JoinPath(folder, "*.webp")) + env.Glob(JoinPath(folder, "*.WEBP"));
  }

  // ---------------------------------------------------------------------------
  // generate_thumbnail

  /** The `reference_images` argument: `None`, a folder or file path, or a list of paths. */
  datatype ReferenceArg = DefaultFolder | PathArg(path: string) | PathList(paths: seq<string>)

  /** The `logo_references` argument: `None`, one path, or a list of paths. */
  datatype LogoArg = NoLogo | LogoPath(path: string) | LogoList(paths: seq<string>)

  /** What one thumbnail is generated from (output path and key aside). */
  datatype Request = Request(prompt: string, references: ReferenceArg, style: Option<string>, logos: LogoArg)

  /** How a call of `generate_thumbnail` ends: it returns the output path, it
      returns `None`, or an exception escapes it. */
  datatype Outcome = Written(saved: Saved) | ReturnedNone(why: Error) | Raised(why: Error)

  /** `style_reference and os.path.exists(style_reference)` */
  predicate StyleUsed(style: Option<string>, env: Env) {
    style.Some? && style.value != [] && style.value in env.existing
  }

  /** The prompt text sent: the user's prompt always ends it. */
  function EnhancedPrompt(prompt: string, style: Option<string>, env: Env): (r: string)
    ensures |prompt| <= |r| && r[|r| - |prompt|..] == prompt
  {
    if StyleUsed(style, env) then StylePrefix + prompt else prompt
  }

  /** The prompt gets the style sentence in front exactly when a style image
      is given and exists. */
  lemma PrefixedIffStyleUsed(prompt: string, style: Option<string>, env: Env)
    ensures EnhancedPrompt(prompt, style, env) == StylePrefix + prompt <==> StyleUsed(style, env)
    ensures !StyleUsed(style, env) ==> EnhancedPrompt(prompt, style, env) == prompt
  {
    if !StyleUsed(style, env) {
      assert |StylePrefix + prompt| != |prompt|;
    }
  }

  /** `logo_list` when `logo_references` is truthy; a single path is wrapped. */
  function LogoPaths(logos: LogoArg): (paths: seq<string>)
    ensures paths == [] <==> logos == NoLogo || logos == LogoPath([]) || logos == LogoList([])
    ensures logos.LogoPath? && logos.path != [] ==> paths == [logos.path]
    ensures logos.LogoList? ==> paths == logos.paths
  {
    match logos
    case NoLogo => []
    case LogoPath(p) => if p == [] then [] else [p]
    case LogoList(ps) => ps
  }

  /** The image files attached after the prompt: the style image, then each
      existing logo, then each existing reference, in the order given. */
  function AttachedImages(style: Option<string>, logos: LogoArg, refs: seq<string>, env: Env): seq<string> {
    (if StyleUsed(style, env) then [style.value] else []) + Existing(LogoPaths(logos), env) + Existing(refs, env)
  }

  /** The reference list `generate_thumbnail` works with. */
  function ReferencesFor(arg: ReferenceArg, env: Env): Result<seq<string>, Error> {
    match arg
    case DefaultFolder => ReferenceImages(None, env)
    case PathArg(p) => ReferenceImages(Some(p), env)
    case PathList(ps) => Success(ps)
  }

  /** The style image as a list: `[style]` when `style_reference` is truthy. */
  function StyleList(style: Option<string>): seq<string> {
    if style.Some? && style.value != [] then [style.value] else []
  }

  /** Appends each path, opened, to `content`; the first file that does not
      open raises. */
  function AppendOpened(content: seq<Content>, paths: seq<string>, env: Env): Result<seq<Content>, Error> {
    match FirstUnopenable(paths, env)
    case Some(k) => Failure(ReferenceUnreadable(paths[k]))
    case None => Success(content + Pictures(paths))
  }

  /** Attaching succeeds exactly when every path opens, and then appends one
      picture per path in order after the content kept as it was; otherwise
      it raises on a path of the list that does not open. */
  lemma AppendOpenedShape(content: seq<Content>, paths: seq<string>, env: Env)
    ensures var r := AppendOpened(content, paths, env);
            && (r.Success? <==> forall k :: 0 <= k < |paths| ==> paths[k] in env.images)
            && (r.Success? ==> |r.value| == |content| + |paths| && r.value[..|content|] == content)
            && (r.Success? ==> forall k :: 0 <= k < |paths| ==> r.value[|content| + k] == Picture(paths[k]))
            && (r.Failure? ==> r.error.ReferenceUnreadable? && r.error.path in paths && r.error.path !in env.images)
  {
  }

  /** `content_parts` sent for a request, or the exception raised while
      building it: the prompt, then the existing style image, logos and
      references, opened group by group. */
  function ContentFor(req: Request, env: Env): Result<seq<Content>, Error> {
    match ReferencesFor(req.references, env)
    case Failure(e) => Failure(e)
    case Success(refs) =>
      var withStyle := AppendOpened([Prompt(EnhancedPrompt(req.prompt, req.style, env))],
                                    Existing(StyleList(req.style), env), env);
      if withStyle.Failure? then withStyle
      else
        var withLogos := AppendOpened(withStyle.value, Existing(LogoPaths(req.logos), env), env);
        if withLogos.Failure? then withLogos
        else AppendOpened(withLogos.value, Existing(refs, env), env)
  }

  lemma AppendOpenedConcat(content: seq<Content>, a: seq<string>, b: seq<string>, env: Env)
    ensures AppendOpened(content, a + b, env)
         == if AppendOpened(content, a, env).Failure? then AppendOpened(content, a, env)
            else AppendOpened(AppendOpened(content, a, env).value, b, env)
  {
    FirstUnopenableConcat(a, b, env);
    var ab := a + b;
    match FirstUnopenable(a, env)
    case Some(k) =>
      assert ab[k] == a[k];
    case None =>
      match FirstUnopenable(b, env)
      case Some(k) =>
        assert ab[|a| + k] == b[k];
      case None =>
        assert Pictures(ab) == Pictures(a) + Pictures(b);
        assert content + Pictures(ab) == (content + Pictures(a)) + Pictures(b);
  }

  /** One call of `generate_thumbnail`: the content sent (`None`: the service
      was not called) and how the call ends. */
  function ThumbnailRun(req: Request, output: string, apiKey: Option<string>, env: Env, reply: Reply)
    : (Option<seq<Content>>, Outcome)
  {
    if !KeyGiven(apiKey) then (None, ReturnedNone(CredentialMissing))
    else
      match ContentFor(req, env)
      case Failure(e) => (None, Raised(e))
      case Success(content) =>
        (Some(content),
         match ImageFromReply(reply, output, env)
         case Success(saved) => Written(saved)
         case Failure(e) => ReturnedNone(e))
  }

  /** The content is the prompt first, then the style image, the logos and the
      references that exist, each group in its given order; files that do not
      exist are dropped without error, and the first attached file that does
      not open raises. */
  lemma ContentLayout(req: Request, env: Env, refs: seq<string>)
    requires ReferencesFor(req.references, env) == Success(refs)
    ensures var images := AttachedImages(req.style, req.logos, refs, env);
            && (forall k :: 0 <= k < |images| ==> images[k] in env.existing)
            && ContentFor(req, env) == AppendOpened([Prompt(EnhancedPrompt(req.prompt, req.style, env))], images, env)
  {
    var styles := Existing(StyleList(req.style), env);
    assert styles == if StyleUsed(req.style, env) then [req.style.value] else [] by {
      assert StyleList(req.style) == [] || StyleList(req.style)[..0] == [];
    }
    var logos := Existing(LogoPaths(req.logos), env);
    var refsKept := Existing(refs, env);
    var start := [Prompt(EnhancedPrompt(req.prompt, req.style, env))];
    AppendOpenedConcat(start, styles, logos, env);
    AppendOpenedConcat(start, styles + logos, refsKept, env);
    var images := AttachedImages(req.style, req.logos, refs, env);
    forall k | 0 <= k < |images| ensures images[k] in env.existing {
      assert images[k] in styles + logos + refsKept;
    }
  }

  /** `generate_thumbnail` raises for this request: the key is present and
      building the content raises. */
  predicate Raises(req: Request, apiKey: Option<string>, env: Env) {
    KeyGiven(apiKey) && ContentFor(req, env).Failure?
  }

  /** An exception depends on neither the output path nor the reply: it comes
      from the references or from opening an attached file, before the
      service is called. */
  lemma RaisesIff(req: Request, output: string, apiKey: Option<string>, env: Env, reply: Reply)
    ensures ThumbnailRun(req, output, apiKey, env, reply).1.Raised? <==> Raises(req, apiKey, env)
    ensures Raises(req, apiKey, env) ==>
              ThumbnailRun(req, output, apiKey, env, reply) == (None, Raised(ContentFor(req, env).error))
  {
  }

  /** Without a key nothing is sent and `None` is returned; with one, the
      content is sent exactly when it can be built, and then the call does
      not raise and a written image lands at the output path. */
  lemma ThumbnailRunSends(req: Request, output: string, apiKey: Option<string>, env: Env, reply: Reply)
    ensures var run := ThumbnailRun(req, output, apiKey, env, reply);
            && (!KeyGiven(apiKey) ==> run == (None, ReturnedNone(CredentialMissing)))
            && (run.0.Some? <==> KeyGiven(apiKey) && ContentFor(req, env).Success?)
            && (run.0.Some? ==> run.0.value == ContentFor(req, env).value && !run.1.Raised?)
            && (run.1.Written? ==> run.1.saved.path == output)
            && (run.0.Some? ==> (run.1.Written? <==> ImageFromReply(reply, output, env).Success?))
            && (run.0.Some? && ImageFromReply(reply, output, env).Success?
                ==> run.1 == Written(ImageFromReply(reply, output, env).value))
  {
  }

  /** Attaching one more path either appends its picture or raises on it. */
  lemma AppendOpenedStep(content: seq<Content>, done: seq<string>, path: string, env: Env)
    requires AppendOpened(content, done, env).Success?
    ensures AppendOpened(content, done + [path], env)
         == if path in env.images then Success(AppendOpened(content, done, env).value + [Picture(path)])
            else Failure(ReferenceUnreadable(path))
  {
    AppendOpenedConcat(content, done, [path], env);
    assert [path][0] == path;
    if path in env.images {
      assert FirstUnopenable([path], env) == None;
      assert Pictures([path]) == [Picture(path)];
    }
  }

  /** Once an attached file fails to open, later paths change nothing. */
  lemma AppendOpenedFailureSticks(content: seq<Content>, done: seq<string>, rest: seq<string>, env: Env)
    requires AppendOpened(content, done, env).Failure?
    ensures AppendOpened(content, done + rest, env) == AppendOpened(content, done, env)
  {
    AppendOpenedConcat(content, done, rest, env);
  }

  /** Filtering one more path adds it at the end exactly when it exists. */
  lemma ExistingStep(paths: seq<string>, i: nat, env: Env)
    requires i < |paths|
    ensures Existing(paths[..i + 1], env)
         == Existing(paths[..i], env) + (if paths[i] in env.existing then [paths[i]] else [])
  {
    assert paths[..i + 1][..i] == paths[..i];
  }

  /** The loop of `AttachImages` after its `i`-th path, when that path
      exists and opens or does not exist. */
  lemma AttachKeeps(content: seq<Content>, paths: seq<string>, i: nat, parts: seq<Content>, env: Env)
    requires i < |paths| && (paths[i] in env.existing ==> paths[i] in env.images)
    requires AppendOpened(content, Existing(paths[..i], env), env) == Success(parts)
    ensures AppendOpened(content, Existing(paths[..i + 1], env), env)
         == Success(parts + if paths[i] in env.existing then [Picture(paths[i])] else [])
  {
    ExistingStep(paths, i, env);
    var done := Existing(paths[..i], env);
    if paths[i] in env.existing {
      AppendOpenedStep(content, done, paths[i], env);
    } else {
      assert done + [] == done && parts + [] == parts;
    }
  }

  /** The loop of `AttachImages` at an existing path that does not open. */
  lemma AttachFails(content: seq<Content>, paths: seq<string>, i: nat, parts: seq<Content>, env: Env)
    requires i < |paths| && paths[i] in env.existing && paths[i] !in env.images
    requires AppendOpened(content, Existing(paths[..i], env), env) == Success(parts)
    ensures AppendOpened(content, Existing(paths[..i + 1], env), env) == Failure(ReferenceUnreadable(paths[i]))
  {
    ExistingStep(paths, i, env);
    AppendOpenedStep(content, Existing(paths[..i], env), paths[i], env);
  }

  /** Once attaching a prefix of `paths` raises, the whole of `paths` raises
      the same way. */
  lemma AttachFailureSticks(content: seq<Content>, paths: seq<string>, n: nat, env: Env)
    requires n <= |paths| && AppendOpened(content, Existing(paths[..n], env), env).Failure?
    ensures AppendOpened(content, Existing(paths, env), env) == AppendOpened(content, Existing(paths[..n], env), env)
  {
    ExistingConcat(paths[..n], paths[n..], env);
    assert paths[..n] + paths[n..] == paths;
    AppendOpenedFailureSticks(content, Existing(paths[..n], env), Existing(paths[n..], env), env);
  }

  /** Opens and appends each existing file of `paths`, in order. */
  method AttachImages(contentParts: seq<Content>, paths: seq<string>, env: Env)
    returns (r: Result<seq<Content>, Error>)
    ensures r == AppendOpened(contentParts, Existing(paths, env), env)
  {
    var parts := contentParts;
    assert Existing(paths[..0], env) == [] && Pictures([]) == [];
    assert contentParts + [] == contentParts;
    for i := 0 to |paths|
      invariant AppendOpened(contentParts, Existing(paths[..i], env), env) == Success(parts)
    {
      var path := paths[i];
      if path in env.existing {
        if path !in env.images {
          AttachFails(contentParts, paths, i, parts, env);
          AttachFailureSticks(contentParts, paths, i + 1, env);
          return Failure(ReferenceUnreadable(path));
        }
        AttachKeeps(contentParts, paths, i, parts, env);
        parts := parts + [Picture(path)];
      } else {
        AttachKeeps(contentParts, paths, i, parts, env);
        assert parts + [] == parts;
      }
    }
    assert paths[..|paths|] == paths;
    return Success(parts);
  }

  /** Resolves the `reference_images` argument: a list is used as given. */
  method ResolveReferences(arg: ReferenceArg, env: Env) returns (r: Result<seq<string>, Error>)
    ensures r == ReferencesFor(arg, env)
  {
    match arg {
      case DefaultFolder =>
        r := GetReferenceImages(None, env);
      case PathArg(p) =>
        r := GetReferenceImages(Some(p), env);
      case PathList(ps) =>
        r := Success(ps);
    }
  }

  /** The `try` block after the content is built: call the service and save
      the first inline image of the response. */
  method SaveFirstImage(reply: Reply, output: string, env: Env) returns (r: Result<Saved, Error>)
    ensures r == ImageFromReply(reply, output, env)
  {
    if reply.TransportError? {
      return Failure(GenerationFailed(TransportFailed));
    }
    var parts := reply.parts;
    for i := 0 to |parts|
      invariant forall j :: 0 <= j < i ==> !HasImage(parts[j])
    {
      var part := parts[i];
      if HasImage(part) {
        assert FirstImage(parts) == Some(i);
        var blob := part.inlineData.value;
        if blob.data !in env.decodable {
          return Failure(GenerationFailed(DecodeFailed));
        }
        if output !in env.writable {
          return Failure(GenerationFailed(SaveFailed(output)));
        }
        return Success(Saved(output, blob.data));
      }
    }
    return Failure(NoImageInResponse);
  }

  /** One generation, building `content_parts` by successive appends and
      returning at the first inline image of the response. */
  method GenerateThumbnail(req: Request, output: string, apiKey: Option<string>, env: Env, reply: Reply)
    returns (sent: Option<seq<Content>>, outcome: Outcome)
    ensures (sent, outcome) == ThumbnailRun(req, output, apiKey, env, reply)
  {
    if !KeyGiven(apiKey) {
      return None, ReturnedNone(CredentialMissing);
    }
    var resolved := ResolveReferences(req.references, env);
    if resolved.Failure? {
      return None, Raised(resolved.error);
    }
    var referenceImages := resolved.value;

    var enhancedPrompt := req.prompt;
    if StyleUsed(req.style, env) {
      enhancedPrompt := StylePrefix + req.prompt;
    }

    var contentParts := [Prompt(enhancedPrompt)];
    var styled := AttachImages(contentParts, StyleList(req.style), env);
    if styled.Failure? {
      return None, Raised(styled.error);
    }
    contentParts := styled.value;
    var withLogos := AttachImages(contentParts, LogoPaths(req.logos), env);
    if withLogos.Failure? {
      return None, Raised(withLogos.error);
    }
    contentParts := withLogos.value;
    var withRefs := AttachImages(contentParts, referenceImages, env);
    if withRefs.Failure? {
      return None, Raised(withRefs.error);
    }
    contentParts := withRefs.value;
    assert ContentFor(req, env) == Success(contentParts);
    sent := Some(contentParts);

    var saved := SaveFirstImage(reply, output, env);
    if saved.Success? {
      return sent, Written(saved.value);
    }
    return sent, ReturnedNone(saved.error);
  }

  // ---------------------------------------------------------------------------
  // main: the default-folder guard and the batch loop

  /** Output name of variation `i`: the root, `_v`, the number and the
      extension. */
  function VariantName(root: string, ext: string, i: nat): string {
    root + "_v" + NatToString(i) + ext
  }

  /** A variation name is the root, `_v`, the number in decimal and the
      extension. */
  lemma VariantNameParts(root: string, ext: string, i: nat)
    ensures var name, digits := VariantName(root, ext, i), NatToString(i);
            && |name| == |root| + 2 + |digits| + |ext|
            && name[..|root|] == root && name[|root|..|root| + 2] == "_v"
            && name[|root| + 2..|root| + 2 + |digits|] == digits
            && name[|name| - |ext|..] == ext
  {
  }

  lemma VariantNamesDistinct(root: string, ext: string, i: nat, j: nat)
    requires i != j
    ensures VariantName(root, ext, i) != VariantName(root, ext, j)
  {
    var a, b := VariantName(root, ext, i), VariantName(root, ext, j);
    if a == b {
      var di, dj := NatToString(i), NatToString(j);
      assert |di| == |dj|;
      assert a[|root| + 2..|a| - |ext|] == di;
      assert b[|root| + 2..|b| - |ext|] == dj;
      NatToStringInjective(i, j);
    }
  }

  /** The extension of the variation names: the output's own, or `.png`. */
  function VariantExtension(output: string): (ext: string)
    ensures IsExtension(ext)
    ensures SplitExt(output).1 != [] ==> ext == SplitExt(output).1
    ensures SplitExt(output).1 == [] ==> ext == DefaultExtension
  {
    if SplitExt(output).1 == [] then DefaultExtension else SplitExt(output).1
  }

  /** `splitext` of a variation name gives back the root with its `_v{i}`
      suffix and the extension it was built with. */
  lemma VariantNameSplits(root: string, ext: string, i: nat)
    requires IsExtension(ext)
    ensures SplitExt(VariantName(root, ext, i)) == (root + "_v" + NatToString(i), ext)
  {
    var name, digits := VariantName(root, ext, i), NatToString(i);
    var d := |root| + 2 + |digits|;
    VariantNameDots(root, ext, i);
    var sep, dot := LastIndexOf(name, '/'), LastIndexOf(name, '.');
    assert name[sep + 1..dot][|root| - (sep + 1)] == '_';
    SplitExtSplits(name);
    assert name == (root + "_v" + digits) + ext;
    assert name[..d] == root + "_v" + digits;
  }

  /** In a variation name the last `.` starts the extension and the last `/`,
      if any, lies within the root. */
  lemma VariantNameDots(root: string, ext: string, i: nat)
    requires IsExtension(ext)
    ensures var name := VariantName(root, ext, i);
            && LastIndexOf(name, '.') == |root| + 2 + |NatToString(i)|
            && LastIndexOf(name, '/') < |root|
  {
    var name, digits := VariantName(root, ext, i), NatToString(i);
    var d := |root| + 2 + |digits|;
    assert name == (root + "_v" + digits) + ext;
    assert forall k :: |root| <= k < |name| ==> name[k] != '/';
    assert name[d] == '.' && forall k :: d < k < |name| ==> name[k] != '.';
  }

  /** The names of variations 1 to `n`, in order. */
  function VariantNames(root: string, ext: string, n: nat): (names: seq<string>)
    ensures |names| == n
    ensures forall k :: 0 <= k < n ==> names[k] == VariantName(root, ext, k + 1)
  {
    seq(n, i requires 0 <= i < n => VariantName(root, ext, i + 1))
  }

  /** The output paths of a run: the given path itself for a single run;
      otherwise variation `i` (counted from one) writes `{root}_v{i}{ext}`,
      and there are none for a batch of zero or less. */
  function BatchOutputs(output: string, batch: int): (names: seq<string>)
    ensures batch == 1 ==> names == [output]
    ensures |names| == if batch > 0 then batch else 0
    ensures batch != 1 ==> forall k :: 0 <= k < |names| ==>
              names[k] == VariantName(SplitExt(output).0, VariantExtension(output), k + 1)
  {
    if batch == 1 then [output]
    else
      var root, ext := SplitExt(output).0, VariantExtension(output);
      VariantNames(root, ext, if batch > 0 then batch else 0)
  }

  /** No two variations of a run write the same file. */
  lemma BatchOutputsDistinct(output: string, batch: int)
    ensures var names := BatchOutputs(output, batch);
            forall a, b :: 0 <= a < b < |names| ==> names[a] != names[b]
  {
    var names := BatchOutputs(output, batch);
    forall a, b | 0 <= a < b < |names| ensures names[a] != names[b] {
      VariantNamesDistinct(SplitExt(output).0, VariantExtension(output), a + 1, b + 1);
    }
  }

  /** One variation: the path it writes to, what it sent and how it ended. */
  datatype Attempt = Attempt(output: string, sent: Option<seq<Content>>, outcome: Outcome)

  /** How `main` ends: after its attempts, at the argument check, at the
      missing default folder, or with an exception escaping a generation. */
  datatype Status = Finished | UsageError | FolderMissing | Crashed(why: Error)

  function AttemptFor(req: Request, output: string, apiKey: Option<string>, env: Env, reply: Reply): Attempt {
    var run := ThumbnailRun(req, output, apiKey, env, reply);
    Attempt(output, run.0, run.1)
  }

  /** The request `main` builds from its arguments. */
  function MainRequest(prompt: string, references: Option<string>, style: Option<string>, logos: Option<seq<string>>): Request {
    Request(prompt,
            if references.None? then DefaultFolder else PathArg(references.value),
            style,
            if logos.None? then NoLogo else LogoList(logos.value))
  }

  /** Variation `k` (counted from zero) of a batch run: `generate_thumbnail`
      under `{baseName}_v{k+1}{ext}`, on the file system as it is then and
      with the reply it gets. */
  function Variation(req: Request, baseName: string, ext: string, apiKey: Option<string>,
                     envs: nat -> Env, replies: nat -> Reply, k: nat): Attempt {
    AttemptFor(req, VariantName(baseName, ext, k + 1), apiKey, envs(k), replies(k))
  }

  /** One variation: `generate_thumbnail` under its output path. */
  method RunVariation(req: Request, baseName: string, ext: string, apiKey: Option<string>,
                      envs: nat -> Env, replies: nat -> Reply, k: nat)
    returns (attempt: Attempt)
    ensures attempt == Variation(req, baseName, ext, apiKey, envs, replies, k)
  {
    var output := VariantName(baseName, ext, k + 1);
    var sent, outcome := GenerateThumbnail(req, output, apiKey, envs(k), replies(k));
    attempt := Attempt(output, sent, outcome);
  }

  /** Whether a variation raises depends only on the file system it meets:
      two variations on the same file system both raise or neither does, so
      when nothing changes between attempts only the first can raise. */
  lemma SameFilesSameRaise(req: Request, baseName: string, ext: string, apiKey: Option<string>,
                           envs: nat -> Env, replies: nat -> Reply, j: nat, k: nat)
    requires envs(j) == envs(k)
    ensures Variation(req, baseName, ext, apiKey, envs, replies, j).outcome.Raised?
        <==> Variation(req, baseName, ext, apiKey, envs, replies, k).outcome.Raised?
  {
    RaisesIff(req, VariantName(baseName, ext, j + 1), apiKey, envs(j), replies(j));
    RaisesIff(req, VariantName(baseName, ext, k + 1), apiKey, envs(k), replies(k));
  }

  /** The first `n` variations of a batch run, in order. */
  function Variations(req: Request, baseName: string, ext: string, apiKey: Option<string>,
                      envs: nat -> Env, replies: nat -> Reply, n: nat): seq<Attempt>
    decreases n
  {
    if n == 0 then []
    else Variations(req, baseName, ext, apiKey, envs, replies, n - 1) + [Variation(req, baseName, ext, apiKey, envs, replies, n - 1)]
  }

  /** Entry `k` of the first `n` variations is variation `k`. */
  lemma {:induction false} VariationsAt(req: Request, baseName: string, ext: string, apiKey: Option<string>,
                                        envs: nat -> Env, replies: nat -> Reply, n: nat)
    ensures |Variations(req, baseName, ext, apiKey, envs, replies, n)| == n
    ensures forall k :: 0 <= k < n ==> Variations(req, baseName, ext, apiKey, envs, replies, n)[k] == Variation(req, baseName, ext, apiKey, envs, replies, k)
    decreases n
  {
    if n > 0 {
      var init := Variations(req, baseName, ext, apiKey, envs, replies, n - 1);
      VariationsAt(req, baseName, ext, apiKey, envs, replies, n - 1);
      assert Variations(req, baseName, ext, apiKey, envs, replies, n)
          == init + [Variation(req, baseName, ext, apiKey, envs, replies, n - 1)];
    }
  }

  /** The loop over the variations of a batch run (`--batch` other than 1),
      one reply per attempt: attempt `k` writes `{baseName}_v{k+1}{ext}` and
      sees the file system as `envs(k)` (which holds what earlier attempts
      saved); an exception ends the run. */
  method RunVariations(req: Request, baseName: string, ext: string, n: nat, apiKey: Option<string>,
                       envs: nat -> Env, replies: nat -> Reply)
    returns (attempts: seq<Attempt>, status: Status)
    ensures |attempts| <= n
    ensures attempts == Variations(req, baseName, ext, apiKey, envs, replies, |attempts|)
    ensures status == Finished || status.Crashed?
    ensures status == Finished ==> |attempts| == n && forall k :: 0 <= k < |attempts| ==> !attempts[k].outcome.Raised?
    ensures status.Crashed? ==> attempts != [] && attempts[|attempts| - 1].outcome == Raised(status.why)
                                && forall k :: 0 <= k < |attempts| - 1 ==> !attempts[k].outcome.Raised?
  {
    attempts := [];
    status := Finished;
    var i := 0;
    while i < n && status == Finished
      invariant i <= n && |attempts| == i
      invariant attempts == Variations(req, baseName, ext, apiKey, envs, replies, i)
      invariant status == Finished ==> forall k :: 0 <= k < i ==> !attempts[k].outcome.Raised?
      invariant status.Crashed? ==> i > 0 && attempts[i - 1].outcome == Raised(status.why)
                                    && forall k :: 0 <= k < i - 1 ==> !attempts[k].outcome.Raised?
      invariant status == Finished || status.Crashed?
    {
      var attempt := RunVariation(req, baseName, ext, apiKey, envs, replies, i);
      attempts := attempts + [attempt];
      if attempt.outcome.Raised? {
        status := Crashed(attempt.outcome.why);
      }
      i := i + 1;
    }
  }

  /** How the generations of a run went: attempt `k` is `generate_thumbnail`
      under the `k`-th output name, on the file system and with the reply it
      meets; all attempts are made unless one raises, which ends the run
      after it. */
  predicate BatchRun(req: Request, output: string, batch: int, apiKey: Option<string>,
                     envs: nat -> Env, replies: nat -> Reply, attempts: seq<Attempt>, status: Status) {
    var names := BatchOutputs(output, batch);
    && |attempts| <= |names|
    && (forall k :: 0 <= k < |attempts| ==> attempts[k] == AttemptFor(req, names[k], apiKey, envs(k), replies(k)))
    && (status == Finished || status.Crashed?)
    && (status == Finished ==> |attempts| == |names| && forall k :: 0 <= k < |attempts| ==> !attempts[k].outcome.Raised?)
    && (status.Crashed? ==> attempts != [] && attempts[|attempts| - 1].outcome == Raised(status.why)
                            && forall k :: 0 <= k < |attempts| - 1 ==> !attempts[k].outcome.Raised?)
  }

  /** The generations of `main` once its guards pass: one call for
      `--batch 1`, the variation loop otherwise. */
  method RunBatch(req: Request, output: string, batch: int, apiKey: Option<string>,
                  envs: nat -> Env, replies: nat -> Reply)
    returns (attempts: seq<Attempt>, status: Status)
    ensures BatchRun(req, output, batch, apiKey, envs, replies, attempts, status)
  {
    if batch == 1 {
      var sent, outcome := GenerateThumbnail(req, output, apiKey, envs(0), replies(0));
      attempts := [Attempt(output, sent, outcome)];
      status := if outcome.Raised? then Crashed(outcome.why) else Finished;
      return;
    }
    var baseName := SplitExt(output).0;
    var ext := VariantExtension(output);
    attempts, status := RunVariations(req, baseName, ext, if batch > 0 then batch else 0, apiKey, envs, replies);
    var names := BatchOutputs(output, batch);
    VariationsAt(req, baseName, ext, apiKey, envs, replies, |attempts|);
    forall k | 0 <= k < |attempts|
      ensures attempts[k] == AttemptFor(req, names[k], apiKey, envs(k), replies(k))
    {
      assert names[k] == VariantName(baseName, ext, k + 1);
    }
  }

  /** `main` without `--setup`: the prompt and default-folder guards, then
      the generations, one reply and one file-system state per attempt. */
  method ThumbnailMain(prompt: Option<string>, references: Option<string>, style: Option<string>,
                       logos: Option<seq<string>>, output: string, batch: int,
                       apiKey: Option<string>, envs: nat -> Env, replies: nat -> Reply)
    returns (attempts: seq<Attempt>, status: Status)
    ensures prompt.None? || prompt.value == [] ==> attempts == [] && status == UsageError
    ensures prompt.Some? && prompt.value != [] && references.None? && DefaultReferenceFolder !in envs(0).existing
            ==> attempts == [] && status == FolderMissing
    ensures prompt.Some? && prompt.value != [] && (references.Some? || DefaultReferenceFolder in envs(0).existing) ==>
            BatchRun(MainRequest(prompt.value, references, style, logos), output, batch, apiKey, envs, replies, attempts, status)
  {
    if prompt.None? || prompt.value == [] {
      return [], UsageError;
    }
    if references.None? && DefaultReferenceFolder !in envs(0).existing {
      return [], FolderMissing;
    }
    attempts, status := RunBatch(MainRequest(prompt.value, references, style, logos), output, batch, apiKey, envs, replies);
  }
}
