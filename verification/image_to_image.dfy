/** `image-to-image.py`: reference images given as `path` or
    `path:description` tokens are parsed, validated one by one, described in
    the prompt by their 1-based position, and sent after the prompt to the
    service; the first inline image of the response is saved. */
module ImageToImage {
  import opened Wrappers
  import opened Text
  import opened Environment
  import opened Service

  /** The most reference images one request may carry. */
  const MaxImages := 14

  /** A parsed `-i` argument: the image path and its optional role text. */
  datatype ImageSpec = ImageSpec(path: string, description: Option<string>)

  // ---------------------------------------------------------------------------
  // parse_image_arg

  /** Splits a token at its first `:`; both sides are whitespace-stripped. */
  function ParseImageArg(arg: string): (spec: ImageSpec)
    ensures ':' !in arg ==> spec == ImageSpec(Strip(arg), None)
    ensures ':' in arg <==> spec.description.Some?
  {
    match IndexOf(arg, ':')
    case None => ImageSpec(Strip(arg), None)
    case Some(k) => ImageSpec(Strip(arg[..k]), Some(Strip(arg[k + 1..])))
  }

  /** The first colon separates path from description; later colons stay in
      the description. */
  lemma ParseSplitsAtFirstColon(before: string, after: string)
    requires ':' !in before
    ensures ParseImageArg(before + ":" + after) == ImageSpec(Strip(before), Some(Strip(after)))
  {
    var arg := before + ":" + after;
    assert arg[|before|] == ':';
    var k := IndexOf(arg, ':').value;
    assert k == |before|;
    assert arg[..k] == before && arg[k + 1..] == after;
  }

  /** `"p:"` has the empty description, not none. */
  lemma ParseEmptyDescription(before: string)
    requires ':' !in before
    ensures ParseImageArg(before + ":").description == Some("")
  {
    var arg := before + ":";
    assert arg == before + ":" + "";
    ParseSplitsAtFirstColon(before, "");
    assert Strip("") == "";
  }

  /** The parsed form of every command-line token, in order. */
  function ParsedSpecs(args: seq<string>): (specs: seq<ImageSpec>)
    ensures |specs| == |args|
    ensures forall k :: 0 <= k < |args| ==> specs[k] == ParseImageArg(args[k])
  {
    seq(|args|, k requires 0 <= k < |args| => ParseImageArg(args[k]))
  }

  // ---------------------------------------------------------------------------
  // validate_images

  /** Why one spec is rejected: a missing file first, then one that does not open. */
  function SpecError(spec: ImageSpec, env: Env): (e: Option<Error>)
    ensures e.None? <==> spec.path in env.existing && spec.path in env.images
    ensures e == Some(ReferenceNotFound(spec.path)) <==> spec.path !in env.existing
    ensures e.Some? ==> e.value == ReferenceNotFound(spec.path) || e.value == ReferenceUnreadable(spec.path)
  {
    if spec.path !in env.existing then Some(ReferenceNotFound(spec.path))
    else if spec.path !in env.images then Some(ReferenceUnreadable(spec.path))
    else None
  }

  /** The position of the first spec that is rejected. */
  function FirstInvalid(specs: seq<ImageSpec>, env: Env): (r: Option<nat>)
    ensures r.None? ==> forall j :: 0 <= j < |specs| ==> SpecError(specs[j], env).None?
    ensures r.Some? ==> r.value < |specs| && SpecError(specs[r.value], env).Some?
    ensures r.Some? ==> forall j :: 0 <= j < r.value ==> SpecError(specs[j], env).None?
  {
    if specs == [] then None
    else if SpecError(specs[0], env).Some? then Some(0)
    else
      match FirstInvalid(specs[1..], env)
      case None => None
      case Some(k) => Some(k + 1)
  }

  /** Checks the specs in order and stops at the first bad one; a list that
      passes is returned as it was given. */
  method ValidateImages(specs: seq<ImageSpec>, env: Env) returns (r: Result<seq<ImageSpec>, Error>)
    ensures FirstInvalid(specs, env).None? ==> r == Success(specs)
    ensures FirstInvalid(specs, env).Some? ==>
              r == Failure(SpecError(specs[FirstInvalid(specs, env).value], env).value)
  {
    var validated: seq<ImageSpec> := [];
    for i := 0 to |specs|
      invariant validated == specs[..i]
      invariant forall j :: 0 <= j < i ==> SpecError(specs[j], env).None?
    {
      var spec := specs[i];
      if spec.path !in env.existing {
        return Failure(ReferenceNotFound(spec.path));
      }
      if spec.path !in env.images {
        return Failure(ReferenceUnreadable(spec.path));
      }
      validated := validated + [spec];
    }
    assert specs[..|specs|] == specs;
    return Success(validated);
  }

  /** Entries after the first bad one cannot change the verdict. */
  lemma ValidationIgnoresLaterEntries(specs: seq<ImageSpec>, more: seq<ImageSpec>, env: Env)
    requires FirstInvalid(specs, env).Some?
    ensures FirstInvalid(specs + more, env) == FirstInvalid(specs, env)
  {
    var k := FirstInvalid(specs, env).value;
    assert forall j :: 0 <= j <= k ==> (specs + more)[j] == specs[j];
  }

  // ---------------------------------------------------------------------------
  // build_prompt_with_descriptions

  /** The description is truthy: present and non-empty. */
  predicate Described(spec: ImageSpec) {
    spec.description.Some? && spec.description.value != []
  }

  /** `any(desc for _, desc in image_specs)` */
  predicate AnyDescribed(specs: seq<ImageSpec>) {
    exists j :: 0 <= j < |specs| && Described(specs[j])
  }

  /** `f"Image {i} ({Path(path).name}): {description}"` */
  function ImageLine(i: nat, spec: ImageSpec): string
    requires spec.description.Some?
  {
    "Image " + NatToString(i) + " (" + FileName(spec.path) + "): " + spec.description.value
  }

  /** One line per described spec, numbered by its 1-based position in the
      whole list. */
  function DescriptionLines(specs: seq<ImageSpec>): (lines: seq<string>)
    ensures |lines| <= |specs|
  {
    if specs == [] then []
    else
      var n := |specs|;
      DescriptionLines(specs[..n - 1]) + (if Described(specs[n - 1]) then [ImageLine(n, specs[n - 1])] else [])
  }

  /** Walking one more spec adds its line at the end exactly when it is described. */
  lemma DescriptionLinesExtend(specs: seq<ImageSpec>, i: nat)
    requires i < |specs|
    ensures DescriptionLines(specs[..i + 1])
         == DescriptionLines(specs[..i]) + (if Described(specs[i]) then [ImageLine(i + 1, specs[i])] else [])
  {
    assert specs[..i + 1][..i] == specs[..i];
  }

  /** The lines are exactly the numbered lines of the described specs: each
      described spec at position k contributes `Image k+1 …`, and nothing else
      appears. */
  lemma {:induction false} DescriptionLinesMembers(specs: seq<ImageSpec>)
    ensures forall k :: 0 <= k < |specs| && Described(specs[k]) ==> ImageLine(k + 1, specs[k]) in DescriptionLines(specs)
    ensures forall l :: l in DescriptionLines(specs) ==>
              exists k :: 0 <= k < |specs| && Described(specs[k]) && l == ImageLine(k + 1, specs[k])
  {
    if specs != [] {
      var n := |specs|;
      var init := specs[..n - 1];
      DescriptionLinesMembers(init);
      var tail := if Described(specs[n - 1]) then [ImageLine(n, specs[n - 1])] else [];
      assert DescriptionLines(specs) == DescriptionLines(init) + tail;
      forall k | 0 <= k < n && Described(specs[k])
        ensures ImageLine(k + 1, specs[k]) in DescriptionLines(specs)
      {
        if k < n - 1 {
          assert init[k] == specs[k];
        }
      }
      forall l | l in DescriptionLines(specs)
        ensures exists k :: 0 <= k < n && Described(specs[k]) && l == ImageLine(k + 1, specs[k])
      {
        if l in DescriptionLines(init) {
          var k :| 0 <= k < |init| && Described(init[k]) && l == ImageLine(k + 1, init[k]);
          assert specs[k] == init[k];
        } else {
          assert l in tail;
        }
      }
    }
  }

  /** There is a description line exactly when some spec is described. */
  lemma {:induction false} LinesIffDescribed(specs: seq<ImageSpec>)
    ensures DescriptionLines(specs) != [] <==> AnyDescribed(specs)
  {
    if specs != [] {
      var n := |specs|;
      var init := specs[..n - 1];
      LinesIffDescribed(init);
      if AnyDescribed(init) {
        var j :| 0 <= j < |init| && Described(init[j]);
        assert specs[j] == init[j];
      }
      if AnyDescribed(specs) && !Described(specs[n - 1]) {
        var j :| 0 <= j < n && Described(specs[j]);
        assert init[j] == specs[j];
      }
    }
  }

  /** The prompt sent with the images: the base prompt verbatim when no image
      is described, otherwise the description lines, a blank line and
      `Generate: ` before the base prompt. */
  function ComposedPrompt(base: string, specs: seq<ImageSpec>): (r: string)
    ensures !AnyDescribed(specs) ==> r == base
    ensures AnyDescribed(specs) ==> DescriptionLines(specs) != []
    ensures AnyDescribed(specs) ==> r == JoinWith(DescriptionLines(specs), "\n") + "\n\nGenerate: " + base
  {
    if !AnyDescribed(specs) then base
    else
      var lines := DescriptionLines(specs);
      LinesIffDescribed(specs);
      if lines != [] then JoinWith(lines, "\n") + "\n\nGenerate: " + base
      else base
  }

  /** Builds the prompt by walking the specs with their 1-based positions. */
  method BuildPromptWithDescriptions(base: string, specs: seq<ImageSpec>) returns (prompt: string)
    ensures prompt == ComposedPrompt(base, specs)
  {
    if !AnyDescribed(specs) {
      return base;
    }
    var enhancedParts: seq<string> := [];
    for i := 0 to |specs|
      invariant enhancedParts == DescriptionLines(specs[..i])
    {
      DescriptionLinesExtend(specs, i);
      if Described(specs[i]) {
        enhancedParts := enhancedParts + [ImageLine(i + 1, specs[i])];
      }
    }
    assert specs[..|specs|] == specs;
    if enhancedParts != [] {
      return JoinWith(enhancedParts, "\n") + "\n\nGenerate: " + base;
    }
    return base;
  }

  lemma JoinTwo(a: string, b: string, sep: string)
    ensures JoinWith([a, b], sep) == a + sep + b
  {
    assert [a, b][1..] == [b];
  }

  /** Of three specs with only the first and the third described, the lines
      are those of images 1 and 3: numbering follows the position in the whole
      list, not the count of lines. */
  lemma NumberedByPosition(specs: seq<ImageSpec>)
    requires |specs| == 3 && Described(specs[0]) && !Described(specs[1]) && Described(specs[2])
    ensures DescriptionLines(specs) == [ImageLine(1, specs[0]), ImageLine(3, specs[2])]
  {
    var s1, s2 := specs[..1], specs[..2];
    assert s1[..0] == [] && s2[..1] == s1 && specs[..2] == s2;
    assert DescriptionLines(s1) == [] + [ImageLine(1, specs[0])];
    assert DescriptionLines(s2) == DescriptionLines(s1) + [];
  }

  /** The prompt for those three specs names images 1 and 3, one per line,
      before the base prompt. */
  lemma ComposedSkipsUndescribed(specs: seq<ImageSpec>, base: string)
    requires |specs| == 3 && Described(specs[0]) && !Described(specs[1]) && Described(specs[2])
    ensures ComposedPrompt(base, specs)
         == ImageLine(1, specs[0]) + "\n" + ImageLine(3, specs[2]) + "\n\nGenerate: " + base
  {
    NumberedByPosition(specs);
    assert AnyDescribed(specs) by {
      assert Described(specs[0]);
    }
    JoinTwo(ImageLine(1, specs[0]), ImageLine(3, specs[2]), "\n");
  }

  /** Every line starts with `Image `, its number and the file name in
      parentheses, and ends with the description. */
  lemma ImageLineParts(i: nat, spec: ImageSpec)
    requires spec.description.Some?
    ensures var line, d := ImageLine(i, spec), spec.description.value;
            && |line| >= 11 + |d|
            && line[..6] == "Image "
            && line[|line| - |d|..] == d
  {
    var head := "Image " + NatToString(i) + " (" + FileName(spec.path) + "): ";
    var d := spec.description.value;
    assert ImageLine(i, spec) == head + d;
    assert head[..6] == "Image ";
  }

  /** A line for an image numbered below ten, whose path has no directory part. */
  lemma ImageLineFormat(i: nat, path: string, desc: string, line: string)
    requires i < 10 && '/' !in path
    requires line == "Image " + [Digit(i)] + " (" + path + "): " + desc
    ensures ImageLine(i, ImageSpec(path, Some(desc))) == line
  {
    assert FileName(path) == path;
  }

  // ---------------------------------------------------------------------------
  // generate_image

  function Paths(specs: seq<ImageSpec>): (ps: seq<string>)
    ensures |ps| == |specs| && forall k :: 0 <= k < |specs| ==> ps[k] == specs[k].path
  {
    seq(|specs|, k requires 0 <= k < |specs| => specs[k].path)
  }

  /** The checks made before the service is called, in the order they are
      made, and the content list sent when they all pass. */
  function ImageRequest(specs: seq<ImageSpec>, prompt: string, apiKey: Option<string>, env: Env)
    : (r: Result<seq<Content>, Error>)
    ensures r.Success? <==> KeyGiven(apiKey) && 1 <= |specs| <= MaxImages
                            && forall j :: 0 <= j < |specs| ==> specs[j].path in env.images
    ensures r.Success? ==> |r.value| == |specs| + 1 && r.value[0] == Prompt(ComposedPrompt(prompt, specs))
    ensures r.Success? ==> forall k :: 0 <= k < |specs| ==> r.value[k + 1] == Picture(specs[k].path)
  {
    if !KeyGiven(apiKey) then Failure(CredentialMissing)
    else if |specs| > MaxImages then Failure(ReferenceCountExceeded(|specs|))
    else if |specs| == 0 then Failure(NoReferencesProvided)
    else
      match FirstUnopenable(Paths(specs), env)
      case Some(k) => Failure(GenerationFailed(OpenFailed(specs[k].path)))
      case None => Success([Prompt(ComposedPrompt(prompt, specs))] + Pictures(Paths(specs)))
  }

  /** 0 and 15 images are refused, 1 and 14 accepted (with a key and readable files). */
  lemma ImageCountBoundaries(prompt: string, apiKey: Option<string>, env: Env, spec: ImageSpec)
    requires KeyGiven(apiKey) && spec.path in env.images
    ensures ImageRequest([], prompt, apiKey, env) == Failure(NoReferencesProvided)
    ensures ImageRequest(seq(15, _ => spec), prompt, apiKey, env) == Failure(ReferenceCountExceeded(15))
    ensures ImageRequest([spec], prompt, apiKey, env).Success?
    ensures ImageRequest(seq(14, _ => spec), prompt, apiKey, env).Success?
  {
  }

  /** What the response loop shows and saves: the texts met before the first
      inline image, and that image decoded and written to `output`. */
  predicate ReplyHandled(reply: Reply, output: string, env: Env, shown: seq<string>, r: Result<Saved, Error>) {
    r == ImageFromReply(reply, output, env) &&
    match reply
    case TransportError => shown == []
    case Response(parts) =>
      match FirstImage(parts)
      case None => shown == TextsOf(parts)
      case Some(k) => shown == TextsOf(parts[..k])
  }

  /** One generation: key and count checks, prompt, content list, service
      call and response scan.  `sent` is the content given to the service
      (`None`: the service was not called), `shown` the response texts
      printed, `r` the saved image or the reason for exiting. */
  method GenerateImage(specs: seq<ImageSpec>, prompt: string, output: string, apiKey: Option<string>,
                       env: Env, reply: Reply)
    returns (sent: Option<seq<Content>>, shown: seq<string>, r: Result<Saved, Error>)
    ensures sent == ImageRequest(specs, prompt, apiKey, env).ToOption()
    ensures sent.None? ==> shown == [] && r == Failure(ImageRequest(specs, prompt, apiKey, env).error)
    ensures sent.Some? ==> ReplyHandled(reply, output, env, shown, r)
  {
    shown := [];
    if !KeyGiven(apiKey) {
      return None, shown, Failure(CredentialMissing);
    }
    if |specs| > MaxImages {
      return None, shown, Failure(ReferenceCountExceeded(|specs|));
    }
    if |specs| == 0 {
      return None, shown, Failure(NoReferencesProvided);
    }
    var enhancedPrompt := BuildPromptWithDescriptions(prompt, specs);

    var contents := [Prompt(enhancedPrompt)];
    for i := 0 to |specs|
      invariant |contents| == i + 1 && contents[0] == Prompt(enhancedPrompt)
      invariant forall k :: 0 <= k < i ==> contents[k + 1] == Picture(specs[k].path)
      invariant forall j :: 0 <= j < i ==> specs[j].path in env.images
    {
      if specs[i].path !in env.images {
        return None, shown, Failure(GenerationFailed(OpenFailed(specs[i].path)));
      }
      contents := contents + [Picture(specs[i].path)];
    }
    assert contents == [Prompt(enhancedPrompt)] + Pictures(Paths(specs));
    sent := Some(contents);
    shown, r := ScanResponse(reply, output, env);
  }

  /** The response loop: print each text part until the first inline image,
      then decode and save that image. */
  method ScanResponse(reply: Reply, output: string, env: Env) returns (shown: seq<string>, r: Result<Saved, Error>)
    ensures ReplyHandled(reply, output, env, shown, r)
  {
    shown := [];
    if reply.TransportError? {
      return shown, Failure(GenerationFailed(TransportFailed));
    }
    var parts := reply.parts;
    var imageSaved := false;
    var i := 0;
    r := Failure(NoImageInResponse);
    while i < |parts|
      invariant 0 <= i <= |parts|
      invariant forall j :: 0 <= j < i ==> !HasImage(parts[j])
      invariant shown == TextsOf(parts[..i])
      invariant !imageSaved
    {
      var part := parts[i];
      if HasImage(part) {
        assert FirstImage(parts) == Some(i);
        var blob := part.inlineData.value;
        if blob.data !in env.decodable {
          return shown, Failure(GenerationFailed(DecodeFailed));
        }
        if output !in env.writable {
          return shown, Failure(GenerationFailed(SaveFailed(output)));
        }
        r := Success(Saved(output, blob.data));
        imageSaved := true;
        break;
      } else if HasText(part) {
        shown := shown + [part.text.value];
      }
      assert parts[..i + 1][..i] == parts[..i];
      i := i + 1;
    }
    if !imageSaved {
      assert parts[..i] == parts;
      r := Failure(NoImageInResponse);
    }
  }

  /** `main`: parse every token, validate, then generate. */
  method RunImageToImage(args: seq<string>, prompt: string, output: string, apiKey: Option<string>,
                         env: Env, reply: Reply)
    returns (sent: Option<seq<Content>>, shown: seq<string>, r: Result<Saved, Error>)
    ensures var specs := ParsedSpecs(args);
            FirstInvalid(specs, env).Some? ==>
              sent.None? && shown == [] &&
              r == Failure(SpecError(specs[FirstInvalid(specs, env).value], env).value)
    ensures var specs := ParsedSpecs(args);
            FirstInvalid(specs, env).None? ==>
              && sent == ImageRequest(specs, prompt, apiKey, env).ToOption()
              && (sent.None? ==> shown == [] && r == Failure(ImageRequest(specs, prompt, apiKey, env).error))
              && (sent.Some? ==> ReplyHandled(reply, output, env, shown, r))
  {
    var imageSpecs := ParsedSpecs(args);
    var validated := ValidateImages(imageSpecs, env);
    if validated.Failure? {
      return None, [], Failure(validated.error);
    }
    sent, shown, r := GenerateImage(validated.value, prompt, output, apiKey, env, reply);
  }
}
