/** The generation service as the scripts see it: the content they send (text
    and images, in order) and the response parts they get back. */
module Service {
  import opened Wrappers
  import opened Environment

  datatype Blob = Blob(mimeType: string, data: Bytes)

  /** A response part: optional inline data and optional text. */
  datatype Part = Part(inlineData: Option<Blob>, text: Option<string>)

  /** `part.inline_data` is truthy: present, with some field set. */
  predicate HasImage(p: Part) {
    p.inlineData.Some? && (p.inlineData.value.mimeType != [] || p.inlineData.value.data != [])
  }

  /** `part.text` is truthy: present and non-empty. */
  predicate HasText(p: Part) {
    p.text.Some? && p.text.value != []
  }

  /** What `generate_content` gives back: response parts, or an exception. */
  datatype Reply = Response(parts: seq<Part>) | TransportError

  /** One element of the content list sent to the service. */
  datatype Content = Prompt(text: string) | Picture(path: string)

  /** `[Image.open(p) for p in paths]` */
  function Pictures(paths: seq<string>): (r: seq<Content>)
    ensures |r| == |paths|
    ensures forall k :: 0 <= k < |r| ==> r[k] == Picture(paths[k])
  {
    seq(|paths|, k requires 0 <= k < |paths| => Picture(paths[k]))
  }

  /** An image written to disk, and the inline data it was decoded from. */
  datatype Saved = Saved(path: string, data: Bytes)

  /** The position of the first part with truthy inline data. */
  function FirstImage(parts: seq<Part>): (r: Option<nat>)
    ensures r.None? ==> forall j :: 0 <= j < |parts| ==> !HasImage(parts[j])
    ensures r.Some? ==> r.value < |parts| && HasImage(parts[r.value])
    ensures r.Some? ==> forall j :: 0 <= j < r.value ==> !HasImage(parts[j])
  {
    if parts == [] then None
    else if HasImage(parts[0]) then Some(0)
    else
      match FirstImage(parts[1..])
      case None => None
      case Some(k) => Some(k + 1)
  }

  /** Parts after the first image are never looked at. */
  lemma FirstImageIgnoresLaterParts(parts: seq<Part>, more: seq<Part>)
    requires FirstImage(parts).Some?
    ensures FirstImage(parts + more) == FirstImage(parts)
  {
    var k := FirstImage(parts).value;
    assert forall j :: 0 <= j <= k ==> (parts + more)[j] == parts[j];
  }

  /** The truthy texts of `parts`, in order. */
  function TextsOf(parts: seq<Part>): (r: seq<string>)
    ensures |r| <= |parts|
    ensures forall t :: t in r ==> t != []
    ensures forall t :: t in r <==> exists j :: 0 <= j < |parts| && HasText(parts[j]) && parts[j].text.value == t
  {
    if parts == [] then []
    else
      var last := parts[|parts| - 1];
      TextsOf(parts[..|parts| - 1]) + (if HasText(last) then [last.text.value] else [])
  }

  /** Texts are surfaced in the order of their parts: scanning `a` then `b`
      shows `a`'s texts before `b`'s. */
  lemma {:induction false} TextsOfConcat(a: seq<Part>, b: seq<Part>)
    ensures TextsOf(a + b) == TextsOf(a) + TextsOf(b)
    decreases |b|
  {
    if b == [] {
      assert a + b == a;
    } else {
      var init := b[..|b| - 1];
      assert (a + b)[..|a + b| - 1] == a + init;
      assert (a + b)[|a + b| - 1] == b[|b| - 1];
      TextsOfConcat(a, init);
    }
  }

  /** `Image.open(io.BytesIO(blob.data)).save(output)` */
  function SaveImage(blob: Blob, output: string, env: Env): (r: Result<Saved, Error>)
    ensures r.Success? <==> blob.data in env.decodable && output in env.writable
    ensures r.Success? ==> r.value == Saved(output, blob.data)
    ensures r.Failure? ==> r.error.GenerationFailed?
  {
    if blob.data !in env.decodable then Failure(GenerationFailed(DecodeFailed))
    else if output !in env.writable then Failure(GenerationFailed(SaveFailed(output)))
    else Success(Saved(output, blob.data))
  }

  /** The image of a reply saved to `output`: the first inline image, decoded
      and written, or why there is none. */
  function ImageFromReply(reply: Reply, output: string, env: Env): (r: Result<Saved, Error>)
    ensures reply.TransportError? ==> r == Failure(GenerationFailed(TransportFailed))
    ensures r == Failure(NoImageInResponse) <==> reply.Response? && FirstImage(reply.parts).None?
    ensures r.Success? ==> reply.Response? && FirstImage(reply.parts).Some?
                           && r.value == Saved(output, reply.parts[FirstImage(reply.parts).value].inlineData.value.data)
    ensures reply.Response? && FirstImage(reply.parts).Some?
            ==> r == SaveImage(reply.parts[FirstImage(reply.parts).value].inlineData.value, output, env)
  {
    match reply
    case TransportError => Failure(GenerationFailed(TransportFailed))
    case Response(parts) =>
      match FirstImage(parts)
      case None => Failure(NoImageInResponse)
      case Some(k) => SaveImage(parts[k].inlineData.value, output, env)
  }

  /** A text part before an image part does not hide the image; text alone
      gives no image. */
  lemma TextThenImage(t: string, blob: Blob)
    requires t != [] && blob.data != []
    ensures FirstImage([Part(None, Some(t)), Part(Some(blob), None)]) == Some(1)
    ensures FirstImage([Part(None, Some(t))]) == None
    ensures TextsOf([Part(None, Some(t))]) == [t]
  {
    var ps := [Part(None, Some(t)), Part(Some(blob), None)];
    assert !HasImage(ps[0]) && HasImage(ps[1]);
    var q := [Part(None, Some(t))];
    assert q[..0] == [];
  }
}
