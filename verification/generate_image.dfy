/** `generate_image.py`: one image from a text prompt alone, with no
    reference images. */
module GenerateImageScript {
  import opened Wrappers
  import opened Environment
  import opened Service

  /** The stand-in key the script ships with; finding it means no key was set. */
  const KeyPlaceholder := "YOUR_API_KEY"

  /** One run of the script.  `apiKey` is `GEMINI_API_KEY` (`None`: unset),
      which falls back to the placeholder.  `sent` is the content given to
      the service (`None`: it was not called), `r` the saved image or the
      reason the run printed an error instead. */
  method RunGenerateImage(prompt: string, output: string, apiKey: Option<string>, env: Env, reply: Reply)
    returns (sent: Option<seq<Content>>, r: Result<Saved, Error>)
    ensures sent.None? <==> apiKey.None? || apiKey.value == [] || apiKey.value == KeyPlaceholder
    ensures sent.None? ==> r == Failure(CredentialMissing)
    ensures sent.Some? ==> sent.value == [Prompt(prompt)] && r == ImageFromReply(reply, output, env)
  {
    var key := apiKey.GetOr(KeyPlaceholder);
    if key == [] || key == KeyPlaceholder {
      return None, Failure(CredentialMissing);
    }
    sent := Some([Prompt(prompt)]);
    if reply.TransportError? {
      return sent, Failure(GenerationFailed(TransportFailed));
    }
    var parts := reply.parts;
    var image: Option<Bytes> := None;
    for i := 0 to |parts|
      invariant image.None?
      invariant forall j :: 0 <= j < i ==> !HasImage(parts[j])
    {
      if HasImage(parts[i]) {
        var data := parts[i].inlineData.value.data;
        if data !in env.decodable {
          return sent, Failure(GenerationFailed(DecodeFailed));
        }
        image := Some(data);
        assert FirstImage(parts) == Some(i);
        break;
      }
    }
    if image.Some? {
      if output !in env.writable {
        return sent, Failure(GenerationFailed(SaveFailed(output)));
      }
      return sent, Success(Saved(output, image.value));
    }
    return sent, Failure(NoImageInResponse);
  }
}
