/**
  `genRemoveAction({ prompt, activeImageUrl })`: insert the generative-remove
  effect, with the URI-encoded prompt naming what to remove, after
  "/upload/", and poll until the image is ready.
 */
module GenRemove {
  import opened Wrappers
  import opened UriComponent
  import opened UploadUrl
  import opened ActionResults
  import WaitForProcessing

  const EffectPrefix := "e_gen_remove:prompt_"
  const GenericMessage := "An unexpected error occurred while processing the image"

  /**
    The transformation segment. It is a single path segment whatever the
    prompt, and the prompt reads back from it, so distinct prompts give
    distinct segments.
   */
  function Token(prompt: string): (t: string)
    ensures |t| >= |EffectPrefix| && t[..|EffectPrefix|] == EffectPrefix
    ensures Decode(t[|EffectPrefix|..]) == Some(prompt)
    ensures '/' !in t
  {
    EncodeHasNoSeparator(prompt);
    DecodeEncode(prompt);
    var t := EffectPrefix + Encode(prompt);
    assert t[|EffectPrefix|..] == Encode(prompt);
    assert forall k :: 0 <= k < |t| ==> t[k] != '/' by {
      forall k | 0 <= k < |t| ensures t[k] != '/' {
        if k >= |EffectPrefix| {
          assert t[k] == Encode(prompt)[k - |EffectPrefix|];
        }
      }
    }
    t
  }

  /** An empty prompt still gives the effect, with nothing after "prompt_". */
  lemma TokenEmptyPrompt()
    ensures Token("") == EffectPrefix
  {
    assert Encode("") == "";
  }

  /** `constructUrl`: the effect goes between the halves of the URL; without them, "Invalid URL format". */
  function ConstructUrl(activeImageUrl: string, prompt: string): (r: Result<string>)
    ensures forall b, p :: ValidHalves(activeImageUrl, b, p) ==> r == Ok(b + Marker + Token(prompt) + "/" + p)
    ensures r.Err? ==> r.error == InvalidUrlFormat && forall b, p :: !ValidHalves(activeImageUrl, b, p)
    ensures (forall b, p :: !ValidHalves(activeImageUrl, b, p)) ==> r == Err(InvalidUrlFormat)
  {
    Splice(activeImageUrl, Token(prompt))
  }

  /**
    The action, given the answers `check` of the image checks: a URL that
    cannot be built is reported before any check; otherwise the built URL is
    polled and returned unless the poll threw, whose message is reported.
   */
  function GenRemoveAction(prompt: string, activeImageUrl: string, check: WaitForProcessing.Checker): (r: ActionRun<string>)
    ensures ConstructUrl(activeImageUrl, prompt).Err? ==> r == ActionRun(WithError(InvalidUrlFormat), [])
    ensures ConstructUrl(activeImageUrl, prompt).Ok? ==>
      r.trace == WaitForProcessing.ImagePoll(ConstructUrl(activeImageUrl, prompt).value, check).trace
    ensures r.result.WithResult? <==>
      ConstructUrl(activeImageUrl, prompt).Ok? &&
      WaitForProcessing.ImagePoll(ConstructUrl(activeImageUrl, prompt).value, check).thrown.None?
    ensures r.result.WithResult? ==> r.result.result == ConstructUrl(activeImageUrl, prompt).value
    ensures ConstructUrl(activeImageUrl, prompt).Ok? ==>
      var poll := WaitForProcessing.ImagePoll(ConstructUrl(activeImageUrl, prompt).value, check);
      poll.thrown.Some? ==> r.result == WithError(CaughtMessage(poll.thrown.value, GenericMessage))
    ensures r.result.WithError? ==>
      r.result.error in {InvalidUrlFormat, WaitForProcessing.ExhaustedMessage, WaitForProcessing.UnexpectedMessage}
    ensures Checks(r.trace) <= WaitForProcessing.MaxAttempts
  {
    var built := ConstructUrl(activeImageUrl, prompt);
    var r := Orchestrate(built, WaitForProcessing.ImagePoller(check), url => url, GenericMessage);
    if built.Ok? then
      WaitForProcessing.ImagePollBounds(built.value, check);
      WaitForProcessing.ImagePollThrows(built.value, check);
      r
    else
      r
  }
}
