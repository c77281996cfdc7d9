/**
  `bgReplaceAction({ activeImageUrl, prompt })`: insert the generative
  background-replace effect after "/upload/", with the URI-encoded prompt
  when one is given, and poll until the image is ready.
 */
module BgReplace {
  import opened Wrappers
  import opened UriComponent
  import opened UploadUrl
  import opened ActionResults
  import WaitForProcessing

  const Effect := "e_gen_background_replace"
  const PromptPrefix := ":prompt_"
  const GenericMessage := "An unexpected error occurred while processing the image"

  /**
    The transformation segment: the bare effect for an empty prompt,
    otherwise the effect with the encoded prompt, which reads back from it.
    It is a single path segment either way.
   */
  function Token(prompt: string): (t: string)
    ensures prompt == "" <==> t == Effect
    ensures prompt != "" ==>
      |t| > |Effect + PromptPrefix| && t[..|Effect + PromptPrefix|] == Effect + PromptPrefix &&
      Decode(t[|Effect + PromptPrefix|..]) == Some(prompt)
    ensures '/' !in t
  {
    if prompt == "" then Effect
    else
      var head := Effect + PromptPrefix;
      EncodeHasNoSeparator(prompt);
      DecodeEncode(prompt);
      var t := head + Encode(prompt);
      assert t[|head|..] == Encode(prompt);
      assert forall k :: 0 <= k < |t| ==> t[k] != '/' by {
        forall k | 0 <= k < |t| ensures t[k] != '/' {
          if k >= |head| {
            assert t[k] == Encode(prompt)[k - |head|];
          }
        }
      }
      t
  }

  /** Distinct prompts give distinct segments. */
  lemma TokenInjective(a: string, b: string)
    requires Token(a) == Token(b)
    ensures a == b
  {
    if a != "" && b != "" {
      assert Decode(Token(a)[|Effect + PromptPrefix|..]) == Some(a);
    }
  }

  /** `constructUrl`: the effect goes between the halves of the URL; without them, "Invalid URL format". */
  function ConstructUrl(activeImageUrl: string, prompt: string): (r: Result<string>)
    ensures forall b, p :: ValidHalves(activeImageUrl, b, p) ==> r == Ok(b + Marker + Token(prompt) + "/" + p)
    ensures r.Err? ==> r.error == InvalidUrlFormat && forall b, p :: !ValidHalves(activeImageUrl, b, p)
    ensures (forall b, p :: !ValidHalves(activeImageUrl, b, p)) ==> r == Err(InvalidUrlFormat)
  {
    Splice(activeImageUrl, Token(prompt))
  }

  /**
    The action, given the answers `check` of the image checks: a URL that
    cannot be built is reported before any check; otherwise the built URL is
    polled and returned unless the poll threw, whose message is reported.
   */
  function BgReplaceAction(activeImageUrl: string, prompt: string, check: WaitForProcessing.Checker): (r: ActionRun<string>)
    ensures ConstructUrl(activeImageUrl, prompt).Err? ==> r == ActionRun(WithError(InvalidUrlFormat), [])
    ensures ConstructUrl(activeImageUrl, prompt).Ok? ==>
      r.trace == WaitForProcessing.ImagePoll(ConstructUrl(activeImageUrl, prompt).value, check).trace
    ensures r.result.WithResult? <==>
      ConstructUrl(activeImageUrl, prompt).Ok? &&
      WaitForProcessing.ImagePoll(ConstructUrl(activeImageUrl, prompt).value, check).thrown.None?
    ensures r.result.WithResult? ==> r.result.result == ConstructUrl(activeImageUrl, prompt).value
    ensures ConstructUrl(activeImageUrl, prompt).Ok? ==>
      var poll := WaitForProcessing.ImagePoll(ConstructUrl(activeImageUrl, prompt).value, check);
      poll.thrown.Some? ==> r.result == WithError(CaughtMessage(poll.thrown.value, GenericMessage))
    ensures r.result.WithError? ==>
      r.result.error in {InvalidUrlFormat, WaitForProcessing.ExhaustedMessage, WaitForProcessing.UnexpectedMessage}
    ensures Checks(r.trace) <= WaitForProcessing.MaxAttempts
  {
    var built := ConstructUrl(activeImageUrl, prompt);
    var r := Orchestrate(built, WaitForProcessing.ImagePoller(check), url => url, GenericMessage);
    if built.Ok? then
      WaitForProcessing.ImagePollBounds(built.value, check);
      WaitForProcessing.ImagePollThrows(built.value, check);
      r
    else
      r
  }
}
