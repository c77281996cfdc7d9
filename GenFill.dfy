/**
  `genFillAction({ activeImageUrl, aspectRatio, width, height })`: pad the
  image to the aspect ratio and size with generative fill, by inserting the
  parameter list after "/upload/", and poll until the image is ready.
 */
module GenFill {
  import opened Wrappers
  import opened JsString
  import opened NumberText
  import opened UploadUrl
  import opened ActionResults
  import WaitForProcessing

  const GenericMessage := "An unexpected error occurred. Please try again later."

  /** The transformation parameters, in the order the segment lists them. */
  function Params(aspectRatio: string, width: int, height: int): seq<string> {
    ["ar_" + aspectRatio, "b_gen_fill", "c_pad", "w_" + IntText(width), "h_" + IntText(height)]
  }

  /** The transformation segment, `ar_<ratio>,b_gen_fill,c_pad,w_<width>,h_<height>`. */
  function Token(aspectRatio: string, width: int, height: int): (t: string)
    ensures |t| >= 3 && t[..3] == "ar_"
    ensures '/' in t <==> '/' in aspectRatio
  {
    "ar_" + aspectRatio + ",b_gen_fill,c_pad,w_" + IntText(width) + ",h_" + IntText(height)
  }

  /** Five pieces joined: each separator between two neighbours. */
  lemma JoinFive(xs: seq<string>, sep: string)
    requires |xs| == 5
    ensures Join(xs, sep) == xs[0] + sep + xs[1] + sep + xs[2] + sep + xs[3] + sep + xs[4]
  {
    assert xs[1..][1..] == xs[2..] && xs[2..][1..] == xs[3..] && xs[3..][1..] == xs[4..];
    var j3 := Join(xs[3..], sep);
    assert j3 == xs[3] + sep + xs[4];
    var j2 := Join(xs[2..], sep);
    assert j2 == xs[2] + sep + j3;
    var j1 := Join(xs[1..], sep);
    assert j1 == xs[1] + sep + j2;
    assert Join(xs, sep) == xs[0] + sep + j1;
  }

  /** Proof step only: the template's literal text between the aspect ratio and the width, and before the height, as pieces. */
  lemma TemplateLiterals()
    ensures ",b_gen_fill,c_pad,w_" == "," + "b_gen_fill" + "," + "c_pad" + "," + "w_"
    ensures ",h_" == "," + "h_"
  {
  }

  /** The segment is the parameters joined with commas. */
  lemma TokenIsJoin(aspectRatio: string, width: int, height: int)
    ensures Token(aspectRatio, width, height) == Join(Params(aspectRatio, width, height), ",")
  {
    var w := IntText(width);
    var h := IntText(height);
    JoinFive(Params(aspectRatio, width, height), ",");
    TemplateLiterals();
    var a := "ar_" + aspectRatio;
    assert a + ",b_gen_fill,c_pad,w_" + w == a + "," + "b_gen_fill" + "," + "c_pad" + "," + ("w_" + w);
    assert a + ",b_gen_fill,c_pad,w_" + w + ",h_" + h == a + "," + "b_gen_fill" + "," + "c_pad" + "," + ("w_" + w) + "," + ("h_" + h);
  }

  /**
    The segment's comma-separated parameters are exactly `Params`, so an
    aspect ratio without a comma, the width and the height all read back
    from it.
   */
  lemma TokenReadsBack(aspectRatio: string, width: int, height: int)
    requires ',' !in aspectRatio
    ensures Split(Token(aspectRatio, width, height), ",") == Params(aspectRatio, width, height)
    ensures Split(Token(aspectRatio, width, height), ",")[0][3..] == aspectRatio
    ensures ParseInt(Split(Token(aspectRatio, width, height), ",")[3][2..]) == width
    ensures ParseInt(Split(Token(aspectRatio, width, height), ",")[4][2..]) == height
  {
    var w := IntText(width);
    var h := IntText(height);
    var ps := Params(aspectRatio, width, height);
    TokenIsJoin(aspectRatio, width, height);
    assert ',' !in w && ',' !in h;
    assert forall k :: 0 <= k < |ps| ==> ',' !in ps[k];
    SplitJoin(ps, ",");
    IntTextRoundTrip(width);
    IntTextRoundTrip(height);
    assert ps[3][2..] == w && ps[4][2..] == h && ps[0][3..] == aspectRatio;
  }

  /** `constructUrl`: the parameters go between the halves of the URL; without them, "Invalid URL format". */
  function ConstructUrl(activeImageUrl: string, aspectRatio: string, width: int, height: int): (r: Result<string>)
    ensures forall b, p :: ValidHalves(activeImageUrl, b, p) ==>
      r == Ok(b + Marker + Token(aspectRatio, width, height) + "/" + p)
    ensures r.Err? ==> r.error == InvalidUrlFormat && forall b, p :: !ValidHalves(activeImageUrl, b, p)
    ensures (forall b, p :: !ValidHalves(activeImageUrl, b, p)) ==> r == Err(InvalidUrlFormat)
  {
    Splice(activeImageUrl, Token(aspectRatio, width, height))
  }

  /**
    The action, given the answers `check` of the image checks: a URL that
    cannot be built is reported before any check; otherwise the built URL is
    polled and returned unless the poll threw, whose message is reported.
   */
  function GenFillAction(activeImageUrl: string, aspectRatio: string, width: int, height: int, check: WaitForProcessing.Checker): (r: ActionRun<string>)
    ensures ConstructUrl(activeImageUrl, aspectRatio, width, height).Err? ==> r == ActionRun(WithError(InvalidUrlFormat), [])
    ensures ConstructUrl(activeImageUrl, aspectRatio, width, height).Ok? ==>
      r.trace == WaitForProcessing.ImagePoll(ConstructUrl(activeImageUrl, aspectRatio, width, height).value, check).trace
    ensures r.result.WithResult? <==>
      ConstructUrl(activeImageUrl, aspectRatio, width, height).Ok? &&
      WaitForProcessing.ImagePoll(ConstructUrl(activeImageUrl, aspectRatio, width, height).value, check).thrown.None?
    ensures r.result.WithResult? ==> r.result.result == ConstructUrl(activeImageUrl, aspectRatio, width, height).value
    ensures ConstructUrl(activeImageUrl, aspectRatio, width, height).Ok? ==>
      var poll := WaitForProcessing.ImagePoll(ConstructUrl(activeImageUrl, aspectRatio, width, height).value, check);
      poll.thrown.Some? ==> r.result == WithError(CaughtMessage(poll.thrown.value, GenericMessage))
    ensures r.result.WithError? ==>
      r.result.error in {InvalidUrlFormat, WaitForProcessing.ExhaustedMessage, WaitForProcessing.UnexpectedMessage}
    ensures Checks(r.trace) <= WaitForProcessing.MaxAttempts
  {
    var built := ConstructUrl(activeImageUrl, aspectRatio, width, height);
    var r := Orchestrate(built, WaitForProcessing.ImagePoller(check), url => url, GenericMessage);
    if built.Ok? then
      WaitForProcessing.ImagePollBounds(built.value, check);
      WaitForProcessing.ImagePollThrows(built.value, check);
      r
    else
      r
  }
}
