/**
  `cropVideoAction({ activeVideoUrl, aspectRatio, height })`: fill-crop the
  video to the aspect ratio and height around its automatically chosen
  focus, by inserting the parameter list after "/upload/", and wait for the
  media service to serve the result as a "Video" resource.
 */
module CropVideo {
  import opened Wrappers
  import opened JsString
  import opened NumberText
  import opened UploadUrl
  import opened ActionResults

  const GenericMessage := "An unexpected error occurred. Please try again later."

  /** The transformation parameters, in the order the segment lists them. */
  function Params(aspectRatio: string, height: int): seq<string> {
    ["ar_" + aspectRatio, "c_fill", "g_auto", "h_" + IntText(height)]
  }

  /** The transformation segment, `ar_<ratio>,c_fill,g_auto,h_<height>`. */
  function Token(aspectRatio: string, height: int): (t: string)
    ensures |t| >= 3 && t[..3] == "ar_"
    ensures '/' in t <==> '/' in aspectRatio
  {
    "ar_" + aspectRatio + ",c_fill,g_auto,h_" + IntText(height)
  }

  /** Four pieces joined: each separator between two neighbours. */
  lemma JoinFour(xs: seq<string>, sep: string)
    requires |xs| == 4
    ensures Join(xs, sep) == xs[0] + sep + xs[1] + sep + xs[2] + sep + xs[3]
  {
    assert xs[1..][1..] == xs[2..] && xs[2..][1..] == xs[3..];
    var j2 := Join(xs[2..], sep);
    assert j2 == xs[2] + sep + xs[3];
    var j1 := Join(xs[1..], sep);
    assert j1 == xs[1] + sep + j2;
    assert Join(xs, sep) == xs[0] + sep + j1;
  }

  /** Proof step only: the template's literal text between the aspect ratio and the height, as pieces. */
  lemma TemplateLiteral()
    ensures ",c_fill,g_auto,h_" == "," + "c_fill" + "," + "g_auto" + "," + "h_"
  {
  }

  /** The segment is the parameters joined with commas. */
  lemma TokenIsJoin(aspectRatio: string, height: int)
    ensures Token(aspectRatio, height) == Join(Params(aspectRatio, height), ",")
  {
    var h := IntText(height);
    JoinFour(Params(aspectRatio, height), ",");
    TemplateLiteral();
    var a := "ar_" + aspectRatio;
    assert a + ",c_fill,g_auto,h_" + h == a + "," + "c_fill" + "," + "g_auto" + "," + ("h_" + h);
  }

  /**
    The segment's comma-separated parameters are exactly `Params`, so an
    aspect ratio without a comma and the height read back from it.
   */
  lemma TokenReadsBack(aspectRatio: string, height: int)
    requires ',' !in aspectRatio
    ensures Split(Token(aspectRatio, height), ",") == Params(aspectRatio, height)
    ensures Split(Token(aspectRatio, height), ",")[0][3..] == aspectRatio
    ensures ParseInt(Split(Token(aspectRatio, height), ",")[3][2..]) == height
  {
    var h := IntText(height);
    var ps := Params(aspectRatio, height);
    TokenIsJoin(aspectRatio, height);
    assert ',' !in h;
    assert forall k :: 0 <= k < |ps| ==> ',' !in ps[k];
    SplitJoin(ps, ",");
    IntTextRoundTrip(height);
    assert ps[3][2..] == h && ps[0][3..] == aspectRatio;
  }

  /** `constructUrl`: the parameters go between the halves of the URL; without them, "Invalid URL format". */
  function ConstructUrl(activeVideoUrl: string, aspectRatio: string, height: int): (r: Result<string>)
    ensures forall b, p :: ValidHalves(activeVideoUrl, b, p) ==> r == Ok(b + Marker + Token(aspectRatio, height) + "/" + p)
    ensures r.Err? ==> r.error == InvalidUrlFormat && forall b, p :: !ValidHalves(activeVideoUrl, b, p)
    ensures (forall b, p :: !ValidHalves(activeVideoUrl, b, p)) ==> r == Err(InvalidUrlFormat)
  {
    Splice(activeVideoUrl, Token(aspectRatio, height))
  }

  /**
    The action. `wait(url, kind)` is what `waitForResourceProcessing(url,
    kind)` threw, if anything. A URL that cannot be built is reported before
    anything is awaited; otherwise the built URL is awaited once, as a
    "Video", and returned unless the wait threw.
   */
  function CropVideoAction(activeVideoUrl: string, aspectRatio: string, height: int, wait: (string, string) -> Option<Thrown>): (r: ActionRun<string>)
    ensures ConstructUrl(activeVideoUrl, aspectRatio, height).Err? ==> r == ActionRun(WithError(InvalidUrlFormat), [])
    ensures ConstructUrl(activeVideoUrl, aspectRatio, height).Ok? ==>
      r.trace == [ResourceAwaited(ConstructUrl(activeVideoUrl, aspectRatio, height).value, "Video")]
    ensures r.result.WithResult? <==>
      ConstructUrl(activeVideoUrl, aspectRatio, height).Ok? &&
      wait(ConstructUrl(activeVideoUrl, aspectRatio, height).value, "Video").None?
    ensures r.result.WithResult? ==> r.result.result == ConstructUrl(activeVideoUrl, aspectRatio, height).value
    ensures ConstructUrl(activeVideoUrl, aspectRatio, height).Ok? ==>
      var thrown := wait(ConstructUrl(activeVideoUrl, aspectRatio, height).value, "Video");
      thrown.Some? ==> r.result == WithError(CaughtMessage(thrown.value, GenericMessage))
  {
    Orchestrate(ConstructUrl(activeVideoUrl, aspectRatio, height), AwaitResource(wait, "Video"), url => url, GenericMessage)
  }
}
