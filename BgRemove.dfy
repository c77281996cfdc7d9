/**
  `bgRemoveAction({ activeImageUrl, format })`: retarget the image to png,
  insert the `e_background_removal` transformation after "/upload/", and wait
  for the media service to serve the result as an "Image" resource.
 */
module BgRemove {
  import opened Wrappers
  import opened JsString
  import opened UploadUrl
  import opened ActionResults

  const Effect := "e_background_removal"
  const GenericMessage := "An unexpected error occurred. Please try again later."

  /**
    `constructUrl`: the halves are those of the png-retargeted URL, and the
    effect goes between them; without valid halves, "Invalid URL format".
   */
  function ConstructUrl(activeImageUrl: string, format: string): (r: Result<string>)
    ensures forall b, p :: ValidHalves(PngRewrite(activeImageUrl, format), b, p) ==>
      r == Ok(b + Marker + Effect + "/" + p)
    ensures r.Err? ==> r.error == InvalidUrlFormat
    ensures r.Err? ==> forall b, p :: !ValidHalves(PngRewrite(activeImageUrl, format), b, p)
    ensures (forall b, p :: !ValidHalves(PngRewrite(activeImageUrl, format), b, p)) ==> r == Err(InvalidUrlFormat)
  {
    Splice(PngRewrite(activeImageUrl, format), Effect)
  }

  /**
    On a URL of the usual shape, `base` + "/upload/" + `stem` + `format`,
    where the format first occurs as the extension, the result is the same
    asset, with the effect applied, served as png.
   */
  lemma ConstructUrlUsual(base: string, stem: string, format: string)
    requires base != "" && format != ""
    requires IndexOf(base + Marker + stem + format, format, 0) == Some(|base + Marker + stem|)
    requires IndexOf(base + Marker, Marker, 0) == Some(|base|)
    requires !Includes(stem + "png", Marker)
    ensures ConstructUrl(base + Marker + stem + format, format) == Ok(base + Marker + Effect + "/" + stem + "png")
  {
    var head := base + Marker + stem;
    PngRewriteExtension(head, format);
    var png := PngRewrite(head + format, format);
    assert png == base + Marker + (stem + "png");
    HalvesOf(base, stem + "png", Effect);
    assert Splice(png, Effect) == Ok(base + Marker + Effect + "/" + (stem + "png"));
    assert base + Marker + Effect + "/" + (stem + "png") == base + Marker + Effect + "/" + stem + "png";
    assert ConstructUrl(head + format, format) == Splice(png, Effect);
  }

  /** An empty format leaves no "/upload/" to split at, so the URL is rejected. */
  lemma ConstructUrlEmptyFormat(activeImageUrl: string)
    ensures ConstructUrl(activeImageUrl, "") == Err(InvalidUrlFormat)
  {
    EmptyFormatIsInvalid(activeImageUrl, Effect);
  }

  /**
    The action. `wait(url, kind)` is what `waitForResourceProcessing(url,
    kind)` threw, if anything. A URL that cannot be built is reported before
    anything is awaited; otherwise the built URL is awaited once, as an
    "Image", and returned unless the wait threw.
   */
  function BgRemoveAction(activeImageUrl: string, format: string, wait: (string, string) -> Option<Thrown>): (r: ActionRun<string>)
    ensures ConstructUrl(activeImageUrl, format).Err? ==> r == ActionRun(WithError(InvalidUrlFormat), [])
    ensures ConstructUrl(activeImageUrl, format).Ok? ==>
      r.trace == [ResourceAwaited(ConstructUrl(activeImageUrl, format).value, "Image")]
    ensures r.result.WithResult? <==>
      ConstructUrl(activeImageUrl, format).Ok? && wait(ConstructUrl(activeImageUrl, format).value, "Image").None?
    ensures r.result.WithResult? ==> r.result.result == ConstructUrl(activeImageUrl, format).value
    ensures ConstructUrl(activeImageUrl, format).Ok? && wait(ConstructUrl(activeImageUrl, format).value, "Image").Some? ==>
      r.result == WithError(CaughtMessage(wait(ConstructUrl(activeImageUrl, format).value, "Image").value, GenericMessage))
  {
    Orchestrate(ConstructUrl(activeImageUrl, format), AwaitResource(wait, "Image"), url => url, GenericMessage)
  }
}
