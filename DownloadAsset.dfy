/**
  `downloadAssetAction({ assetUrl, publicId, quality, resourceType, format })`:
  map the quality name to a Cloudinary quality transformation, insert it after
  "/upload/" (or keep the URL as it is for the original quality), wait for the
  media service to serve that URL, and name the file after the asset, the
  quality and the format.
 */
module DownloadAsset {
  import opened Wrappers
  import opened JsString
  import opened UploadUrl
  import opened ActionResults

  const InvalidQuality := "Invalid quality parameter"
  const GenericMessage := "An unexpected error occurred. Please try again later."

  /** The quality names the action accepts. */
  predicate IsQualityName(quality: string) {
    quality == "original" || quality == "large" || quality == "medium" || quality == "small"
  }

  /**
    `mapQualityToParam`: "original" asks for no transformation (the `break`
    leaves the function returning `undefined`), the three sizes ask for 80,
    50 and 30 percent quality, and any other name throws.
   */
  function MapQuality(quality: string): (r: Result<Option<string>>)
    ensures r.Err? <==> !IsQualityName(quality)
    ensures r.Err? ==> r.error == InvalidQuality
    ensures r == Ok(None) <==> quality == "original"
    ensures r.Ok? && r.value.Some? ==> r.value.value in {"q_80", "q_50", "q_30"}
  {
    if quality == "original" then Ok(None)
    else if quality == "large" then Ok(Some("q_80"))
    else if quality == "medium" then Ok(Some("q_50"))
    else if quality == "small" then Ok(Some("q_30"))
    else Err(InvalidQuality)
  }

  /** The quality name a transformation parameter stands for: the inverse of `MapQuality`. */
  function QualityName(param: Option<string>): string {
    match param
    case None => "original"
    case Some(p) =>
      if p == "q_80" then "large"
      else if p == "q_50" then "medium"
      else if p == "q_30" then "small"
      else ""
  }

  /** Every accepted quality name reads back from its parameter, so distinct names give distinct parameters. */
  lemma QualityRoundTrip(quality: string)
    requires IsQualityName(quality)
    ensures MapQuality(quality).Ok? && QualityName(MapQuality(quality).value) == quality
  {
  }

  /**
    `constructUrl`: the URL must have non-empty halves around its first
    "/upload/" whatever the quality; with a quality parameter it goes
    between them, and without one the URL is kept unchanged.
   */
  function ConstructUrl(assetUrl: string, quality: Option<string>): (r: Result<string>)
    ensures forall b, p :: ValidHalves(assetUrl, b, p) ==>
      r == Ok(if Truthy(quality) then b + Marker + quality.value + "/" + p else assetUrl)
    ensures r.Err? ==> r.error == InvalidUrlFormat && forall b, p :: !ValidHalves(assetUrl, b, p)
    ensures (forall b, p :: !ValidHalves(assetUrl, b, p)) ==> r == Err(InvalidUrlFormat)
  {
    SplitFirstTwoPieces(assetUrl, Marker);
    match SplitAtUpload(assetUrl)
    case Err(e) => Err(e)
    case Ok((baseUrl, assetPath)) =>
      FirstTwoPiecesUnique(assetUrl, Marker, baseUrl, assetPath, baseUrl, assetPath);
      Ok(if Truthy(quality) then baseUrl + Marker + quality.value + "/" + assetPath else assetUrl)
  }

  /**
    On a URL of the usual shape the quality segment lands right after the
    first "/upload/", and splitting the result at "/upload/" again gives
    back the base and the quality segment followed by the asset path.
   */
  lemma QualitySegmentReadsBack(base: string, path: string, param: string)
    requires base != "" && path != "" && param != ""
    requires IndexOf(base + Marker, Marker, 0) == Some(|base|)
    requires !Includes(path, Marker) && !Includes(param + "/" + path, Marker)
    ensures ConstructUrl(base + Marker + path, Some(param)) == Ok(base + Marker + param + "/" + path)
    ensures SplitAtUpload(base + Marker + param + "/" + path) == Ok((base, param + "/" + path))
  {
    QualitySegmentLands(base, path, param);
    Regroup(base + Marker, param, "/", path);
    HalvesReadBack(base, param + "/" + path);
  }

  lemma QualitySegmentLands(base: string, path: string, param: string)
    requires base != "" && path != "" && param != ""
    requires IndexOf(base + Marker, Marker, 0) == Some(|base|)
    requires !Includes(path, Marker)
    ensures ConstructUrl(base + Marker + path, Some(param)) == Ok(base + Marker + param + "/" + path)
  {
    HalvesOf(base, path, param);
  }

  /** Proof step only: regrouping a concatenation. */
  lemma Regroup(head: string, a: string, b: string, c: string)
    ensures head + (a + b + c) == head + a + b + c
  {
  }

  /** The halves `SplitAtUpload` finds are the only valid ones. */
  lemma HalvesReadBack(base: string, path: string)
    requires base != "" && path != ""
    requires IndexOf(base + Marker, Marker, 0) == Some(|base|)
    requires !Includes(path, Marker)
    ensures SplitAtUpload(base + Marker + path) == Ok((base, path))
  {
    var url := base + Marker + path;
    HalvesOf(base, path, "");
    var split := SplitAtUpload(url);
    FirstTwoPiecesUnique(url, Marker, split.value.0, split.value.1, base, path);
  }

  /** The name of the downloaded file: `${publicId}.${quality}.${format}`, with the raw quality name. */
  function Filename(publicId: string, quality: string, format: string): (name: string)
    ensures '.' !in publicId && '.' !in quality && '.' !in format ==>
      Split(name, ".") == [publicId, quality, format]
  {
    var head := publicId + "." + quality;
    if '.' !in publicId && '.' !in quality && '.' !in format then
      SplitNoSeparator(publicId, ".");
      SplitNoSeparator(quality, ".");
      SplitNoSeparator(format, ".");
      SplitAppend(publicId, quality, ".");
      SplitAppend(head, format, ".");
      head + "." + format
    else head + "." + format
  }

  /** For a public id and a format without dots, the file name splits back into the three parts. */
  lemma FilenameReadsBack(publicId: string, quality: string, format: string)
    requires IsQualityName(quality)
    requires '.' !in publicId && '.' !in format
    ensures Split(Filename(publicId, quality, format), ".") == [publicId, quality, format]
  {
    QualityNameHasNoDot(quality);
  }

  lemma QualityNameHasNoDot(quality: string)
    requires IsQualityName(quality)
    ensures '.' !in quality
  {
  }

  /** What the action returns on success. */
  datatype Download = Download(url: string, filename: string)

  /**
    The action. `wait(url, kind)` is what `waitForResourceProcessing(url,
    kind)` threw, if anything. The quality is checked first, so a bad
    quality is reported even for a bad URL; then the URL is built, awaited
    once under the caller's resource type, and returned with the file name.
   */
  function DownloadAssetAction(assetUrl: string, publicId: string, quality: string, resourceType: string, format: string,
                               wait: (string, string) -> Option<Thrown>): (r: ActionRun<Download>)
    ensures !IsQualityName(quality) ==> r == ActionRun(WithError(InvalidQuality), [])
    ensures IsQualityName(quality) && ConstructUrl(assetUrl, MapQuality(quality).value).Err? ==>
      r == ActionRun(WithError(InvalidUrlFormat), [])
    ensures IsQualityName(quality) && ConstructUrl(assetUrl, MapQuality(quality).value).Ok? ==>
      var url := ConstructUrl(assetUrl, MapQuality(quality).value).value;
      r.trace == [ResourceAwaited(url, resourceType)] &&
      (wait(url, resourceType).None? ==> r.result == WithResult(Download(url, Filename(publicId, quality, format)))) &&
      (wait(url, resourceType).Some? ==> r.result == WithError(CaughtMessage(wait(url, resourceType).value, GenericMessage)))
    ensures r.result.WithResult? ==> IsQualityName(quality) && r.result.result.filename == Filename(publicId, quality, format)
  {
    match MapQuality(quality)
    case Err(e) => ActionRun(WithError(e), [])
    case Ok(param) =>
      Orchestrate(ConstructUrl(assetUrl, param), AwaitResource(wait, resourceType),
                  url => Download(url, Filename(publicId, quality, format)), GenericMessage)
  }

  /** The original quality downloads the asset's own URL, untransformed. */
  lemma OriginalKeepsUrl(assetUrl: string, publicId: string, resourceType: string, format: string,
                         wait: (string, string) -> Option<Thrown>)
    requires SplitAtUpload(assetUrl).Ok?
    ensures ConstructUrl(assetUrl, MapQuality("original").value) == Ok(assetUrl)
    ensures DownloadAssetAction(assetUrl, publicId, "original", resourceType, format, wait).trace ==
      [ResourceAwaited(assetUrl, resourceType)]
  {
    var halves := SplitAtUpload(assetUrl).value;
    assert ValidHalves(assetUrl, halves.0, halves.1);
  }
}
