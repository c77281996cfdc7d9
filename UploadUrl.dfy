/**
  The URL surgery shared by every transformation action: cut the asset URL at
  its first "/upload/", insert a transformation segment, and (for the
  transparency-producing actions) retarget the extension to png.
 */
module UploadUrl {
  import opened Wrappers
  import opened JsString

  const Marker := "/upload/"
  const InvalidUrlFormat := "Invalid URL format"

  /**
    `base` is the text of `url` before its first "/upload/", `path` the text
    between that and the next "/upload/" (or the end), and neither is empty.
   */
  ghost predicate ValidHalves(url: string, base: string, path: string) {
    IsFirstTwoPieces(url, Marker, base, path) && base != "" && path != ""
  }

  /**
    `const [baseUrl, imagePath] = url.split("/upload/")` followed by
    `if (!baseUrl || !imagePath) throw new Error("Invalid URL format")`.
   */
  function SplitAtUpload(url: string): (r: Result<(string, string)>)
    ensures r.Ok? ==> ValidHalves(url, r.value.0, r.value.1)
    ensures r.Err? ==> r.error == InvalidUrlFormat
    ensures r.Err? ==> forall b, p :: !ValidHalves(url, b, p)
    ensures (forall b, p :: !ValidHalves(url, b, p)) ==> r == Err(InvalidUrlFormat)
  {
    SplitFirstTwoPieces(url, Marker);
    var parts := Split(url, Marker);
    var baseUrl := parts[0];
    var imagePath := if |parts| > 1 then Some(parts[1]) else None;
    if baseUrl == "" || !Truthy(imagePath) then Err(InvalidUrlFormat)
    else
      assert ValidHalves(url, baseUrl, imagePath.value);
      Ok((baseUrl, imagePath.value))
  }

  /** A URL without "/upload/" is rejected. */
  lemma NoMarkerIsInvalid(url: string)
    requires !Includes(url, Marker)
    ensures SplitAtUpload(url) == Err(InvalidUrlFormat)
  {
  }

  /**
    `${baseUrl}/upload/${token}/${imagePath}` on the halves of `url`: the
    transformation segment goes right after the first "/upload/", and the
    asset path follows it verbatim.
   */
  function Splice(url: string, token: string): (r: Result<string>)
    ensures forall b, p :: ValidHalves(url, b, p) ==> r == Ok(b + Marker + token + "/" + p)
    ensures r.Err? ==> r.error == InvalidUrlFormat && forall b, p :: !ValidHalves(url, b, p)
    ensures (forall b, p :: !ValidHalves(url, b, p)) ==> r == Err(InvalidUrlFormat)
  {
    SplitFirstTwoPieces(url, Marker);
    match SplitAtUpload(url)
    case Err(e) => Err(e)
    case Ok((baseUrl, imagePath)) => Ok(baseUrl + Marker + token + "/" + imagePath)
  }

  /** Occurrences of "/upload/" starting inside `head` are those of `head` itself, for any continuation. */
  lemma NoMarkerBefore(head: string, path: string, n: nat)
    requires forall j: nat :: j < n ==> !OccursAt(head, Marker, j)
    requires n + |Marker| <= |head|
    ensures forall j: nat :: j < n ==> !OccursAt(head + path, Marker, j)
  {
    forall j: nat | j < n
      ensures !OccursAt(head + path, Marker, j)
    {
      assert !OccursAt(head, Marker, j);
      assert j + |Marker| <= |head|;
      assert (head + path)[j..j + |Marker|] == head[j..j + |Marker|];
    }
  }

  /** Occurrences of "/upload/" past `head` are those of `path`. */
  lemma NoMarkerAfter(head: string, path: string)
    requires forall j: nat :: !OccursAt(path, Marker, j)
    ensures forall j: nat :: |head| <= j ==> !OccursAt(head + path, Marker, j)
  {
    IndexOfShift(head, path, Marker, 0);
  }

  /**
    A URL of the usual shape, `base` + "/upload/" + `path`, where that
    "/upload/" is the first one and `path` holds no other, has `base` and
    `path` as its halves, and the transformation segment lands between them.
   */
  lemma HalvesOf(base: string, path: string, token: string)
    requires base != "" && path != ""
    requires IndexOf(base + Marker, Marker, 0) == Some(|base|)
    requires !Includes(path, Marker)
    ensures ValidHalves(base + Marker + path, base, path)
    ensures Splice(base + Marker + path, token) == Ok(base + Marker + token + "/" + path)
  {
    assert forall j: nat :: !OccursAt(path, Marker, j);
    FirstTwoPiecesOf(base, path);
  }

  lemma FirstTwoPiecesOf(base: string, path: string)
    requires forall j: nat :: j < |base| ==> !OccursAt(base + Marker, Marker, j)
    requires forall j: nat :: !OccursAt(path, Marker, j)
    ensures IsFirstTwoPieces(base + Marker + path, Marker, base, path)
  {
    var head := base + Marker;
    var url := head + path;
    assert url == base + Marker + path;
    NoMarkerBefore(head, path, |base|);
    NoMarkerAfter(head, path);
    var start := |base| + |Marker|;
    var end := start + |path|;
    assert end == |url|;
    assert url[..|base|] == base;
    assert url[start..end] == path;
    assert url[|base|..|base| + |Marker|] == Marker;
    assert OccursAt(url, Marker, |base|);
    assert forall j :: 0 <= j < |base| ==> !OccursAt(url, Marker, j);
    assert forall j :: start <= j < end ==> !OccursAt(url, Marker, j);
  }

  /** A text with no "/" holds no "/upload/", so it is rejected. */
  lemma NoSlashIsInvalid(url: string)
    requires '/' !in url
    ensures SplitAtUpload(url) == Err(InvalidUrlFormat)
  {
    forall j: nat
      ensures !OccursAt(url, Marker, j)
    {
      if j + |Marker| <= |url| {
        assert url[j..j + |Marker|][0] == url[j];
      }
    }
  }

  /**
    `url.split(format)[0] + "png"`. For a non-empty format: the URL up to the
    first occurrence of the asset's format, or the whole URL when the format
    does not occur, then "png". `url.split("")` cuts the URL into single
    characters (and gives `[]` for `""`, whose first element is `undefined`).
   */
  function PngRewrite(url: string, format: string): (r: string)
    ensures |r| >= 3 && r[|r| - 3..] == "png"
    ensures format != "" ==> IsFirstPiece(url, format, r[..|r| - 3])
    ensures format != "" && !Includes(url, format) ==> r == url + "png"
    ensures format == "" && url != "" ==> r == [url[0]] + "png"
    ensures format == "" && url == "" ==> r == "undefinedpng"
  {
    if format == "" then
      if url == "" then "undefinedpng" else [url[0]] + "png"
    else
      SplitFirstPiece(url, format);
      var urlParts := Split(url, format);
      var r := urlParts[0] + "png";
      assert r[..|r| - 3] == urlParts[0];
      r
  }

  /**
    When the format first occurs as the URL's extension, the rewrite swaps
    that extension for "png".
   */
  lemma PngRewriteExtension(stem: string, format: string)
    requires format != ""
    requires IndexOf(stem + format, format, 0) == Some(|stem|)
    ensures PngRewrite(stem + format, format) == stem + "png"
  {
    var url := stem + format;
    SplitFirstPiece(url, format);
    assert url[..|stem|] == stem;
    assert url[|stem|..|stem| + |format|] == format;
    assert IsFirstPiece(url, format, stem);
    var r := PngRewrite(url, format);
    assert r == r[..|r| - 3] + "png";
  }

  /**
    With an empty format the rewritten URL is one character and "png", or
    "undefinedpng"; neither holds "/upload/", so the action reports
    "Invalid URL format".
   */
  lemma EmptyFormatIsInvalid(url: string, token: string)
    ensures Splice(PngRewrite(url, ""), token) == Err(InvalidUrlFormat)
  {
    var r := PngRewrite(url, "");
    if url == "" {
      NoSlashIsInvalid(r);
    } else {
      assert |r| < |Marker|;
    }
  }
}
