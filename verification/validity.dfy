/**
 The check command: a verdict on whether an image can become a gas giant,
 which has one band per image row and at most 16384 bands.
 */
module Validity {
  import opened Raster

  /** The most bands a gas giant can have. */
  const MaxBands: nat := 16384

  /** What the check command prints: the rejection with the band count the
      image would give, the "would (most likely) be valid" line, or nothing. */
  datatype Verdict = TooManyBands(bands: nat) | ProbablyValid | Silent

  /** src/main.rs:137-144: a tall image is rejected; otherwise an image wider than
      one column (or empty) is called probably valid, and a one-column image
      gets no message at all. */
  function Check(img: Image): (v: Verdict)
    ensures v.TooManyBands? <==> img.height > MaxBands
    ensures v.TooManyBands? ==> v.bands == img.height
    ensures v == ProbablyValid <==> img.height <= MaxBands && img.width != 1
    ensures v == Silent <==> img.height <= MaxBands && img.width == 1
  {
    if img.height > MaxBands then TooManyBands(img.height)
    else if img.width != 1 then ProbablyValid
    else Silent
  }

  /** The verdict speaks about what convert would produce: an image it does
      not reject yields at most `MaxBands` bands from any column, and one it
      rejects yields more than that from every column inside the image. */
  lemma CheckBoundsBands(img: Image, pos: nat, tok: Rgba -> string)
    ensures !Check(img).TooManyBands? ==> |Bands(img, pos, tok)| <= MaxBands
    ensures Check(img).TooManyBands? && pos < img.width ==>
      |Bands(img, pos, tok)| == Check(img).bands > MaxBands
  {
  }
}
