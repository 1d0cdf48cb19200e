/** The image preparation of modules/transform.py: the size formula, the
    choice between cropping and resizing, and the conversion to a bilevel
    image. The image library's operations are not modelled pixel by pixel:
    each one is a term of Picture that records what was asked of it, and
    Dimensions gives the size that was asked for. Requests the library
    would reject (a negative or zero side) are not told apart. */
module Transform {

  datatype Option<T> = None | Some(value: T)

  /** Python's a // b: the quotient rounded towards negative infinity. */
  function FloorDiv(a: int, b: int): (q: int)
    requires b != 0
    ensures b > 0 ==> q * b <= a < q * b + b
    ensures b < 0 ==> q * b + b < a <= q * b
  {
    if b > 0 then a / b else (-a) / (-b)
  }

  /** get_size: the width is 14 pixels per unit of the size factor and the
      height is 1200 // size_factor. A zero factor divides by zero. */
  function GetSize(sizeFactor: int): (size: (int, int))
    requires sizeFactor != 0
    ensures size.0 % 14 == 0 && size.0 / 14 == sizeFactor
    ensures size.1 == FloorDiv(1200, sizeFactor)
  {
    (sizeFactor * 14, FloorDiv(1200, sizeFactor))
  }

  /** For a positive factor the height is the largest h with h * f <= 1200,
      it lies in [0, 1200], and the picture never has more than
      14 * 1200 = 16800 pixels. */
  lemma GetSizeBounds(sizeFactor: int)
    requires sizeFactor >= 1
    ensures GetSize(sizeFactor).1 * sizeFactor <= 1200 < (GetSize(sizeFactor).1 + 1) * sizeFactor
    ensures 0 <= GetSize(sizeFactor).1 <= 1200
    ensures 0 < GetSize(sizeFactor).0 && GetSize(sizeFactor).0 * GetSize(sizeFactor).1 <= 16800
  {
    var (w, h) := GetSize(sizeFactor);
    assert h * sizeFactor <= 1200 < h * sizeFactor + sizeFactor;
    assert w * h == 14 * (h * sizeFactor);
  }

  /** The crop box (left, upper, right, lower). */
  datatype Box = Box(left: int, upper: int, right: int, lower: int)

  /** An image as the pipeline sees it: the loaded file, or the result of
      one of the library operations applied to another image. */
  datatype Picture =
    | Loaded(width: int, height: int)
    | Bilevel(source: Picture)
    | Cropped(source: Picture, box: Box)
    | Resized(source: Picture, newWidth: int, newHeight: int)

  /** Image.size after each operation: conversion keeps the size, a crop has
      the size of its box, a resize the requested size. Boxes and sizes the
      library would reject (a negative or zero side) are not distinguished:
      the term records the request and Dimensions reports it. */
  function Dimensions(p: Picture): (int, int)
  {
    match p
    case Loaded(w, h) => (w, h)
    case Bilevel(s) => Dimensions(s)
    case Cropped(_, b) => (b.right - b.left, b.lower - b.upper)
    case Resized(_, w, h) => (w, h)
  }

  /** to_bilevel: image.convert("1") with Floyd-Steinberg dithering. The
      settings are only logged. */
  function ToBilevel(image: Picture, sets: map<string, string>): (r: Picture)
    ensures Dimensions(r) == Dimensions(image)
    ensures r.Bilevel? && r.source == image
  {
    Bilevel(image)
  }

  /** What resize_image returns: an image, or the process ends with an exit
      status. */
  datatype Outcome = Image(picture: Picture) | Exit(status: int)

  /** The mode: sets.get("mode", "resize"), and "resize" when there are no
      settings at all. */
  function ModeOf(sets: Option<map<string, string>>): (mode: string)
    ensures mode == "resize" || (sets.Some? && "mode" in sets.value && mode == sets.value["mode"])
  {
    if sets.Some? && "mode" in sets.value then sets.value["mode"] else "resize"
  }

  /** ModeOf reads the "mode" key when there is one and otherwise falls back
      to "resize". */
  lemma ModeDefaults(sets: Option<map<string, string>>)
    ensures sets.None? ==> ModeOf(sets) == "resize"
    ensures sets.Some? && "mode" !in sets.value ==> ModeOf(sets) == "resize"
    ensures sets.Some? && "mode" in sets.value ==> ModeOf(sets) == sets.value["mode"]
  {
  }

  /** resize_image: crop to the top-left box of the computed size, resize
      to the computed size, or exit with status 1 on any other mode. */
  function ResizeImage(image: Picture, sizeFactor: int, sets: Option<map<string, string>>): (r: Outcome)
    requires sizeFactor != 0
    ensures r.Image? <==> ModeOf(sets) == "crop" || ModeOf(sets) == "resize"
    ensures r.Exit? ==> r.status == 1
    ensures r.Image? ==> !r.picture.Loaded? && r.picture.source == image && Dimensions(r.picture) == GetSize(sizeFactor)
    ensures ModeOf(sets) == "crop" ==> r.picture.Cropped? && r.picture.box.left == 0 && r.picture.box.upper == 0
    ensures ModeOf(sets) == "resize" ==> r.picture.Resized?
  {
    var size := GetSize(sizeFactor);
    var mode := ModeOf(sets);
    if mode == "crop" then Image(Cropped(image, Box(0, 0, size.0, size.1)))
    else if mode == "resize" then Image(Resized(image, size.0, size.1))
    else Exit(1)
  }

  /** Without settings, or without a "mode" key, the image is resized to the
      computed size. */
  lemma DefaultIsResize(image: Picture, sizeFactor: int, sets: Option<map<string, string>>)
    requires sizeFactor != 0
    requires sets.None? || "mode" !in sets.value
    ensures ResizeImage(image, sizeFactor, sets) == Image(Resized(image, GetSize(sizeFactor).0, GetSize(sizeFactor).1))
  {
    ModeDefaults(sets);
  }

  /** The crop is requested whatever the size of the source: a source
      smaller than the computed size is not rejected, and the result still
      reports the computed size. */
  lemma CropIgnoresSourceSize(image: Picture, sizeFactor: int, sets: Option<map<string, string>>)
    requires sizeFactor != 0 && ModeOf(sets) == "crop"
    requires Dimensions(image).0 < GetSize(sizeFactor).0 || Dimensions(image).1 < GetSize(sizeFactor).1
    ensures ResizeImage(image, sizeFactor, sets) == Image(Cropped(image, Box(0, 0, GetSize(sizeFactor).0, GetSize(sizeFactor).1)))
    ensures Dimensions(ResizeImage(image, sizeFactor, sets).picture) == GetSize(sizeFactor)
  {
  }

  /** The pipeline converts to bilevel first and resizes second; the
      conversion keeps the size, so a successful resize_image still gives
      get_size(f), whose rows of 14 * f pixels the encoder then reads. */
  lemma PreparedSize(image: Picture, sizeFactor: int, sets: Option<map<string, string>>, conv: map<string, string>)
    requires sizeFactor != 0
    requires ResizeImage(ToBilevel(image, conv), sizeFactor, sets).Image?
    ensures Dimensions(ResizeImage(ToBilevel(image, conv), sizeFactor, sets).picture) == GetSize(sizeFactor)
    ensures Dimensions(ResizeImage(ToBilevel(image, conv), sizeFactor, sets).picture).0 % 14 == 0
    ensures ResizeImage(ToBilevel(image, conv), sizeFactor, sets).picture.source == Bilevel(image)
  {
  }
}
