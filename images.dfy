/**
 * The avatar normaliser of accounts/utils/images.py (`process_avatar`):
 * decode, apply the EXIF orientation, turn "P" and "RGBA" into "RGB", centre-crop to
 * a square, resize to 512x512, encode as WebP or else JPEG, and name the
 * result after the upload with the new extension.
 *
 * The pixel work is Pillow's: it is an oracle (`Pillow`) whose functions say
 * what each operation produces and whether decoding or encoding fails. The
 * geometry, the colour-mode rule, the format choice, the name and the
 * content type are the model's own.
 */
module Images {
  import opened Wrappers
  import opened PosixPath
  import opened Models

  const TargetSize: nat := 512
  const Quality: nat := 85
  const WebpMethod: nat := 6

  /** A decoded picture: its size, its colour mode, and its pixel data (uninterpreted). */
  datatype Raster = Raster(width: nat, height: nat, mode: string, pixels: seq<bv8>)

  /** A crop rectangle as Pillow's `crop` takes it: (left, top, right, bottom). */
  datatype Box = Box(left: int, top: int, right: int, bottom: int)

  datatype Format = Webp | Jpeg

  /** The keyword arguments of the two `img.save` calls. */
  datatype SaveOptions =
    | WebpOptions(quality: nat, effort: nat)   // effort: Pillow's `method` argument
    | JpegOptions(quality: nat, optimize: bool)

  /**
   * Pillow as an oracle: `decode` is `Image.open` (None when the bytes are not
   * a picture it can read), `save` is `img.save` into a buffer (None when the
   * encoder raises); the others give the pixels of the resulting picture.
   */
  datatype Pillow = Pillow(
    decode: seq<bv8> -> Option<Raster>,
    exifTranspose: Raster -> Raster,
    convert: (Raster, string) -> seq<bv8>,
    crop: (Raster, Box) -> seq<bv8>,
    resize: (Raster, nat, nat) -> seq<bv8>,
    save: (Raster, SaveOptions) -> Option<seq<bv8>>)

  /** `process_avatar`'s return value, with the picture that was encoded. */
  datatype Processed = Processed(
    name: string,
    contentType: string,
    content: seq<bv8>,
    options: SaveOptions,
    picture: Raster)

  datatype NormaliseError = CannotDecode | CannotEncode

  /**
   * "P" and "RGBA" become "RGB"; every other mode is kept, including other
   * alpha modes such as "LA", "PA" or "RGBa".
   */
  function ConvertedMode(mode: string): (m: string)
    ensures m != "P" && m != "RGBA"
    ensures mode == "P" || mode == "RGBA" ==> m == "RGB"
    ensures mode != "P" && mode != "RGBA" ==> m == mode
  {
    if mode == "P" || mode == "RGBA" then "RGB" else mode
  }

  /** Converting an already converted mode changes nothing. */
  lemma ConvertedModeIdempotent(mode: string)
    ensures ConvertedMode(ConvertedMode(mode)) == ConvertedMode(mode)
  {
  }

  function Min(a: nat, b: nat): nat {
    if a < b then a else b
  }

  /**
   * The centre crop: the largest square that fits, inside the picture,
   * touching two opposite edges, with the margins on the other axis equal or
   * the odd pixel on the right (bottom) side.
   */
  function CenterCropBox(width: nat, height: nat): (box: Box)
    ensures box.right - box.left == box.bottom - box.top == Min(width, height)
    ensures 0 <= box.left && box.right <= width && 0 <= box.top && box.bottom <= height
    ensures box.left == 0 || box.top == 0
    ensures 0 <= (width - box.right) - box.left <= 1
    ensures 0 <= (height - box.bottom) - box.top <= 1
  {
    var side := Min(width, height);
    var left := (width - side) / 2;
    var top := (height - side) / 2;
    Box(left, top, left + side, top + side)
  }

  /** The properties above fix the crop box: no other box has them all. */
  lemma CenterCropBoxUnique(width: nat, height: nat, box: Box)
    requires box.right - box.left == box.bottom - box.top == Min(width, height)
    requires 0 <= (width - box.right) - box.left <= 1
    requires 0 <= (height - box.bottom) - box.top <= 1
    ensures box == CenterCropBox(width, height)
  {
  }

  /** The picture after the colour, crop and resize steps. */
  function Prepare(img: Raster, pillow: Pillow): (out: Raster)
    ensures out.width == TargetSize && out.height == TargetSize
    ensures out.mode == ConvertedMode(img.mode)
  {
    var converted :=
      if img.mode == "P" || img.mode == "RGBA" then Raster(img.width, img.height, "RGB", pillow.convert(img, "RGB"))
      else img;
    var box := CenterCropBox(converted.width, converted.height);
    var side := box.right - box.left;
    var cropped := Raster(side, side, converted.mode, pillow.crop(converted, box));
    Raster(TargetSize, TargetSize, cropped.mode, pillow.resize(cropped, TargetSize, TargetSize))
  }

  /** The file extension written for each format. */
  function Extension(format: Format): (ext: string)
    ensures '.' !in ext && '/' !in ext && ext != ""
    ensures format == Webp ==> ext == "webp"
    ensures format == Jpeg ==> ext == "jpg"
  {
    match format
    case Webp => "webp"
    case Jpeg => "jpg"
  }

  /** The registered media type of each format. */
  function MediaType(format: Format): string {
    match format
    case Webp => "image/webp"
    case Jpeg => "image/jpeg"
  }

  /** The content type derived from the extension string, as the code derives it. */
  function ContentTypeOf(ext: string): (t: string)
    ensures |t| >= 6 && t[..6] == "image/"
    ensures t != "image/jpg"
    ensures ext != "jpg" ==> t[6..] == ext
  {
    "image/" + (if ext == "jpg" then "jpeg" else ext)
  }

  /** The derived content type is the format's registered one, never "image/jpg". */
  lemma ContentTypeMatchesFormat(format: Format)
    ensures ContentTypeOf(Extension(format)) == MediaType(format)
    ensures ContentTypeOf(Extension(format)) != "image/jpg"
  {
  }

  function FormatOf(options: SaveOptions): Format {
    if options.WebpOptions? then Webp else Jpeg
  }

  /** The upload's name (or "avatar") with its extension replaced. */
  function OutputName(uploadName: Option<string>, format: Format): (name: string)
    ensures var suffix := "." + Extension(format);
      |name| >= |suffix| && name[|name| - |suffix|..] == suffix
  {
    var root := SplitExt(uploadName.GetOr("avatar")).0;
    var suffix := "." + Extension(format);
    EndsWith(root, suffix);
    root + suffix
  }

  lemma EndsWith(root: string, suffix: string)
    ensures (root + suffix)[|root|..] == suffix
  {
  }

  /**
   * The output name splits back into the upload's root and the new
   * extension, whenever the upload's last path component is not all dots.
   */
  lemma OutputNameRoundTrip(uploadName: Option<string>, format: Format)
    requires HasNonDot(Basename(uploadName.GetOr("avatar")))
    ensures SplitExt(OutputName(uploadName, format)) == (SplitExt(uploadName.GetOr("avatar")).0, "." + Extension(format))
  {
    var original := uploadName.GetOr("avatar");
    SplitExtRootHasNonDot(original);
    var root := SplitExt(original).0;
    SplitExtOfAppended(root, Extension(format));
    assert root + "." + Extension(format) == root + ("." + Extension(format));
  }

  /** The encoder call that succeeds first: WebP, else JPEG; None when both raise. */
  function Encode(picture: Raster, pillow: Pillow): (r: Option<(seq<bv8>, SaveOptions)>)
    ensures r.Some? ==> pillow.save(picture, r.value.1) == Some(r.value.0) && r.value.1.quality == Quality
    ensures r.Some? ==> r.value.1 == WebpOptions(Quality, WebpMethod) || r.value.1 == JpegOptions(Quality, true)
    ensures r.Some? ==> (r.value.1.WebpOptions? <==> pillow.save(picture, WebpOptions(Quality, WebpMethod)).Some?)
    ensures r.None? <==> pillow.save(picture, WebpOptions(Quality, WebpMethod)).None?
                         && pillow.save(picture, JpegOptions(Quality, true)).None?
  {
    var webp := pillow.save(picture, WebpOptions(Quality, WebpMethod));
    if webp.Some? then Some((webp.value, WebpOptions(Quality, WebpMethod)))
    else
      var jpeg := pillow.save(picture, JpegOptions(Quality, true));
      if jpeg.Some? then Some((jpeg.value, JpegOptions(Quality, true)))
      else None
  }

  /** What `process_avatar` computes, as one expression. */
  function Normalise(upload: Upload, pillow: Pillow): (r: Result<Processed, NormaliseError>)
    ensures r == Failure(CannotDecode) <==> pillow.decode(upload.content).None?
    ensures r == Failure(CannotEncode) <==>
      && pillow.decode(upload.content).Some?
      && Encode(Prepare(pillow.exifTranspose(pillow.decode(upload.content).value), pillow), pillow).None?
    ensures r.Success? ==>
      && pillow.decode(upload.content).Some?
      && r.value.picture == Prepare(pillow.exifTranspose(pillow.decode(upload.content).value), pillow)
      && Encode(r.value.picture, pillow) == Some((r.value.content, r.value.options))
    ensures r.Success? ==>
      && r.value.picture.width == TargetSize && r.value.picture.height == TargetSize
      && r.value.picture.mode != "P" && r.value.picture.mode != "RGBA"
      && pillow.save(r.value.picture, r.value.options) == Some(r.value.content)
      && r.value.options.quality == Quality
      && r.value.name == OutputName(upload.name, FormatOf(r.value.options))
      && r.value.contentType == MediaType(FormatOf(r.value.options))
  {
    var decoded := pillow.decode(upload.content);
    if decoded.None? then Failure(CannotDecode)
    else
      var picture := Prepare(pillow.exifTranspose(decoded.value), pillow);
      var encoded := Encode(picture, pillow);
      if encoded.None? then Failure(CannotEncode)
      else
        var format := FormatOf(encoded.value.1);
        ContentTypeMatchesFormat(format);
        Success(Processed(OutputName(upload.name, format), ContentTypeOf(Extension(format)),
                          encoded.value.0, encoded.value.1, picture))
  }

  /** `process_avatar`, step by step as the code rebinds `img`, `buffer`, `out_ext` and `out_format`. */
  method ProcessAvatar(upload: Upload, pillow: Pillow) returns (r: Result<Processed, NormaliseError>)
    ensures r == Normalise(upload, pillow)
  {
    var decoded := pillow.decode(upload.content);
    if decoded.None? {
      return Failure(CannotDecode);
    }
    var img := pillow.exifTranspose(decoded.value);
    ghost var oriented := img;
    if img.mode == "P" || img.mode == "RGBA" {
      img := Raster(img.width, img.height, "RGB", pillow.convert(img, "RGB"));
    }
    var w, h := img.width, img.height;
    var side := if w < h then w else h;
    var left := (w - side) / 2;
    var top := (h - side) / 2;
    img := Raster(side, side, img.mode, pillow.crop(img, Box(left, top, left + side, top + side)));
    img := Raster(TargetSize, TargetSize, img.mode, pillow.resize(img, TargetSize, TargetSize));
    assert img == Prepare(oriented, pillow);

    var outExt := "webp";
    var options := WebpOptions(Quality, WebpMethod);
    var buffer := pillow.save(img, options);
    if buffer.None? {
      outExt := "jpg";
      options := JpegOptions(Quality, true);
      buffer := pillow.save(img, options);
      if buffer.None? {
        return Failure(CannotEncode);
      }
    }
    assert outExt == Extension(FormatOf(options));
    var baseName := SplitExt(upload.name.GetOr("avatar")).0;
    var newName := baseName + "." + outExt;
    assert newName == baseName + ("." + outExt) == OutputName(upload.name, FormatOf(options));
    var contentType := "image/" + (if outExt == "jpg" then "jpeg" else outExt);
    r := Success(Processed(newName, contentType, buffer.value, options, img));
    NormaliseEncoded(upload, pillow, img, buffer.value, options);
  }

  /** Once decoding succeeded and `picture` encoded to `content` with `options`, `Normalise` yields that picture. */
  lemma NormaliseEncoded(upload: Upload, pillow: Pillow, picture: Raster, content: seq<bv8>, options: SaveOptions)
    requires pillow.decode(upload.content).Some?
    requires picture == Prepare(pillow.exifTranspose(pillow.decode(upload.content).value), pillow)
    requires Encode(picture, pillow) == Some((content, options))
    ensures Normalise(upload, pillow) ==
      Success(Processed(OutputName(upload.name, FormatOf(options)), ContentTypeOf(Extension(FormatOf(options))),
                        content, options, picture))
  {
  }
}
