/** `BackendTesseract.ocr` and `_ocr_subregion` of
    `untriseptium/backend/tesseract.py`: one Tesseract pass over the whole
    image and, when it finds no text, a retry over overlapping horizontal
    strips. The Tesseract call itself (`pytesseract.image_to_data` on the
    cropped image) is the `Tesseract` parameter. */
module Recognition {
  import opened Outcomes
  import opened Records

  /** A screenshot: its pixels are opaque here, only its size is read. */
  datatype Image = Image(pixels: nat, width: nat, height: nat)

  /** The TSV text Tesseract returns for the crop box `(left, upper, right,
      lower)` of an image, or for the whole image when the box is `None`. */
  type Tesseract = (Image, Option<(int, int, int, int)>) -> string

  /** `_ocr_subregion`: the crop box only selects the pixels; the offset the
      records are shifted by is always `(0, 0)`, so records of a strip keep
      strip-relative coordinates. */
  function OcrSubregion(tess: Tesseract, image: Image, region: Option<(int, int, int, int)>): (r: Result<seq<OcrText>>)
    ensures var (header, rows) := Fields(tess(image, region));
      var kept := KeptRows(|header|, rows);
      && (r.Ok? <==> forall k :: 0 <= k < |kept| ==> Set(header, kept[k], (0, 0)).Some?)
      && (r.Ok? ==> |r.value| == |kept| && forall k :: 0 <= k < |kept| ==> Set(header, kept[k], (0, 0)) == Some(r.value[k]))
  {
    ParseTsvSpec(tess(image, region), (0, 0));
    ParseTsv(tess(image, region), (0, 0))
  }

  /** The crop's corner is not added back: read with the corner `(x, y)` as
      offset, the same rows would give records lying `x` further right and
      `y` further down, wherever the header has those columns. */
  lemma StripRecordsUnshifted(tess: Tesseract, image: Image, x: int, y: int, w: int, h: int, k: nat)
    requires OcrSubregion(tess, image, Some((x, y, w, h))).Ok?
    requires k < |OcrSubregion(tess, image, Some((x, y, w, h))).value|
    requires ColumnName(Left) in Fields(tess(image, Some((x, y, w, h)))).0
    requires ColumnName(Top) in Fields(tess(image, Some((x, y, w, h)))).0
    ensures ParseTsv(tess(image, Some((x, y, w, h))), (x, y)).Ok?
    ensures |ParseTsv(tess(image, Some((x, y, w, h))), (x, y)).value| == |OcrSubregion(tess, image, Some((x, y, w, h))).value|
    ensures ParseTsv(tess(image, Some((x, y, w, h))), (x, y)).value[k].left
            == OcrSubregion(tess, image, Some((x, y, w, h))).value[k].left + x
    ensures ParseTsv(tess(image, Some((x, y, w, h))), (x, y)).value[k].top
            == OcrSubregion(tess, image, Some((x, y, w, h))).value[k].top + y
    ensures (x, y) != (0, 0) ==> OcrSubregion(tess, image, Some((x, y, w, h))) != ParseTsv(tess(image, Some((x, y, w, h))), (x, y))
  {
    var tsv := tess(image, Some((x, y, w, h)));
    ParseTsvShifts(tsv, (x, y), k);
    var unshifted := OcrSubregion(tess, image, Some((x, y, w, h))).value;
    var shifted := ParseTsv(tsv, (x, y)).value;
    if x != 0 {
      assert unshifted[k].left != shifted[k].left;
    } else if y != 0 {
      assert unshifted[k].top != shifted[k].top;
    }
  }

  /** A reader of the records of an image region; `ocr` reads through
      `_ocr_subregion`, which `Subregions` supplies. The retry logic below
      holds for any reader. */
  type Reader = (Image, Option<(int, int, int, int)>) -> Result<seq<OcrText>>

  function Subregions(tess: Tesseract): Reader {
    (image, region) => OcrSubregion(tess, image, region)
  }

  /** `_ocrdata_has_valid_data`: some record has non-empty text. */
  function HasValidData(data: seq<OcrText>): (b: bool)
    ensures b <==> exists k :: 0 <= k < |data| && data[k].text != []
  {
    if data == [] then false
    else data[0].text != [] || (assert forall k :: 1 <= k < |data| ==> data[k] == data[1..][k - 1]; HasValidData(data[1..]))
  }

  /** `range(start, stop, step)` for a positive step. */
  function Range(start: nat, stop: nat, step: nat): seq<nat>
    requires step > 0
    decreases stop - start
  {
    if start >= stop then [] else [start] + Range(start + step, stop, step)
  }

  /** `range(0, height, step)` holds `0, step, 2*step, ...`, every one below
      `height`, and no further multiple of `step` is below `height`. */
  lemma {:induction false} RangeSpec(start: nat, stop: nat, step: nat)
    requires step > 0
    ensures var r := Range(start, stop, step);
      && (forall k :: 0 <= k < |r| ==> r[k] == start + k * step && r[k] < stop)
      && start + |r| * step >= stop
    decreases stop - start
  {
    if start < stop {
      RangeSpec(start + step, stop, step);
      var r := Range(start, stop, step);
      var rest := Range(start + step, stop, step);
      forall k | 0 <= k < |r|
        ensures r[k] == start + k * step && r[k] < stop
      {
        if k > 0 {
          assert r[k] == rest[k - 1];
          OneStepMore(k, step);
        }
      }
      OneStepMore(|r|, step);
    }
  }

  /** One more step reaches the next multiple of `step`. */
  lemma OneStepMore(k: nat, step: nat)
    requires k > 0
    ensures (k - 1) * step + step == k * step
  {
  }

  /** The crop box of the strip whose top is `y`: the image's full width
      and `h` rows. */
  function StripBox(image: Image, h: nat, y: nat): Option<(int, int, int, int)> {
    Some((0, y, image.width, y + h))
  }

  /** The strips `ocr` retries, for the tops `y, y + step, ...` below
      `stop`, one record list after the other; the first strip that fails
      aborts the retry. */
  function Strips(read: Reader, image: Image, h: nat, y: nat, stop: nat, step: nat): Result<seq<OcrText>>
    requires step > 0
    decreases stop - y
  {
    if y >= stop then Ok([])
    else
      match read(image, StripBox(image, h, y))
      case Err(e) => Err(e)
      case Ok(first) =>
        match Strips(read, image, h, y + step, stop, step)
        case Err(e) => Err(e)
        case Ok(rest) => Ok(first + rest)
  }

  /** Every strip whose top is in `tops` reads. */
  predicate AllRead(read: Reader, image: Image, h: nat, tops: seq<nat>) {
    forall k :: 0 <= k < |tops| ==> read(image, StripBox(image, h, tops[k])).Ok?
  }

  /** The records of the strips whose tops are `tops`, one strip after the
      other in the order of `tops`; a strip that fails contributes
      nothing. */
  /** The records of the strips at `tops`, one strip after the other; a
      strip that fails adds nothing. */
  function Joined(read: Reader, image: Image, h: nat, tops: seq<nat>): seq<OcrText> {
    if tops == [] then []
    else
      (match read(image, StripBox(image, h, tops[0])) case Ok(v) => v case Err(_) => [])
      + Joined(read, image, h, tops[1..])
  }

  /** The strips succeed exactly when the read of every top in
      `range(y, stop, step)` does, and then every record of every strip is in
      the result. */
  lemma {:induction false} StripsSpec(read: Reader, image: Image, h: nat, y: nat, stop: nat, step: nat)
    requires step > 0
    ensures Strips(read, image, h, y, stop, step).Ok? <==> AllRead(read, image, h, Range(y, stop, step))
    ensures Strips(read, image, h, y, stop, step).Ok? ==>
      forall k, t :: 0 <= k < |Range(y, stop, step)| && t in read(image, StripBox(image, h, Range(y, stop, step)[k])).value ==>
        t in Strips(read, image, h, y, stop, step).value
    ensures Strips(read, image, h, y, stop, step).Ok? ==>
      Strips(read, image, h, y, stop, step).value == Joined(read, image, h, Range(y, stop, step))
    decreases stop - y
  {
    if y < stop {
      StripsSpec(read, image, h, y + step, stop, step);
      var tops := Range(y, stop, step);
      var rest := Range(y + step, stop, step);
      assert tops == [y] + rest;
      assert tops[1..] == rest;
      assert forall k :: 1 <= k < |tops| ==> tops[k] == rest[k - 1];
      if read(image, StripBox(image, h, y)).Err? {
        assert !read(image, StripBox(image, h, tops[0])).Ok?;
      } else if Strips(read, image, h, y + step, stop, step).Err? {
        var k :| 0 <= k < |rest| && !read(image, StripBox(image, h, rest[k])).Ok?;
        assert !read(image, StripBox(image, h, tops[k + 1])).Ok?;
      }
    }
  }

  /** When the whole-image pass has no text and the retry succeeds, the
      result is the whole-image records followed by the records of every
      strip, top to bottom, and nothing else. */
  lemma OcrRetryIsStrips(read: Reader, image: Image)
    requires read(image, None).Ok? && !HasValidData(read(image, None).value)
    requires Ocr(read, image).Ok?
    ensures image.height >= 16
    ensures Ocr(read, image).value
      == read(image, None).value + Joined(read, image, StripHeight(image.height), Range(0, image.height, StripStep(image.height)))
  {
    StripsSpec(read, image, StripHeight(image.height), 0, image.height, StripStep(image.height));
  }

  /** `int(image.height / 8)`: the height of a strip. */
  function StripHeight(height: nat): (h: nat)
    ensures h * 8 <= height < h * 8 + 8
  {
    height / 8
  }

  /** `int(h / 2)`: the distance between the tops of two strips, which is
      zero exactly for images lower than 16 pixels. */
  function StripStep(height: nat): (step: nat)
    ensures step * 2 <= StripHeight(height) < step * 2 + 2
    ensures step > 0 <==> height >= 16
  {
    StripHeight(height) / 2
  }

  /** The retry of `ocr` over the strips of the image; `range` rejects a
      zero step. */
  function Retry(read: Reader, image: Image): Result<seq<OcrText>> {
    var step := StripStep(image.height);
    if step == 0 then Err(ZeroRangeStep)
    else Strips(read, image, StripHeight(image.height), 0, image.height, step)
  }

  /** `BackendTesseract.ocr`. When the whole-image pass has no record with
      text, the image is read again in strips of height `h = height / 8`
      whose tops are `range(0, height, h / 2)`; `range` rejects a zero step,
      so an image lower than 16 pixels fails here. */
  function Ocr(read: Reader, image: Image): (r: Result<seq<OcrText>>)
    ensures var first := read(image, None);
      && (first.Err? ==> r == first)
      && (first.Ok? && HasValidData(first.value) ==> r == first)
  {
    match read(image, None)
    case Err(e) => Err(e)
    case Ok(first) =>
      if HasValidData(first) then Ok(first)
      else
        match Retry(read, image)
        case Err(e) => Err(e)
        case Ok(more) => Ok(first + more)
  }

  /** An image lower than 16 pixels without text in the first pass fails:
      its strip step `height / 8 / 2` is zero. */
  lemma OcrTooLow(read: Reader, image: Image)
    requires read(image, None).Ok? && !HasValidData(read(image, None).value)
    requires image.height < 16
    ensures Ocr(read, image) == Err(ZeroRangeStep)
  {
  }

  /** The retry only appends: the records of the whole-image pass come
      first, unchanged. */
  lemma OcrKeepsFirstPass(read: Reader, image: Image)
    requires read(image, None).Ok? && Ocr(read, image).Ok?
    ensures var first := read(image, None).value;
      |first| <= |Ocr(read, image).value| && Ocr(read, image).value[..|first|] == first
  {
    var first := read(image, None).value;
    if !HasValidData(first) {
      var more := Retry(read, image).value;
      assert Ocr(read, image) == Ok(first + more);
      assert (first + more)[..|first|] == first;
    }
  }

  /** The retry surfaces what the strips find: when the whole-image pass has
      no text and every strip reads, each record of each strip is returned
      after the whole-image records. */
  lemma OcrRetrySurfacesStrips(read: Reader, image: Image, k: nat, t: OcrText)
    requires read(image, None).Ok? && !HasValidData(read(image, None).value)
    requires image.height >= 16
    requires AllRead(read, image, StripHeight(image.height), Range(0, image.height, StripStep(image.height)))
    requires k < |Range(0, image.height, StripStep(image.height))|
    requires t in read(image, StripBox(image, StripHeight(image.height), Range(0, image.height, StripStep(image.height))[k])).value
    ensures Ocr(read, image).Ok? && t in Ocr(read, image).value
  {
    StripsSpec(read, image, StripHeight(image.height), 0, image.height, StripStep(image.height));
  }
}
