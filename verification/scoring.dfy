/** The confidence arithmetic of `untriseptium/backend/tesseract.py`:
    `_weighted_sum`, `_conf_ocr_text`, the distance penalties of
    `_conf_next_word` and `_conf_old_word`, and `_new_text_locator`. */
module Scoring {
  import opened Outcomes
  import opened Geometry
  import opened Records
  import opened EditDistance
  import opened Text

  /** `BackendTesseract.ocr_unconfidence_ratio`: how much of a wrong
      character an unconfident OCR word is still worth. */
  const OcrUnconfidenceRatio: real := 0.4

  /** `BackendTesseract.confidence_threshold`: the least token confidence a
      match needs. */
  const ConfidenceThreshold: real := 0.2

  // ---------------------------------------------------------------------
  // _weighted_sum

  /** `_weighted_sum(v1, w1, v2, w2)` as written: the second value is ADDED
      to its weight, `(v1 * w1 + v2 + w2) / (w1 + w2)`, where a weighted mean
      would multiply them. The weights are string lengths, so the division
      fails when both are zero. */
  function WeightedSum(v1: real, w1: nat, v2: real, w2: nat): (r: Result<real>)
    ensures r.Err? <==> w1 + w2 == 0
    ensures r.Err? ==> r.error == ZeroDivision
  {
    if w1 + w2 == 0 then Err(ZeroDivision)
    else Ok((v1 * w1 as real + v2 + w2 as real) / (w1 + w2) as real)
  }

  /** The weighted mean the name promises. */
  function WeightedMean(v1: real, w1: nat, v2: real, w2: nat): real
    requires w1 + w2 > 0
  {
    (v1 * w1 as real + v2 * w2 as real) / (w1 + w2) as real
  }

  /** When the first weight is zero (an accumulator that has no text yet)
      the result is `1 + v2 / w2`: a word of confidence in [0, 1] makes its
      paragraph more confident than certain, where the weighted mean would
      be the word's own confidence. */
  lemma WeightedSumOfFirstWord(v1: real, v2: real, w2: nat)
    requires w2 > 0 && v2 >= 0.0
    ensures WeightedSum(v1, 0, v2, w2) == Ok(1.0 + v2 / w2 as real)
    ensures WeightedSum(v1, 0, v2, w2).value >= 1.0
    ensures WeightedMean(v1, 0, v2, w2) == v2
  {
    var w := w2 as real;
    assert WeightedSum(v1, 0, v2, w2) == Ok((v2 + w) / w);
    DivSplit(v2, w, w);
    DivSelf(w);
    assert (v2 + w) / w == 1.0 + v2 / w;
    assert v2 / w >= 0.0;
    assert v1 * 0.0 + v2 * w == v2 * w;
  }

  /** The two differ on the plainest input: two equally long words of
      confidence 0.5 weigh in at 1.0 instead of 0.5. */
  lemma WeightedSumIsNotTheMean()
    ensures WeightedSum(0.5, 1, 0.5, 1) == Ok(1.0)
    ensures WeightedMean(0.5, 1, 0.5, 1) == 0.5
  {
  }

  // ---------------------------------------------------------------------
  // _conf_ocr_text

  /** `_conf_ocr_text` for an OCR reading `text` of confidence `conf`
      against the wanted `ideal`: each of the `max_length - distance`
      matching characters is worth the OCR confidence and each of the
      `distance` wrong ones `(1 - conf) * 0.4`, averaged over the longer
      length. Two empty strings divide by zero. */
  function ConfOcrText(text: string, conf: real, ideal: string): (r: Result<real>)
    ensures r.Err? <==> text == [] && ideal == []
    ensures r.Err? ==> r.error == ZeroDivision
    ensures r.Ok? && text == ideal ==> r.value == conf
  {
    var distance := Levenshtein(text, ideal);
    var maxLength := MaxLen(text, ideal);
    var invconf := (1.0 - conf) * OcrUnconfidenceRatio;
    if maxLength == 0 then Err(ZeroDivision)
    else
      LevenshteinAtMostMaxLen(text, ideal);
      LevenshteinZeroIffEqual(text, ideal);
      Ok(Blend(conf, invconf, maxLength - distance, distance))
  }

  /** `(p * x + q * y) / (p + q)`: the mean of `x` and `y` weighted by the
      counts of matching and wrong characters. */
  function Blend(x: real, y: real, p: nat, q: nat): (v: real)
    requires p + q > 0
    ensures q == 0 ==> v == x
    ensures p == 0 ==> v == y
  {
    (p as real * x + q as real * y) / (p + q) as real
  }

  /** A weighted mean lies between its two values. */
  lemma BlendBetween(x: real, y: real, p: nat, q: nat)
    requires p + q > 0
    ensures RealMin(x, y) <= Blend(x, y, p, q) <= RealMax(x, y)
  {
    var lo, hi := RealMin(x, y), RealMax(x, y);
    var pr, qr := p as real, q as real;
    ScaleMonotone(pr, lo, x);
    ScaleMonotone(qr, lo, y);
    ScaleMonotone(pr, x, hi);
    ScaleMonotone(qr, y, hi);
    assert (pr + qr) * lo == pr * lo + qr * lo;
    assert (pr + qr) * hi == pr * hi + qr * hi;
    QuotientBetween(pr * x + qr * y, pr + qr, lo, hi);
  }

  lemma DivSelf(w: real)
    requires w != 0.0
    ensures w / w == 1.0
  {
  }

  lemma DivSplit(a: real, b: real, w: real)
    requires w != 0.0
    ensures (a + b) / w == a / w + b / w
  {
  }

  lemma ScaleMonotone(a: real, x: real, y: real)
    requires a >= 0.0 && x <= y
    ensures a * x <= a * y
  {
    assert a * y - a * x == a * (y - x);
  }

  lemma QuotientBetween(n: real, d: real, lo: real, hi: real)
    requires d > 0.0 && d * lo <= n <= d * hi
    ensures lo <= n / d <= hi
  {
    assert n == d * (n / d);
  }

  function RealMin(a: real, b: real): real { if a <= b then a else b }
  function RealMax(a: real, b: real): real { if a >= b then a else b }

  /** The confidence of a reading lies between the OCR confidence (all
      characters right) and `(1 - conf) * 0.4` (all wrong); with a
      confidence in [0, 1] it therefore lies in [0, 1]. */
  lemma ConfOcrTextBounds(text: string, conf: real, ideal: string)
    requires text != [] || ideal != []
    ensures var v := ConfOcrText(text, conf, ideal).value;
      RealMin(conf, (1.0 - conf) * OcrUnconfidenceRatio) <= v <= RealMax(conf, (1.0 - conf) * OcrUnconfidenceRatio)
    ensures 0.0 <= conf <= 1.0 ==> 0.0 <= ConfOcrText(text, conf, ideal).value <= 1.0
  {
    LevenshteinAtMostMaxLen(text, ideal);
    var d := Levenshtein(text, ideal);
    BlendBetween(conf, (1.0 - conf) * OcrUnconfidenceRatio, MaxLen(text, ideal) - d, d);
  }

  /** The design remark beside the two constants: since the ratio is not
      below the threshold, an OCR word Tesseract had no confidence in still
      passes the threshold against a word it shares no character position
      with. */
  lemma UnconfidentWordAlwaysMatches(text: string, ideal: string)
    requires text != [] || ideal != []
    requires Levenshtein(text, ideal) == MaxLen(text, ideal)
    ensures ConfOcrText(text, 0.0, ideal) == Ok(OcrUnconfidenceRatio)
    ensures OcrUnconfidenceRatio >= ConfidenceThreshold
  {
  }

  // ---------------------------------------------------------------------
  // The distance penalty of _conf_next_word and _conf_old_word

  /** The factor by which a confidence is lowered when a word lies `gap`
      away while `size` is tolerated: none within the size, else
      `exp(-ex * ex)` with `ex = (gap - size) / size`, which divides by a
      zero size. */
  function Penalty(m: Maths, gap: real, size: real): (r: Result<real>)
    ensures r.Err? <==> gap > size && size == 0.0
    ensures r.Err? ==> r.error == ZeroDivision
    ensures gap <= size ==> r == Ok(1.0)
    ensures Sound(m) && r.Ok? ==> 0.0 < r.value <= 1.0
  {
    if gap > size then
      if size == 0.0 then Err(ZeroDivision)
      else
        var ex := (gap - size) / size;
        assert ex * ex >= 0.0;
        Ok(m.exp(-ex * ex))
    else Ok(1.0)
  }

  /** A confidence scaled by a penalty factor, or the penalty's error. */
  function Scaled(c: real, penalty: Result<real>): (r: Result<real>)
    ensures penalty.Err? ==> r == Err(penalty.error)
    ensures penalty == Ok(1.0) ==> r == Ok(c)
  {
    match penalty
    case Err(e) => Err(e)
    case Ok(f) => Ok(Product(c, f))
  }

  /** The product of two confidences. */
  function Product(a: real, b: real): real {
    a * b
  }

  /** A penalised confidence never exceeds the unpenalised one, and stays
      positive when that one is. */
  lemma ScaledLowers(c: real, penalty: Result<real>)
    requires c >= 0.0 && penalty.Ok? && 0.0 < penalty.value <= 1.0
    ensures 0.0 <= Scaled(c, penalty).value <= c
    ensures c > 0.0 ==> Scaled(c, penalty).value > 0.0
  {
    ScaleMonotone(c, penalty.value, 1.0);
  }

  /** The size of one character: the diagonals of `box` and of the record,
      shared among the characters of both texts. */
  function CharSize(m: Maths, box: Rect, t: Locator, ocr: OcrText): real
    requires |t.text| + |ocr.text| > 0
  {
    (DiagonalSize(m, box) + DiagonalSize(m, ocr.location)) / (|t.text| + |ocr.text|) as real
  }

  /** `_conf_next_word(t, ocr, tc)`: the confidence of extending `t` by the
      record `ocr` whose token matched with confidence `tc`, lowered when
      the record lies further from `t` than one character's size. Without a
      location the product is returned as is; with one, two empty texts
      divide by zero. */
  function ConfNextWord(m: Maths, t: Locator, ocr: OcrText, tc: real): (r: Result<real>)
    ensures t.location.None? ==> r == Ok(Product(t.confidence, tc))
    ensures r.Err? ==> r.error == ZeroDivision
  {
    var confidence := Product(t.confidence, tc);
    match t.location
    case None => Ok(confidence)
    case Some(box) =>
      if |t.text| + |ocr.text| == 0 then Err(ZeroDivision)
      else Scaled(confidence, Penalty(m, DistanceAtPoint(m, box, ocr.location), CharSize(m, box, t, ocr)))
  }

  /** `_conf_old_word(t, loc)`: the confidence of the kept state `t`, lowered
      when the current record lies further from it than its own diagonal;
      a state without location or text keeps its confidence. */
  function ConfOldWord(m: Maths, t: Locator, current: Rect): (r: Result<real>)
    ensures t.location.None? || t.text == [] ==> r == Ok(t.confidence)
    ensures r.Err? ==> r.error == ZeroDivision
  {
    if t.location.Some? && t.text != [] then
      var box := t.location.value;
      Scaled(t.confidence, Penalty(m, DistanceAtPoint(m, box, current), DiagonalSize(m, box)))
    else Ok(t.confidence)
  }

  /** `_conf_next_word` never exceeds `t.confidence * tc`, and keeps it
      positive when it is. */
  lemma ConfNextWordAtMostUndecayed(m: Maths, t: Locator, ocr: OcrText, tc: real)
    requires Sound(m) && Product(t.confidence, tc) >= 0.0
    requires ConfNextWord(m, t, ocr, tc).Ok?
    ensures 0.0 <= ConfNextWord(m, t, ocr, tc).value <= Product(t.confidence, tc)
    ensures Product(t.confidence, tc) > 0.0 ==> ConfNextWord(m, t, ocr, tc).value > 0.0
  {
    if t.location.Some? {
      var box := t.location.value;
      ScaledLowers(Product(t.confidence, tc), Penalty(m, DistanceAtPoint(m, box, ocr.location), CharSize(m, box, t, ocr)));
    }
  }

  /** Beyond one character's size, a record of a located state lowers the
      product by `exp(-ex * ex)`, where `ex` is the excess gap measured in
      character sizes; a character size of zero divides by zero. */
  lemma ConfNextWordFar(m: Maths, t: Locator, ocr: OcrText, tc: real)
    requires t.location.Some? && |t.text| + |ocr.text| > 0
    requires DistanceAtPoint(m, t.location.value, ocr.location) > CharSize(m, t.location.value, t, ocr)
    ensures var size := CharSize(m, t.location.value, t, ocr);
      size == 0.0 ==> ConfNextWord(m, t, ocr, tc) == Err(ZeroDivision)
    ensures CharSize(m, t.location.value, t, ocr) != 0.0 ==>
      ConfNextWord(m, t, ocr, tc) == Ok(Product(Product(t.confidence, tc),
        Falloff(m, DistanceAtPoint(m, t.location.value, ocr.location), CharSize(m, t.location.value, t, ocr))))
  {
    var box := t.location.value;
    var penalty := Penalty(m, DistanceAtPoint(m, box, ocr.location), CharSize(m, box, t, ocr));
    assert ConfNextWord(m, t, ocr, tc) == Scaled(Product(t.confidence, tc), penalty);
    if CharSize(m, box, t, ocr) != 0.0 {
      var gap := DistanceAtPoint(m, box, ocr.location);
      var size := CharSize(m, box, t, ocr);
      PenaltyFar(m, gap, size);
    }
  }

  /** `exp(-ex * ex)`, where `ex` is how many sizes `gap` exceeds `size` by. */
  function Falloff(m: Maths, gap: real, size: real): real
    requires size != 0.0
  {
    var ex := (gap - size) / size;
    m.exp(-ex * ex)
  }

  /** Beyond a non-zero size the factor is the fall-off. */
  lemma PenaltyFar(m: Maths, gap: real, size: real)
    requires gap > size && size != 0.0
    ensures Penalty(m, gap, size) == Ok(Falloff(m, gap, size))
  {
  }

  /** Within one character's size of `t` there is no penalty. */
  lemma ConfNextWordNear(m: Maths, t: Locator, ocr: OcrText, tc: real)
    requires t.location.Some? && |t.text| + |ocr.text| > 0
    requires DistanceAtPoint(m, t.location.value, ocr.location) <= CharSize(m, t.location.value, t, ocr)
    ensures ConfNextWord(m, t, ocr, tc) == Ok(Product(t.confidence, tc))
  {
  }

  /** `exp` is increasing on the non-positive numbers, the only ones the
      penalty passes it. */
  ghost predicate ExpIncreasing(m: Maths) {
    forall x, y :: x <= y <= 0.0 ==> m.exp(x) <= m.exp(y)
  }

  /** The penalty only grows with the gap: a farther record never keeps
      more of the confidence than a nearer one. */
  lemma PenaltyMonotone(m: Maths, near: real, far: real, size: real)
    requires Sound(m) && ExpIncreasing(m)
    requires 0.0 < size && near <= far
    ensures Penalty(m, far, size).value <= Penalty(m, near, size).value
  {
    if near > size {
      var ex1 := (near - size) / size;
      var ex2 := (far - size) / size;
      QuotientBetween(near - size, size, 0.0, ex2);
      assert 0.0 <= ex1 <= ex2;
      ScaleMonotone(ex1, ex1, ex2);
      ScaleMonotone(ex2, ex1, ex2);
      assert -ex2 * ex2 <= -ex1 * ex1 <= 0.0;
    }
  }

  /** Of two records at the same character size from a located state, the
      farther one extends it with no more confidence than the nearer. */
  lemma ConfNextWordFartherLower(m: Maths, t: Locator, near: OcrText, far: OcrText, tc: real)
    requires Sound(m) && ExpIncreasing(m) && Product(t.confidence, tc) >= 0.0
    requires t.location.Some? && |t.text| + |near.text| > 0 && |t.text| + |far.text| > 0
    requires CharSize(m, t.location.value, t, near) == CharSize(m, t.location.value, t, far) > 0.0
    requires DistanceAtPoint(m, t.location.value, near.location) <= DistanceAtPoint(m, t.location.value, far.location)
    ensures ConfNextWord(m, t, far, tc).Ok? && ConfNextWord(m, t, near, tc).Ok?
    ensures ConfNextWord(m, t, far, tc).value <= ConfNextWord(m, t, near, tc).value
  {
    var box := t.location.value;
    var size := CharSize(m, box, t, near);
    var pNear := Penalty(m, DistanceAtPoint(m, box, near.location), size);
    var pFar := Penalty(m, DistanceAtPoint(m, box, far.location), size);
    ConfNextWordPositiveSize(m, t, near, tc);
    ConfNextWordPositiveSize(m, t, far, tc);
    PenaltyMonotone(m, DistanceAtPoint(m, box, near.location), DistanceAtPoint(m, box, far.location), size);
    ScaledMonotone(Product(t.confidence, tc), pFar, pNear);
  }

  /** Scaling by a non-negative confidence keeps the order of two factors. */
  lemma ScaledMonotone(c: real, lower: Result<real>, higher: Result<real>)
    requires c >= 0.0 && lower.Ok? && higher.Ok? && lower.value <= higher.value
    ensures Scaled(c, lower).Ok? && Scaled(c, higher).Ok?
    ensures Scaled(c, lower).value <= Scaled(c, higher).value
  {
    ScaleMonotone(c, lower.value, higher.value);
  }

  /** With a positive character size the penalty is a factor, never an error. */
  lemma ConfNextWordPositiveSize(m: Maths, t: Locator, ocr: OcrText, tc: real)
    requires t.location.Some? && |t.text| + |ocr.text| > 0
    requires CharSize(m, t.location.value, t, ocr) > 0.0
    ensures Penalty(m, DistanceAtPoint(m, t.location.value, ocr.location), CharSize(m, t.location.value, t, ocr)).Ok?
    ensures ConfNextWord(m, t, ocr, tc) == Scaled(Product(t.confidence, tc),
      Penalty(m, DistanceAtPoint(m, t.location.value, ocr.location), CharSize(m, t.location.value, t, ocr)))
  {
  }

  /** `_conf_old_word` never exceeds the stored confidence, and keeps it
      positive when it is. */
  lemma ConfOldWordAtMostStored(m: Maths, t: Locator, current: Rect)
    requires Sound(m) && t.confidence >= 0.0
    requires ConfOldWord(m, t, current).Ok?
    ensures 0.0 <= ConfOldWord(m, t, current).value <= t.confidence
    ensures t.confidence > 0.0 ==> ConfOldWord(m, t, current).value > 0.0
  {
    if t.location.Some? && t.text != [] {
      var box := t.location.value;
      ScaledLowers(t.confidence, Penalty(m, DistanceAtPoint(m, box, current), DiagonalSize(m, box)));
    }
  }

  /** Within the state's own diagonal there is no penalty. */
  lemma ConfOldWordNear(m: Maths, t: Locator, current: Rect)
    requires t.location.Some?
    requires DistanceAtPoint(m, t.location.value, current) <= DiagonalSize(m, t.location.value)
    ensures ConfOldWord(m, t, current) == Ok(t.confidence)
  {
  }

  // ---------------------------------------------------------------------
  // _new_text_locator and the text joins of the span strategies

  /** `(a + ' ' + b) if a else b`: appends a word, with a space unless
      nothing came before. */
  function JoinSpace(a: string, b: string): string
  {
    if a != [] then a + " " + b else b
  }

  /** The text of a chain of records, each appended with `JoinSpace`: what
      the two dynamic programs and the two span strategies build. */
  function SpanText(rs: seq<OcrText>): string {
    if rs == [] then [] else JoinSpace(SpanText(rs[..|rs| - 1]), rs[|rs| - 1].text)
  }

  /** The location of a chain of records, each added with `add_location`. */
  function SpanBox(rs: seq<OcrText>): (l: Option<Rect>)
    ensures l.None? <==> rs == []
  {
    if rs == [] then None else AddLocation(SpanBox(rs[..|rs| - 1]), rs[|rs| - 1].location)
  }

  /** The texts of the records, in order. */
  function Texts(rs: seq<OcrText>): (ws: seq<string>)
    ensures |ws| == |rs| && forall j :: 0 <= j < |rs| ==> ws[j] == rs[j].text
  {
    seq(|rs|, j requires 0 <= j < |rs| => rs[j].text)
  }

  /** When the first record has text, the chain's text is `' '.join` of the
      texts: an empty text after the first still gets its space. */
  lemma {:induction false} SpanTextIsJoin(rs: seq<OcrText>)
    requires rs != [] && rs[0].text != []
    ensures SpanText(rs) == Join(Texts(rs), ' ')
  {
    var n := |rs|;
    var init := rs[..n - 1];
    if n == 1 {
      assert SpanText(init) == [];
    } else {
      SpanTextIsJoin(init);
      assert Texts(rs) == Texts(init) + [rs[n - 1].text];
      JoinSnoc(Texts(init), rs[n - 1].text);
      assert Join(Texts(init), ' ') != [];
    }
  }

  /** `Join` of a list and one more field. */
  lemma {:induction false} JoinSnoc(parts: seq<string>, x: string)
    requires |parts| >= 1
    ensures Join(parts + [x], ' ') == Join(parts, ' ') + " " + x
  {
    var all := parts + [x];
    assert all[0] == parts[0];
    if |parts| > 1 {
      assert all[1..] == parts[1..] + [x];
      JoinSnoc(parts[1..], x);
    } else {
      assert all[1..] == [x];
    }
  }

  /** The chain's box contains the box of every record of the chain ... */
  lemma {:induction false} SpanBoxCovers(rs: seq<OcrText>, j: nat)
    requires j < |rs|
    ensures Contains(SpanBox(rs).value, rs[j].location)
  {
    var n := |rs|;
    if j < n - 1 {
      SpanBoxCovers(rs[..n - 1], j);
    }
  }

  /** ... and lies within any rectangle that contains them all. */
  lemma {:induction false} SpanBoxIsLeast(rs: seq<OcrText>, b: Rect)
    requires rs != []
    requires forall j :: 0 <= j < |rs| ==> Contains(b, rs[j].location)
    ensures Contains(b, SpanBox(rs).value)
  {
    var n := |rs|;
    if n > 1 {
      var init := rs[..n - 1];
      assert forall j :: 0 <= j < |init| ==> init[j] == rs[j];
      SpanBoxIsLeast(init, b);
      AddLocationIsLeast(SpanBox(init).value, rs[n - 1].location, b);
    }
  }

  /** `_new_text_locator(t, ocr, conf)`: a copy of `t` extended by the word
      of `ocr`, with the given confidence; `t` itself is a value and stays
      as it was. */
  function NewTextLocator(t: Locator, ocr: OcrText, conf: real): (u: Locator)
    ensures u.text == JoinSpace(t.text, ocr.text)
    ensures u.confidence == conf
    ensures u.location.Some? && Contains(u.location.value, ocr.location)
    ensures t.location.Some? ==> Contains(u.location.value, t.location.value)
    ensures t.location.None? ==> u.location == Some(ocr.location)
    ensures u.location == AddLocation(t.location, ocr.location)
  {
    AddTo(Locator(JoinSpace(t.text, ocr.text), conf, t.location), ocr.location)
  }
}
