/** The `Untriseptium` class of `untriseptium/__init__.py`: a session that
    caches one screenshot and the OCR records read from it, finds a text on
    the screen through the Tesseract backend's default strategy
    (`_find_texts_para_partial`), and hands clicks and moves to the
    frontend.

    The frontend's screenshot is the argument `shot` of the operations that
    may take one, and Tesseract itself is the argument `tess`; the calls
    `frontend.click` and `frontend.move` are represented by the point they
    are given. Each operation returns the session as the Python object is
    left, also when it raises: `ocr` may have captured a screenshot before
    Tesseract's records fail to parse, and `click` clears the cache before
    it subscripts its target. */
module Facade {
  import opened Outcomes
  import opened Geometry
  import opened Records
  import opened Scoring
  import opened Ranking
  import opened Recognition
  import opened Paragraphs

  /** The cached `screenshot` and `ocrdata`. */
  datatype Session = Session(screenshot: Option<Image>, ocrdata: Option<seq<OcrText>>)

  /** The session after an operation, and what the operation returned or
      raised. */
  datatype Outcome<T> = Outcome(session: Session, result: Result<T>)

  /** The records are always those of the cached screenshot: there are
      none without one. */
  predicate Coherent(s: Session) {
    s.ocrdata.Some? ==> s.screenshot.Some?
  }

  /** `_clear_screenshot`, which the constructor also runs. */
  function Cleared(): (s: Session)
    ensures Coherent(s)
  {
    Session(None, None)
  }

  /** `capture`: a new screenshot, whose records are not read yet. */
  function Capture(s: Session, shot: Image): (r: Session)
    ensures Coherent(r)
  {
    Session(Some(shot), None)
  }

  /** `ocr`: reads the records of the cached screenshot, capturing one
      first when there is none. */
  function RunOcr(s: Session, shot: Image, tess: Tesseract): (o: Outcome<seq<OcrText>>)
    ensures o.session.screenshot.Some?
    ensures o.result.Ok? ==> o.session.ocrdata == Some(o.result.value)
  {
    var taken := if s.screenshot.None? then Capture(s, shot) else s;
    match Ocr(Subregions(tess), taken.screenshot.value)
    case Err(e) => Outcome(taken, Err(e))
    case Ok(data) => Outcome(taken.(ocrdata := Some(data)), Ok(data))
  }

  /** The first lines of `find_text`: the records are read again when the
      cache holds none, `None` and an empty list alike. */
  function Cached(s: Session, shot: Image, tess: Tesseract): (o: Outcome<seq<OcrText>>)
    ensures o.result.Ok? ==> o.session.ocrdata == Some(o.result.value)
  {
    if s.ocrdata.Some? && s.ocrdata.value != [] then Outcome(s, Ok(s.ocrdata.value))
    else RunOcr(s, shot, tess)
  }

  /** `dist` of `find_text`: the squared distance from the hinted point to
      the centre of `r`. */
  function SquaredDistance(p: (real, real), r: Rect): real {
    var c := Center(r);
    Product(p.0 - c.0, p.0 - c.0) + Product(p.1 - c.1, p.1 - c.1)
  }

  /** Every candidate has a box. */
  predicate Located(texts: seq<Locator>) {
    forall k :: 0 <= k < |texts| ==> texts[k].location.Some?
  }

  /** The distance of candidate `k` of located candidates. */
  function Distance(texts: seq<Locator>, p: (real, real), k: nat): real
    requires Located(texts) && k < |texts|
  {
    SquaredDistance(p, texts[k].location.value)
  }

  /** Candidate `k` is the first of the first `n` candidates nearest to
      `p`: none is nearer, and every one before it is farther. */
  predicate FirstNearest(texts: seq<Locator>, p: (real, real), k: nat, n: nat)
    requires Located(texts) && n <= |texts|
  {
    && k < n
    && (forall j :: 0 <= j < n ==> Distance(texts, p, k) <= Distance(texts, p, j))
    && (forall j :: 0 <= j < k ==> Distance(texts, p, j) > Distance(texts, p, k))
  }

  /** The loop of `find_text` over the candidates from `i` on, `best`
      holding `cand` and `cand_dist`: a candidate replaces the one kept
      only when it is strictly nearer; a candidate without a box raises. */
  function Closest(texts: seq<Locator>, p: (real, real), i: nat, best: Option<(Locator, real)>): (r: Result<Option<Locator>>)
    requires i <= |texts|
    ensures r.Ok? && best.Some? ==> r.value.Some?
    decreases |texts| - i
  {
    if i == |texts| then Ok(if best.Some? then Some(best.value.0) else None)
    else
      var t := texts[i];
      if t.location.None? then Err(NoneAttribute)
      else
        var dist := SquaredDistance(p, t.location.value);
        if best.None? || dist < best.value.1 then Closest(texts, p, i + 1, Some((t, dist)))
        else Closest(texts, p, i + 1, best)
  }

  /** The hinted point: the hint's two fractions of the screenshot's width
      and height. */
  function HintPoint(image: Image, hint: seq<real>): (real, real)
    requires |hint| >= 2
  {
    (Product(hint[0], image.width as real), Product(hint[1], image.height as real))
  }

  /** The selection of `find_text`. With a hint, the candidate whose centre
      is nearest to the hinted fraction of the screenshot, the first of
      equally near ones; `cand.set_context` raises when there is none.
      Without one (an empty hint is false in Python), the first candidate. */
  function Select(screenshot: Option<Image>, texts: seq<Locator>, hint: seq<real>): (r: Result<Locator>)
    ensures hint == [] ==> (r.Ok? <==> texts != [])
    ensures hint == [] && texts == [] ==> r == Err(IndexOutOfRange)
    ensures r.Ok? ==> r.value in texts
  {
    if hint != [] then
      if screenshot.None? then Err(NoneAttribute)
      else if |hint| < 2 then Err(IndexOutOfRange)
      else
        var p := HintPoint(screenshot.value, hint);
        var cand :- Closest(texts, p, 0, None);
        ClosestIsCandidate(texts, p, 0, None);
        if cand.None? then Err(NoneAttribute) else Ok(cand.value)
    else if texts == [] then Err(IndexOutOfRange)
    else Ok(texts[0])
  }

  /** `find_text`. */
  function FindText(s: Session, shot: Image, tess: Tesseract, text: string, hint: seq<real>): (o: Outcome<Locator>) {
    var read := Cached(s, shot, tess);
    if read.result.Err? then Outcome(read.session, Err(read.result.error))
    else
      match FindTextsParaPartial(read.result.value, text)
      case Err(e) => Outcome(read.session, Err(e))
      case Ok(texts) => Outcome(read.session, Select(read.session.screenshot, texts, hint))
  }

  // ---------------------------------------------------------------------
  // click and move

  /** What `click` and `move` may be given: a `TextLocator`, a `Location`,
      or a sequence of coordinates. */
  datatype Target = Text(locator: Locator) | Box(rect: Rect) | Coords(xs: seq<real>)

  /** `_filter_locator`: anything with a centre is replaced by it. A text
      locator without a box raises `AttributeError` inside `center`, which
      the function swallows, so it comes back as it was. */
  function FilterLocator(t: Target): (r: Target)
    ensures r.Coords? || (t.Text? && t.locator.location.None? && r == t)
    ensures t.Coords? ==> r == t
  {
    match t
    case Text(l) =>
      if l.location.Some? then var c := Center(l.location.value); Coords([c.0, c.1]) else t
    case Box(rect) => var c := Center(rect); Coords([c.0, c.1])
    case Coords(_) => t
  }

  /** `locator[0], locator[1]`: only coordinates can be subscripted. */
  function Point(t: Target): (r: Result<(real, real)>)
    ensures !t.Coords? ==> r == Err(NotSubscriptable)
    ensures t.Coords? ==> (r.Ok? <==> |t.xs| >= 2)
  {
    match t
    case Coords(xs) => if |xs| < 2 then Err(IndexOutOfRange) else Ok((xs[0], xs[1]))
    case _ => Err(NotSubscriptable)
  }

  /** `click`: the cache is cleared before the target is subscripted, so
      also when that raises. The result is the point handed to the
      frontend. */
  function Click(s: Session, t: Target): (o: Outcome<(real, real)>) {
    Outcome(Cleared(), Point(FilterLocator(t)))
  }

  /** `move`: the session is untouched. */
  function Move(s: Session, t: Target): (o: Outcome<(real, real)>) {
    Outcome(s, Point(FilterLocator(t)))
  }

  // ---------------------------------------------------------------------
  // Properties

  /** Whatever `Closest` keeps is one of the candidates. */
  lemma {:induction false} ClosestIsCandidate(texts: seq<Locator>, p: (real, real), i: nat, best: Option<(Locator, real)>)
    requires i <= |texts|
    requires best.Some? ==> best.value.0 in texts
    ensures Closest(texts, p, i, best).Ok? && Closest(texts, p, i, best).value.Some? ==>
              Closest(texts, p, i, best).value.value in texts
    decreases |texts| - i
  {
    if i < |texts| && texts[i].location.Some? {
      var dist := SquaredDistance(p, texts[i].location.value);
      if best.None? || dist < best.value.1 {
        ClosestIsCandidate(texts, p, i + 1, Some((texts[i], dist)));
      } else {
        ClosestIsCandidate(texts, p, i + 1, best);
      }
    }
  }

  /** A candidate without a box makes the loop raise. */
  lemma {:induction false} ClosestNeedsBoxes(texts: seq<Locator>, p: (real, real), i: nat, best: Option<(Locator, real)>, k: nat)
    requires i <= k < |texts| && texts[k].location.None?
    ensures Closest(texts, p, i, best) == Err(NoneAttribute)
    decreases |texts| - i
  {
    if i < k && texts[i].location.Some? {
      var dist := SquaredDistance(p, texts[i].location.value);
      if best.None? || dist < best.value.1 {
        ClosestNeedsBoxes(texts, p, i + 1, Some((texts[i], dist)), k);
      } else {
        ClosestNeedsBoxes(texts, p, i + 1, best, k);
      }
    }
  }

  /** After the first `i` located candidates the loop keeps the first
      nearest of them, and so it ends with the first nearest of all. */
  lemma {:induction false} ClosestKeepsFirstNearest(texts: seq<Locator>, p: (real, real), i: nat, k: nat)
    requires Located(texts) && 1 <= i <= |texts| && FirstNearest(texts, p, k, i)
    ensures exists n: nat :: FirstNearest(texts, p, n, |texts|) &&
              Closest(texts, p, i, Some((texts[k], Distance(texts, p, k)))) == Ok(Some(texts[n]))
    decreases |texts| - i
  {
    if i < |texts| {
      if Distance(texts, p, i) < Distance(texts, p, k) {
        ClosestKeepsFirstNearest(texts, p, i + 1, i);
      } else {
        ClosestKeepsFirstNearest(texts, p, i + 1, k);
      }
    }
  }

  /** With located candidates, the hinted selection is the first of the
      candidates nearest to the hinted point; with none it raises. */
  lemma ClosestIsFirstNearest(texts: seq<Locator>, p: (real, real))
    requires Located(texts)
    ensures texts == [] ==> Closest(texts, p, 0, None) == Ok(None)
    ensures texts != [] ==> exists n: nat :: FirstNearest(texts, p, n, |texts|) && Closest(texts, p, 0, None) == Ok(Some(texts[n]))
  {
    if texts != [] {
      assert FirstNearest(texts, p, 0, 1);
      ClosestKeepsFirstNearest(texts, p, 1, 0);
    }
  }

  /** The first nearest candidate is unique. */
  lemma FirstNearestUnique(texts: seq<Locator>, p: (real, real), k: nat, n: nat)
    requires Located(texts)
    requires FirstNearest(texts, p, k, |texts|) && FirstNearest(texts, p, n, |texts|)
    ensures k == n
  {
    assert Distance(texts, p, k) <= Distance(texts, p, n);
    assert Distance(texts, p, n) <= Distance(texts, p, k);
  }

  /** Every candidate of the default strategy has a box: it is the union of
      the boxes of a non-empty run of words. */
  lemma CandidatesLocated(data: seq<OcrText>, text: string)
    requires data == [] || Sentinel(data[0])
    requires FindTextsParaPartial(data, text).Ok?
    ensures Located(FindTextsParaPartial(data, text).value)
  {
    var texts := FindTextsParaPartial(data, text).value;
    FindTextsParaPartialSpec(data, text);
    forall k | 0 <= k < |texts|
      ensures texts[k].location.Some?
    {
      assert texts[k] in texts;
      var s: nat, e: nat :| RunYields(data, text, s, e, texts[k]);
      RunCandidate(data, text, s, e, texts[k]);
    }
  }

  /** Every operation keeps the session coherent. */
  lemma SessionCoherent(s: Session, shot: Image, tess: Tesseract, text: string, hint: seq<real>, t: Target)
    requires Coherent(s)
    ensures Coherent(RunOcr(s, shot, tess).session)
    ensures Coherent(FindText(s, shot, tess, text, hint).session)
    ensures Coherent(Click(s, t).session) && Coherent(Move(s, t).session)
  {
  }

  /** With records cached, `find_text` neither captures nor reads again:
      the session is unchanged, and neither the frontend nor Tesseract
      matters. */
  lemma FindTextUsesCache(s: Session, shot: Image, tess: Tesseract, shot2: Image, tess2: Tesseract, text: string, hint: seq<real>)
    requires s.ocrdata.Some? && s.ocrdata.value != []
    ensures FindText(s, shot, tess, text, hint).session == s
    ensures FindText(s, shot, tess, text, hint) == FindText(s, shot2, tess2, text, hint)
  {
  }

  /** Without cached records `find_text` reads the cached screenshot, or a
      new one when there is none, and caches what it read. */
  lemma FindTextReads(s: Session, shot: Image, tess: Tesseract, text: string, hint: seq<real>)
    requires s.ocrdata.None? || s.ocrdata == Some([])
    ensures var o := FindText(s, shot, tess, text, hint);
      && o.session.screenshot == (if s.screenshot.Some? then s.screenshot else Some(shot))
      && (Ocr(Subregions(tess), o.session.screenshot.value).Ok? ==>
            o.session.ocrdata == Some(Ocr(Subregions(tess), o.session.screenshot.value).value))
      && (Ocr(Subregions(tess), o.session.screenshot.value).Err? ==>
            o.result == Err(Ocr(Subregions(tess), o.session.screenshot.value).error))
  {
  }

  /** What `find_text` finds is a matching run of words within one
      paragraph of the records it searched. */
  lemma FindTextFindsRun(s: Session, shot: Image, tess: Tesseract, text: string, hint: seq<real>)
    requires FindText(s, shot, tess, text, hint).result.Ok?
    requires var data := FindText(s, shot, tess, text, hint).session.ocrdata.value;
      data == [] || Sentinel(data[0])
    ensures FindText(s, shot, tess, text, hint).session.ocrdata.Some?
    ensures var data := FindText(s, shot, tess, text, hint).session.ocrdata.value;
      exists b: nat, e: nat :: RunYields(data, text, b, e, FindText(s, shot, tess, text, hint).result.value)
  {
    var read := Cached(s, shot, tess);
    var data := read.result.value;
    FindTextsParaPartialSpec(data, text);
  }

  /** Without a hint, `find_text` returns the first of the most confident
      candidates, in the order the strategy found them. */
  lemma FindTextMostConfident(s: Session, shot: Image, tess: Tesseract, text: string)
    requires FindText(s, shot, tess, text, []).result.Ok?
    ensures var data := FindText(s, shot, tess, text, []).session.ocrdata.value;
      var cand := Partial(data, text, 0, None, []);
      && cand.Ok? && cand.value != []
      && FindText(s, shot, tess, text, []).result.value == cand.value[FirstBest(cand.value)]
  {
    var data := Cached(s, shot, tess).result.value;
    var cand := Partial(data, text, 0, None, []).value;
    SortHeadIsFirstBest(cand);
  }

  /** With a hint of two coordinates and located candidates, the
      selection is the first of the candidates whose centre is nearest to
      the hinted fraction of the screenshot. */
  lemma SelectNearest(image: Image, texts: seq<Locator>, hint: seq<real>)
    requires |hint| >= 2 && Located(texts)
    requires Select(Some(image), texts, hint).Ok?
    ensures var p := HintPoint(image, hint);
      exists n: nat :: FirstNearest(texts, p, n, |texts|) && Select(Some(image), texts, hint).value == texts[n]
  {
    ClosestIsFirstNearest(texts, HintPoint(image, hint));
  }

  /** With a hint of two coordinates, `find_text` returns the first of the
      candidates whose centre is nearest to the hinted fraction of the
      screenshot. */
  lemma FindTextNearest(s: Session, shot: Image, tess: Tesseract, text: string, hint: seq<real>)
    requires |hint| >= 2
    requires FindText(s, shot, tess, text, hint).result.Ok?
    requires var data := FindText(s, shot, tess, text, hint).session.ocrdata.value;
      data == [] || Sentinel(data[0])
    ensures var o := FindText(s, shot, tess, text, hint);
      var texts := FindTextsParaPartial(o.session.ocrdata.value, text).value;
      var p := HintPoint(o.session.screenshot.value, hint);
      && Located(texts)
      && exists n: nat :: FirstNearest(texts, p, n, |texts|) && o.result.value == texts[n]
  {
    var read := Cached(s, shot, tess);
    var data := read.result.value;
    var texts := FindTextsParaPartial(data, text).value;
    CandidatesLocated(data, text);
    SelectNearest(read.session.screenshot.value, texts, hint);
  }

  /** A hint names two coordinates: one alone raises `IndexError`. */
  lemma FindTextShortHint(s: Session, shot: Image, tess: Tesseract, text: string, x: real)
    requires Coherent(s)
    requires Cached(s, shot, tess).result.Ok?
    requires FindTextsParaPartial(Cached(s, shot, tess).result.value, text).Ok?
    ensures FindText(s, shot, tess, text, [x]).result == Err(IndexOutOfRange)
  {
  }

  /** `_filter_locator` is idempotent. */
  lemma FilterLocatorIdempotent(t: Target)
    ensures FilterLocator(FilterLocator(t)) == FilterLocator(t)
  {
  }

  /** Clicking a text locator or a box clicks its centre; a text locator
      without a box cannot be clicked. Clicking always clears the cache. */
  lemma ClickCentre(s: Session, t: Target)
    ensures Click(s, t).session == Cleared()
    ensures t.Box? ==> Click(s, t).result == Ok(Center(t.rect))
    ensures t.Text? && t.locator.location.Some? ==> Click(s, t).result == Ok(Center(t.locator.location.value))
    ensures t.Text? && t.locator.location.None? ==> Click(s, t).result == Err(NotSubscriptable)
    ensures Move(s, t).session == s && Move(s, t).result == Click(s, t).result
  {
  }
}
