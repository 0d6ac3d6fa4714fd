/** `_find_texts_para` and `_find_texts_para_partial` of
    `untriseptium/backend/tesseract.py`: the span strategies that compare
    the wanted text with runs of word records between sentinel rows (rows of
    negative confidence: the page, block, paragraph and line rows Tesseract
    interleaves with the words).

    `_find_texts_para` accumulates each whole paragraph and keeps it when it
    matches; `_find_texts_para_partial` tries every run of consecutive words
    within a paragraph. Both need the first record to be a sentinel: the
    accumulator, respectively the paragraph start, is only set by one. */
module Paragraphs {
  import opened Outcomes
  import opened Geometry
  import opened Records
  import opened Scoring
  import opened Ranking
  import opened Alignment

  /** `_process(t)` and the check of `_find_texts_para_partial`: `t` is kept,
      with its confidence replaced by its match against the text, when that
      match reaches the threshold. */
  function Judge(t: Locator, text: string): (r: Result<Option<Locator>>)
    ensures r.Err? <==> t.text == [] && text == []
    ensures r.Ok? ==> (r.value.Some? <==> ConfOcrText(t.text, t.confidence, text).value >= ConfidenceThreshold)
    ensures r.Ok? && r.value.Some? ==> r.value.value == t.(confidence := ConfOcrText(t.text, t.confidence, text).value)
  {
    var confidence :- ConfOcrText(t.text, t.confidence, text);
    if confidence < ConfidenceThreshold then Ok(None) else Ok(Some(t.(confidence := confidence)))
  }

  /** The candidates a judgement adds. */
  function Kept(o: Option<Locator>): seq<Locator> {
    if o.Some? then [o.value] else []
  }

  lemma KeptHolds(o: Option<Locator>, c: Locator)
    ensures c in Kept(o) <==> o == Some(c)
  {
  }

  /** A sentinel row. */
  predicate Sentinel(r: OcrText) {
    r.confidence < 0.0
  }

  // ---------------------------------------------------------------------
  // _find_texts_para

  /** The accumulator `t` after the words `data[s..e]` of a paragraph:
      starting from the certain empty locator a sentinel sets, each word is
      appended to the text and the box, and its confidence folded in with
      `_weighted_sum`, weighted by the length of the text so far and of the
      word. */
  function Paragraph(data: seq<OcrText>, s: nat, e: nat): Result<Locator>
    requires s <= e <= |data|
    decreases e - s
  {
    if e == s then Ok(Start())
    else
      var t :- Paragraph(data, s, e - 1);
      var x := data[e - 1];
      var conf :- WeightedSum(t.confidence, |t.text|, x.confidence, |x.text|);
      Ok(NewTextLocator(t, x, conf))
  }

  /** The accumulator holds the paragraph's words joined with `JoinSpace`
      and the union of their boxes. */
  lemma {:induction false} ParagraphSpans(data: seq<OcrText>, s: nat, e: nat)
    requires s <= e <= |data| && Paragraph(data, s, e).Ok?
    ensures Paragraph(data, s, e).value.text == SpanText(data[s..e])
    ensures Paragraph(data, s, e).value.location == SpanBox(data[s..e])
    decreases e - s
  {
    if e > s {
      ParagraphSpans(data, s, e - 1);
      var rs := data[s..e];
      assert rs[..|rs| - 1] == data[s..e - 1];
      assert rs[|rs| - 1] == data[e - 1];
    }
  }

  /** What a sentinel does with the paragraph before it: `_process(t)`
      when there is one and it has text, nothing otherwise. */
  function Finish(t: Option<Locator>, text: string): Result<Option<Locator>> {
    if t.Some? && t.value.text != [] then Judge(t.value, text) else Ok(None)
  }

  /** The loop of `_find_texts_para` from record `k` on, `t` being the
      accumulator (`None` before the first sentinel). A sentinel hands a
      non-empty paragraph to `_process` and starts a new one; a word is
      folded into the accumulator; after the last record the accumulator is
      processed whatever it holds. */
  function ParaLoop(data: seq<OcrText>, text: string, k: nat, t: Option<Locator>, cand: seq<Locator>): (r: Result<seq<Locator>>)
    requires k <= |data|
    ensures r.Ok? ==> forall c :: c in cand ==> c in r.value
    decreases |data| - k
  {
    if k == |data| then
      if t.None? then Err(NoneAttribute)
      else
        var last :- Judge(t.value, text);
        Ok(cand + Kept(last))
    else
      var ocr := data[k];
      if Sentinel(ocr) then
        var done :- Finish(t, text);
        ParaLoop(data, text, k + 1, Some(Start()), cand + Kept(done))
      else if t.None? then Err(NoneAttribute)
      else
        var conf :- WeightedSum(t.value.confidence, |t.value.text|, ocr.confidence, |ocr.text|);
        ParaLoop(data, text, k + 1, Some(NewTextLocator(t.value, ocr, conf)), cand)
  }

  /** `_find_texts_para`. */
  function FindTextsPara(data: seq<OcrText>, text: string): Result<seq<Locator>> {
    var cand :- ParaLoop(data, text, 0, None, []);
    Ok(SortByConfidence(cand))
  }

  /** `data[s..e]` is a paragraph: a sentinel opens it, none is inside,
      and the end of the records or a sentinel closes it. */
  predicate Closed(data: seq<OcrText>, s: nat, e: nat) {
    && 1 <= s <= e <= |data|
    && Sentinel(data[s - 1])
    && (forall i :: s <= i < e ==> !Sentinel(data[i]))
    && (e == |data| || Sentinel(data[e]))
  }

  /** Paragraph `data[s..e]` yields candidate `c`: it is processed (at the
      end of the records whatever its text, at a sentinel only with text)
      and matches as `c`. */
  predicate ParaYields(data: seq<OcrText>, text: string, s: nat, e: nat, c: Locator) {
    && Closed(data, s, e)
    && Paragraph(data, s, e).Ok?
    && (e == |data| || Paragraph(data, s, e).value.text != [])
    && Judge(Paragraph(data, s, e).value, text) == Ok(Some(c))
  }

  /** A run that a sentinel opens at `p` and that has no sentinel up to `k`
      is the only paragraph closed at or after `k` that starts at or before
      `k`. */
  lemma OnlyParagraph(data: seq<OcrText>, p: nat, k: nat, s: nat, e: nat)
    requires 1 <= p <= k <= e <= |data| && 1 <= s <= k
    requires Sentinel(data[p - 1]) && forall i :: p <= i < k ==> !Sentinel(data[i])
    requires Sentinel(data[s - 1]) && forall i :: s <= i < e ==> !Sentinel(data[i])
    ensures s == p
  {
    assert Sentinel(data[p - 1]) && Sentinel(data[s - 1]);
  }

  /** Every paragraph closed at or after `k` that matches is a candidate
      of the loop from `k` on, and every candidate is one of those or was
      there before; `t` is the accumulator of the paragraph opened at `p`. */
  lemma {:induction false} ParaLoopSpec(data: seq<OcrText>, text: string, k: nat, p: nat, cand: seq<Locator>, t: Locator, r: seq<Locator>)
    requires 1 <= p <= k <= |data| && Sentinel(data[p - 1])
    requires forall i :: p <= i < k ==> !Sentinel(data[i])
    requires Paragraph(data, p, k) == Ok(t)
    requires ParaLoop(data, text, k, Some(t), cand) == Ok(r)
    ensures forall c, s: nat, e: nat :: k <= e && ParaYields(data, text, s, e, c) ==> c in r
    ensures forall c :: c in r
              ==> c in cand || exists s: nat, e: nat :: k <= e && ParaYields(data, text, s, e, c)
    decreases |data| - k, 1
  {
    if k == |data| {
      ParaLoopEnd(data, text, k, p, cand, t, r);
    } else if Sentinel(data[k]) {
      ParaLoopClose(data, text, k, p, cand, t, r);
    } else {
      ParaLoopWord(data, text, k, p, cand, t, r);
    }
  }

  /** After the last record: the open paragraph is the only one left. */
  lemma ParaLoopEnd(data: seq<OcrText>, text: string, k: nat, p: nat, cand: seq<Locator>, t: Locator, r: seq<Locator>)
    requires 1 <= p <= k == |data| && Sentinel(data[p - 1])
    requires forall i :: p <= i < k ==> !Sentinel(data[i])
    requires Paragraph(data, p, k) == Ok(t)
    requires ParaLoop(data, text, k, Some(t), cand) == Ok(r)
    ensures forall c, s: nat, e: nat :: k <= e && ParaYields(data, text, s, e, c) ==> c in r
    ensures forall c :: c in r
              ==> c in cand || exists s: nat, e: nat :: k <= e && ParaYields(data, text, s, e, c)
  {
    var last := Judge(t, text).value;
    assert r == cand + Kept(last);
    forall c, s: nat, e: nat | k <= e && ParaYields(data, text, s, e, c)
      ensures c in r
    {
      OnlyParagraph(data, p, k, s, e);
      KeptHolds(last, c);
    }
    forall c | c in r
      ensures c in cand || exists s: nat, e: nat :: k <= e && ParaYields(data, text, s, e, c)
    {
      KeptHolds(last, c);
      if c !in cand {
        assert ParaYields(data, text, p, k, c);
      }
    }
  }

  /** At a sentinel: the open paragraph is closed, and a new one opened. */
  lemma {:induction false} ParaLoopClose(data: seq<OcrText>, text: string, k: nat, p: nat, cand: seq<Locator>, t: Locator, r: seq<Locator>)
    requires 1 <= p <= k < |data| && Sentinel(data[k]) && Sentinel(data[p - 1])
    requires forall i :: p <= i < k ==> !Sentinel(data[i])
    requires Paragraph(data, p, k) == Ok(t)
    requires ParaLoop(data, text, k, Some(t), cand) == Ok(r)
    ensures forall c, s: nat, e: nat :: k <= e && ParaYields(data, text, s, e, c) ==> c in r
    ensures forall c :: c in r
              ==> c in cand || exists s: nat, e: nat :: k <= e && ParaYields(data, text, s, e, c)
    decreases |data| - k, 0
  {
    var done := Finish(Some(t), text).value;
    var more := cand + Kept(done);
    assert ParaLoop(data, text, k, Some(t), cand) == ParaLoop(data, text, k + 1, Some(Start()), more);
    ParaLoopSpec(data, text, k + 1, k + 1, more, Start(), r);
    forall c, s: nat, e: nat | k <= e && ParaYields(data, text, s, e, c)
      ensures c in r
    {
      if e == k {
        OnlyParagraph(data, p, k, s, e);
        KeptHolds(done, c);
        assert c in more;
      }
    }
    forall c | c in r
      ensures c in cand || exists s: nat, e: nat :: k <= e && ParaYields(data, text, s, e, c)
    {
      if c in more {
        KeptHolds(done, c);
        if c !in cand {
          assert ParaYields(data, text, p, k, c);
        }
      } else {
        var s: nat, e: nat :| k + 1 <= e && ParaYields(data, text, s, e, c);
        assert k <= e;
      }
    }
  }

  /** The loop folds a word into the accumulator as `Paragraph` extends
      the paragraph by it. */
  lemma ParaLoopFold(data: seq<OcrText>, text: string, k: nat, p: nat, cand: seq<Locator>, t: Locator) returns (u: Locator)
    requires p <= k < |data| && !Sentinel(data[k])
    requires Paragraph(data, p, k) == Ok(t)
    requires ParaLoop(data, text, k, Some(t), cand).Ok?
    ensures Paragraph(data, p, k + 1) == Ok(u)
    ensures ParaLoop(data, text, k, Some(t), cand) == ParaLoop(data, text, k + 1, Some(u), cand)
  {
    u := NewTextLocator(t, data[k], WeightedSum(t.confidence, |t.text|, data[k].confidence, |data[k].text|).value);
  }

  /** At a word: it is folded into the open paragraph, which no sentinel
      closed at `k`. */
  lemma {:induction false} ParaLoopWord(data: seq<OcrText>, text: string, k: nat, p: nat, cand: seq<Locator>, t: Locator, r: seq<Locator>)
    requires 1 <= p <= k < |data| && !Sentinel(data[k]) && Sentinel(data[p - 1])
    requires forall i :: p <= i < k ==> !Sentinel(data[i])
    requires Paragraph(data, p, k) == Ok(t)
    requires ParaLoop(data, text, k, Some(t), cand) == Ok(r)
    ensures forall c, s: nat, e: nat :: k <= e && ParaYields(data, text, s, e, c) ==> c in r
    ensures forall c :: c in r
              ==> c in cand || exists s: nat, e: nat :: k <= e && ParaYields(data, text, s, e, c)
    decreases |data| - k, 0
  {
    var u := ParaLoopFold(data, text, k, p, cand, t);
    assert forall i :: p <= i < k + 1 ==> !Sentinel(data[i]);
    ParaLoopSpec(data, text, k + 1, p, cand, u, r);
    ParaWordStep(data, text, k, cand, r);
  }

  /** No paragraph is closed at a word. */
  lemma ParaWordStep(data: seq<OcrText>, text: string, k: nat, cand: seq<Locator>, r: seq<Locator>)
    requires k < |data| && !Sentinel(data[k])
    requires forall c, s: nat, e: nat :: k + 1 <= e && ParaYields(data, text, s, e, c) ==> c in r
    requires forall c :: c in r ==> c in cand || exists s: nat, e: nat :: k + 1 <= e && ParaYields(data, text, s, e, c)
    ensures forall c, s: nat, e: nat :: k <= e && ParaYields(data, text, s, e, c) ==> c in r
    ensures forall c :: c in r ==> c in cand || exists s: nat, e: nat :: k <= e && ParaYields(data, text, s, e, c)
  {
    forall c, s: nat, e: nat | k <= e && ParaYields(data, text, s, e, c)
      ensures c in r
    {
      assert k + 1 <= e;
    }
    forall c | c in r
      ensures c in cand || exists s: nat, e: nat :: k <= e && ParaYields(data, text, s, e, c)
    {
      if c !in cand {
        var s: nat, e: nat :| k + 1 <= e && ParaYields(data, text, s, e, c);
        assert k <= e;
      }
    }
  }

  /** `_find_texts_para` fails unless the first record is a sentinel: before
      one, the accumulator is `None`. On no records at all the final
      `_process(None)` fails the same way. */
  lemma FindTextsParaNeedsSentinel(data: seq<OcrText>, text: string)
    requires data == [] || !Sentinel(data[0])
    ensures FindTextsPara(data, text) == Err(NoneAttribute)
  {
  }

  /** Otherwise its candidates are exactly the matching paragraphs, with the
      text, box and accumulated confidence of the paragraph's words, the
      confidence then replaced by the match; most confident first. */
  lemma FindTextsParaSpec(data: seq<OcrText>, text: string)
    requires FindTextsPara(data, text).Ok?
    ensures data != [] && Sentinel(data[0])
    ensures Descending(FindTextsPara(data, text).value)
    ensures forall c :: c in FindTextsPara(data, text).value <==> exists s: nat, e: nat :: ParaYields(data, text, s, e, c)
  {
    ParaLoopOpens(data, text);
    var cand := ParaLoop(data, text, 0, None, []).value;
    ParaLoopSpec(data, text, 1, 1, [], Start(), cand);
    SortDescending(cand);
    SortKeepsMembers(cand);
    forall c
      ensures c in SortByConfidence(cand) <==> exists s: nat, e: nat :: ParaYields(data, text, s, e, c)
    {
      if exists s: nat, e: nat :: ParaYields(data, text, s, e, c) {
        var s: nat, e: nat :| ParaYields(data, text, s, e, c);
        assert 1 <= e;
      }
    }
  }

  /** The first record, a sentinel, opens the first paragraph. */
  lemma ParaLoopOpens(data: seq<OcrText>, text: string)
    requires ParaLoop(data, text, 0, None, []).Ok?
    ensures data != [] && Sentinel(data[0])
    ensures Paragraph(data, 1, 1) == Ok(Start())
    ensures ParaLoop(data, text, 0, None, []) == ParaLoop(data, text, 1, Some(Start()), [])
  {
    assert data != [] && Sentinel(data[0]);
    assert Kept(None) == [] && [] + Kept(None) == [];
  }

  /** The first word of a paragraph, if it has text, raises the paragraph's
      confidence to at least 1: `_weighted_sum` adds the word's length where
      it means to multiply by it. */
  lemma ParaFirstWord(data: seq<OcrText>, s: nat)
    requires s < |data| && data[s].text != [] && data[s].confidence >= 0.0
    ensures Paragraph(data, s, s + 1).Ok?
    ensures Paragraph(data, s, s + 1).value.confidence == 1.0 + data[s].confidence / |data[s].text| as real
    ensures Paragraph(data, s, s + 1).value.confidence >= 1.0
  {
    WeightedSumOfFirstWord(1.0, data[s].confidence, |data[s].text|);
  }

  // ---------------------------------------------------------------------
  // _find_texts_para_partial

  /** The state of the innermost loop of `_find_texts_para_partial`: the
      text and box built so far, `conf_tot` and `textlen_total`. */
  datatype Tally = Tally(text: string, confTotal: real, lenTotal: nat, location: Option<Rect>)

  /** The innermost loop over the words `data[s..i]`: each is appended to
      the text and the box, its confidence times its length added to
      `conf_tot` and its length to `textlen_total`. */
  function Accumulate(data: seq<OcrText>, s: nat, i: nat): Tally
    requires s <= i <= |data|
    decreases i - s
  {
    if i == s then Tally([], 0.0, 0, None)
    else
      var a := Accumulate(data, s, i - 1);
      var x := data[i - 1];
      Tally(JoinSpace(a.text, x.text), a.confTotal + Product(x.confidence, |x.text| as real),
            a.lenTotal + |x.text|, AddLocation(a.location, x.location))
  }

  /** The locator built for the run `data[s..e]`, both ends included: its
      confidence is `conf_tot / textlen_total if textlen_total else 0`, the
      confidence of the words weighted by their lengths. */
  function RunLocator(data: seq<OcrText>, s: nat, e: nat): Locator
    requires s <= e < |data|
  {
    var a := Accumulate(data, s, e + 1);
    Locator(a.text, if a.lenTotal != 0 then a.confTotal / a.lenTotal as real else 0.0, a.location)
  }

  /** The loop builds the same text and box as every other span strategy:
      the records joined with `JoinSpace` and their boxes united. */
  lemma {:induction false} AccumulateSpans(data: seq<OcrText>, s: nat, i: nat)
    requires s <= i <= |data|
    ensures Accumulate(data, s, i).text == SpanText(data[s..i])
    ensures Accumulate(data, s, i).location == SpanBox(data[s..i])
    decreases i - s
  {
    if i > s {
      AccumulateSpans(data, s, i - 1);
      var rs := data[s..i];
      assert rs[..|rs| - 1] == data[s..i - 1];
      assert rs[|rs| - 1] == data[i - 1];
    }
  }

  /** Adding a word of confidence `c` in [0, 1] and length `len` keeps
      `conf_tot` between 0 and `textlen_total`. */
  lemma WeightStep(c: real, len: real, total: real, conf: real)
    requires len >= 0.0 && 0.0 <= c <= 1.0
    requires 0.0 <= conf <= total
    ensures 0.0 <= conf + Product(c, len) <= total + len
  {
    ScaleMonotone(len, 0.0, c);
    ScaleMonotone(len, c, 1.0);
  }

  /** With every word's confidence in [0, 1], `conf_tot` lies between 0
      and `textlen_total`. */
  lemma {:induction false} AccumulateBetween(data: seq<OcrText>, s: nat, i: nat)
    requires s <= i <= |data|
    requires forall j :: s <= j < i ==> 0.0 <= data[j].confidence <= 1.0
    ensures 0.0 <= Accumulate(data, s, i).confTotal <= Accumulate(data, s, i).lenTotal as real
    decreases i - s
  {
    if i > s {
      var a := Accumulate(data, s, i - 1);
      var x := data[i - 1];
      AccumulateBetween(data, s, i - 1);
      WeightStep(x.confidence, |x.text| as real, a.lenTotal as real, a.confTotal);
    }
  }

  /** The length-weighted confidence of a run of words whose confidences
      lie in [0, 1] lies in [0, 1] too. */
  lemma RunConfBetween(data: seq<OcrText>, s: nat, e: nat)
    requires s <= e < |data|
    requires forall j :: s <= j <= e ==> 0.0 <= data[j].confidence <= 1.0
    ensures 0.0 <= RunLocator(data, s, e).confidence <= 1.0
  {
    var a := Accumulate(data, s, e + 1);
    AccumulateBetween(data, s, e + 1);
    if a.lenTotal != 0 {
      QuotientBetween(a.confTotal, a.lenTotal as real, 0.0, 1.0);
    }
  }

  lemma Cancel(a: real, b: real)
    requires b != 0.0
    ensures a * b / b == a
  {
  }

  /** A single word with text keeps its own confidence. */
  lemma RunConfSingle(data: seq<OcrText>, e: nat)
    requires e < |data| && data[e].text != []
    ensures RunLocator(data, e, e).confidence == data[e].confidence
  {
    var x := data[e];
    var len := |x.text| as real;
    assert Accumulate(data, e, e + 1).confTotal == Product(x.confidence, len);
    Cancel(x.confidence, len);
  }

  /** The inner loop for the paragraph's end `e`: the runs starting at `s`,
      `s + 1`, ..., `e`. */
  function Starts(data: seq<OcrText>, text: string, s: nat, e: nat, cand: seq<Locator>): (r: Result<seq<Locator>>)
    requires e < |data|
    ensures r.Ok? ==> forall c :: c in cand ==> c in r.value
    decreases e + 1 - s
  {
    if s > e then Ok(cand)
    else
      var judged :- Judge(RunLocator(data, s, e), text);
      Starts(data, text, s + 1, e, cand + Kept(judged))
  }

  /** The outer loop of `_find_texts_para_partial` from `k` on; `start` is
      `i_para_start`, unbound until the first sentinel. */
  function Partial(data: seq<OcrText>, text: string, k: nat, start: Option<nat>, cand: seq<Locator>): (r: Result<seq<Locator>>)
    requires k <= |data|
    requires start.Some? ==> start.value <= k
    ensures r.Ok? ==> forall c :: c in cand ==> c in r.value
    decreases |data| - k
  {
    if k == |data| then Ok(cand)
    else if Sentinel(data[k]) then Partial(data, text, k + 1, Some(k + 1), cand)
    else if start.None? then Err(UnboundLocal("i_para_start"))
    else
      var more :- Starts(data, text, start.value, k, cand);
      Partial(data, text, k + 1, start, more)
  }

  /** `_find_texts_para_partial`. */
  function FindTextsParaPartial(data: seq<OcrText>, text: string): Result<seq<Locator>> {
    var cand :- Partial(data, text, 0, None, []);
    Ok(SortByConfidence(cand))
  }

  /** `data[s..e]`, both ends included, is a run of words within one
      paragraph: no sentinel is inside, and one (the first record) is
      before it. */
  predicate WordRun(data: seq<OcrText>, s: nat, e: nat) {
    && 1 <= s <= e < |data|
    && forall i :: s <= i <= e ==> !Sentinel(data[i])
  }

  /** The span `data[s..e]`, both ends included, matches as `c`. */
  predicate SpanYields(data: seq<OcrText>, text: string, s: nat, e: nat, c: Locator)
    requires s <= e < |data|
  {
    Judge(RunLocator(data, s, e), text) == Ok(Some(c))
  }

  /** Run `data[s..e]` yields candidate `c`. */
  predicate RunYields(data: seq<OcrText>, text: string, s: nat, e: nat, c: Locator) {
    WordRun(data, s, e) && SpanYields(data, text, s, e, c)
  }

  /** The inner loop adds one candidate per span ending at `e` that starts
      at `i` or later and matches, and nothing else. */
  lemma {:induction false} StartsSpec(data: seq<OcrText>, text: string, i: nat, e: nat, cand: seq<Locator>, r: seq<Locator>)
    requires e < |data|
    requires Starts(data, text, i, e, cand) == Ok(r)
    ensures forall c, s: nat :: i <= s <= e && SpanYields(data, text, s, e, c) ==> c in r
    ensures forall c :: c in r ==> c in cand || exists s: nat :: i <= s <= e && SpanYields(data, text, s, e, c)
    decreases e + 1 - i
  {
    if i <= e {
      var judged := Judge(RunLocator(data, i, e), text).value;
      var more := cand + Kept(judged);
      assert Starts(data, text, i, e, cand) == Starts(data, text, i + 1, e, more);
      StartsSpec(data, text, i + 1, e, more, r);
      forall c, s: nat | i <= s <= e && SpanYields(data, text, s, e, c)
        ensures c in r
      {
        if s == i {
          KeptHolds(judged, c);
          assert c in more;
        }
      }
      forall c | c in r
        ensures c in cand || exists s: nat :: i <= s <= e && SpanYields(data, text, s, e, c)
      {
        KeptHolds(judged, c);
        if c in more && c !in cand {
          assert SpanYields(data, text, i, e, c);
        } else if c !in more {
          var s: nat :| i + 1 <= s <= e && SpanYields(data, text, s, e, c);
          assert i <= s;
        }
      }
    }
  }

  /** The outer loop from `k` on adds one candidate per matching run ending
      at or after `k`, and nothing else; the paragraph being read was opened
      at `p`. */
  lemma {:induction false} PartialSpec(data: seq<OcrText>, text: string, k: nat, p: nat, cand: seq<Locator>, r: seq<Locator>)
    requires 1 <= p <= k <= |data| && Sentinel(data[p - 1])
    requires forall i :: p <= i < k ==> !Sentinel(data[i])
    requires Partial(data, text, k, Some(p), cand) == Ok(r)
    ensures forall c, s: nat, e: nat :: k <= e && RunYields(data, text, s, e, c) ==> c in r
    ensures forall c :: c in r ==> c in cand || exists s: nat, e: nat :: k <= e && RunYields(data, text, s, e, c)
    decreases |data| - k
  {
    if k < |data| {
      if Sentinel(data[k]) {
        assert Partial(data, text, k, Some(p), cand) == Partial(data, text, k + 1, Some(k + 1), cand);
        PartialSpec(data, text, k + 1, k + 1, cand, r);
        PartialSentinelStep(data, text, k, cand, r);
      } else {
        var more := Starts(data, text, p, k, cand).value;
        assert Partial(data, text, k, Some(p), cand) == Partial(data, text, k + 1, Some(p), more);
        assert forall i :: p <= i < k + 1 ==> !Sentinel(data[i]);
        PartialSpec(data, text, k + 1, p, more, r);
        StartsSpec(data, text, p, k, cand, more);
        PartialWordStep(data, text, k, p, cand, more, r);
      }
    }
  }

  /** No run ends at a sentinel. */
  lemma PartialSentinelStep(data: seq<OcrText>, text: string, k: nat, cand: seq<Locator>, r: seq<Locator>)
    requires k < |data| && Sentinel(data[k])
    requires forall c, s: nat, e: nat :: k + 1 <= e && RunYields(data, text, s, e, c) ==> c in r
    requires forall c :: c in r ==> c in cand || exists s: nat, e: nat :: k + 1 <= e && RunYields(data, text, s, e, c)
    ensures forall c, s: nat, e: nat :: k <= e && RunYields(data, text, s, e, c) ==> c in r
    ensures forall c :: c in r ==> c in cand || exists s: nat, e: nat :: k <= e && RunYields(data, text, s, e, c)
  {
    forall c, s: nat, e: nat | k <= e && RunYields(data, text, s, e, c)
      ensures c in r
    {
      assert k + 1 <= e;
    }
    forall c | c in r
      ensures c in cand || exists s: nat, e: nat :: k <= e && RunYields(data, text, s, e, c)
    {
      if c !in cand {
        var s: nat, e: nat :| k + 1 <= e && RunYields(data, text, s, e, c);
        assert k <= e;
      }
    }
  }

  /** At word `k` of the paragraph opened at `p`, the inner loop adds the
      runs ending at `k`, which all start within the paragraph. */
  lemma PartialWordStep(data: seq<OcrText>, text: string, k: nat, p: nat, cand: seq<Locator>, more: seq<Locator>, r: seq<Locator>)
    requires 1 <= p <= k < |data| && Sentinel(data[p - 1])
    requires forall i :: p <= i < k + 1 ==> !Sentinel(data[i])
    requires forall c, s: nat :: p <= s <= k && SpanYields(data, text, s, k, c) ==> c in more
    requires forall c :: c in more ==> c in cand || exists s: nat :: p <= s <= k && SpanYields(data, text, s, k, c)
    requires forall c :: c in more ==> c in r
    requires forall c, s: nat, e: nat :: k + 1 <= e && RunYields(data, text, s, e, c) ==> c in r
    requires forall c :: c in r ==> c in more || exists s: nat, e: nat :: k + 1 <= e && RunYields(data, text, s, e, c)
    ensures forall c, s: nat, e: nat :: k <= e && RunYields(data, text, s, e, c) ==> c in r
    ensures forall c :: c in r ==> c in cand || exists s: nat, e: nat :: k <= e && RunYields(data, text, s, e, c)
  {
    forall c, s: nat, e: nat | k <= e && RunYields(data, text, s, e, c)
      ensures c in r
    {
      if e == k {
        OnlyRun(data, p, k, s);
        assert c in more;
      }
    }
    forall c | c in r
      ensures c in cand || exists s: nat, e: nat :: k <= e && RunYields(data, text, s, e, c)
    {
      if c !in cand {
        if c in more {
          var s: nat :| p <= s <= k && SpanYields(data, text, s, k, c);
          assert RunYields(data, text, s, k, c);
        } else {
          var s: nat, e: nat :| k + 1 <= e && RunYields(data, text, s, e, c);
          assert k <= e;
        }
      }
    }
  }

  /** A run ending at `k` starts no earlier than the paragraph opened at
      `p`. */
  lemma OnlyRun(data: seq<OcrText>, p: nat, k: nat, s: nat)
    requires 1 <= p <= k < |data| && Sentinel(data[p - 1])
    requires WordRun(data, s, k)
    ensures p <= s
  {
    assert Sentinel(data[p - 1]);
  }

  /** `_find_texts_para_partial` fails when the first record is a word: the
      paragraph start is read before any sentinel set it. */
  lemma FindTextsParaPartialNeedsSentinel(data: seq<OcrText>, text: string)
    requires data != [] && !Sentinel(data[0])
    ensures FindTextsParaPartial(data, text) == Err(UnboundLocal("i_para_start"))
  {
  }

  /** Otherwise its candidates are exactly the matching runs of words
      within one paragraph, each with the text, box and length-weighted
      confidence of its words, the confidence then replaced by the match;
      most confident first. */
  lemma FindTextsParaPartialSpec(data: seq<OcrText>, text: string)
    requires data == [] || Sentinel(data[0])
    requires FindTextsParaPartial(data, text).Ok?
    ensures Descending(FindTextsParaPartial(data, text).value)
    ensures forall c :: c in FindTextsParaPartial(data, text).value <==> exists s: nat, e: nat :: RunYields(data, text, s, e, c)
  {
    var cand := Partial(data, text, 0, None, []).value;
    if data != [] {
      assert Partial(data, text, 0, None, []) == Partial(data, text, 1, Some(1), []);
      PartialSpec(data, text, 1, 1, [], cand);
    }
    SortDescending(cand);
    SortKeepsMembers(cand);
    forall c
      ensures c in SortByConfidence(cand) <==> exists s: nat, e: nat :: RunYields(data, text, s, e, c)
    {
      if exists s: nat, e: nat :: RunYields(data, text, s, e, c) {
        var s: nat, e: nat :| RunYields(data, text, s, e, c);
        assert 1 <= e;
      }
    }
  }

  /** What a candidate of `_find_texts_para_partial` is made of: the joined
      text and united box of its run, a match at or above the threshold of
      the run's length-weighted confidence. */
  lemma RunCandidate(data: seq<OcrText>, text: string, s: nat, e: nat, c: Locator)
    requires RunYields(data, text, s, e, c)
    ensures c.text == SpanText(data[s..e + 1]) && c.location == SpanBox(data[s..e + 1])
    ensures c.confidence == ConfOcrText(c.text, RunLocator(data, s, e).confidence, text).value
    ensures c.confidence >= ConfidenceThreshold
  {
    AccumulateSpans(data, s, e + 1);
  }
}
