/** What the candidates of `_find_texts_word` and `_find_texts_char` are:
    chains of records, read in order, each record standing for the units of
    one edge and matching its token at or above the threshold, the chain
    leading from the empty prefix to the whole text. The candidate's text
    and location are those of the chain's records, joined and united as
    the programs build them, and its confidence lies in `(0, 1]`.

    The theory holds for calibrated records (Tesseract reports confidences
    in `[0, 1]` once `_set` has divided them by 100; page, block, paragraph
    and line rows carry -1) and for sound maths. */
module Chains {
  import opened Outcomes
  import opened Geometry
  import opened Records
  import opened Text
  import opened Scoring
  import opened Ranking
  import opened Alignment

  /** One link of a chain: the record `data[record]` taken along `edge`. */
  datatype Link = Link(edge: Edge, record: nat)

  /** Record `ocr` may stand for the token of `e`: it is a word row and
      matches the token at or above the threshold. */
  predicate Accepts(u: Units, e: Edge, ocr: OcrText)
    requires e.from < e.to <= Count(u)
  {
    && ocr.confidence >= 0.0
    && ConfOcrText(ocr.text, ocr.confidence, Token(u, e)).Ok?
    && ConfOcrText(ocr.text, ocr.confidence, Token(u, e)).value >= ConfidenceThreshold
  }

  /** `path` leads from slot 0 to `slot` along `edges`, through records
      before `upto`, each later than the one before and accepting the token
      of its edge. Read from the end, as the program builds it. */
  predicate Spells(u: Units, edges: seq<Edge>, data: seq<OcrText>, path: seq<Link>, slot: nat, upto: nat)
    decreases |path|
  {
    if path == [] then slot == 0
    else
      var l := path[|path| - 1];
      && l.edge in edges
      && l.edge.to == slot
      && l.edge.from < l.edge.to <= Count(u)
      && l.record < upto && l.record < |data|
      && Accepts(u, l.edge, data[l.record])
      && Spells(u, edges, data, path[..|path| - 1], l.edge.from, l.record)
  }

  /** Link `l` is an edge of the program whose record accepts its token. */
  predicate LinkOk(u: Units, edges: seq<Edge>, data: seq<OcrText>, l: Link) {
    && l.edge in edges
    && l.edge.from < l.edge.to <= Count(u)
    && l.record < |data|
    && Accepts(u, l.edge, data[l.record])
  }

  /** The shape of a chain: the first link leaves slot 0, each next one
      leaves where the one before arrived, on a later record, the last
      arrives at `slot`, and every record is before `upto`. */
  ghost predicate Linked(path: seq<Link>, slot: nat, upto: nat) {
    && (path == [] ==> slot == 0)
    && (path != [] ==> path[0].edge.from == 0 && path[|path| - 1].edge.to == slot)
    && (forall j :: 0 <= j < |path| ==> path[j].record < upto)
    && (forall i, j :: 0 <= i < j < |path| && j == i + 1 ==>
          path[i].edge.to == path[j].edge.from && path[i].record < path[j].record)
  }

  /** Every link is an edge of the program whose record accepts its token. */
  predicate LinksOk(u: Units, edges: seq<Edge>, data: seq<OcrText>, path: seq<Link>) {
    forall j :: 0 <= j < |path| ==> LinkOk(u, edges, data, path[j])
  }

  /** The same chains, stated link by link. */
  ghost predicate Chain(u: Units, edges: seq<Edge>, data: seq<OcrText>, path: seq<Link>, slot: nat, upto: nat) {
    Linked(path, slot, upto) && LinksOk(u, edges, data, path)
  }

  /** The recursive and the link-by-link reading agree. */
  lemma SpellsIsChain(u: Units, edges: seq<Edge>, data: seq<OcrText>, path: seq<Link>, slot: nat, upto: nat)
    ensures Spells(u, edges, data, path, slot, upto) <==> Chain(u, edges, data, path, slot, upto)
  {
    if Spells(u, edges, data, path, slot, upto) {
      SpellsChain(u, edges, data, path, slot, upto);
    }
    if Chain(u, edges, data, path, slot, upto) {
      ChainSpells(u, edges, data, path, slot, upto);
    }
  }

  lemma {:induction false} SpellsChain(u: Units, edges: seq<Edge>, data: seq<OcrText>, path: seq<Link>, slot: nat, upto: nat)
    requires Spells(u, edges, data, path, slot, upto)
    ensures Chain(u, edges, data, path, slot, upto)
    decreases |path|
  {
    if path != [] {
      var init := path[..|path| - 1];
      var l := path[|path| - 1];
      SpellsChain(u, edges, data, init, l.edge.from, l.record);
      assert LinkOk(u, edges, data, l);
      LinkedSnoc(init, l, slot, upto);
      LinksSnoc(u, edges, data, init, l);
      assert path == init + [l];
    }
  }

  lemma {:induction false} ChainSpells(u: Units, edges: seq<Edge>, data: seq<OcrText>, path: seq<Link>, slot: nat, upto: nat)
    requires Chain(u, edges, data, path, slot, upto)
    ensures Spells(u, edges, data, path, slot, upto)
    decreases |path|
  {
    if path != [] {
      var init := path[..|path| - 1];
      var l := path[|path| - 1];
      LinkedInit(path, slot, upto);
      LinksPrefix(u, edges, data, path, init);
      ChainSpells(u, edges, data, init, l.edge.from, l.record);
      assert LinkOk(u, edges, data, path[|path| - 1]);
    }
  }

  /** A chain shape to where a link leaves, through records before the
      link's, extended by that link. */
  lemma LinkedSnoc(init: seq<Link>, l: Link, slot: nat, upto: nat)
    requires Linked(init, l.edge.from, l.record) && l.record < upto && l.edge.to == slot
    ensures Linked(init + [l], slot, upto)
  {
    var path := init + [l];
    forall j | 0 <= j < |path|
      ensures path[j].record < upto
    {
      if j < |init| {
        assert path[j] == init[j];
      }
    }
    forall i, j | 0 <= i < j < |path| && j == i + 1
      ensures path[i].edge.to == path[j].edge.from && path[i].record < path[j].record
    {
      assert path[i] == init[i];
      if j < |init| {
        assert path[j] == init[j];
      }
    }
    if init != [] {
      assert path[0] == init[0];
    }
  }

  lemma LinksSnoc(u: Units, edges: seq<Edge>, data: seq<OcrText>, init: seq<Link>, l: Link)
    requires LinksOk(u, edges, data, init) && LinkOk(u, edges, data, l)
    ensures LinksOk(u, edges, data, init + [l])
  {
    var path := init + [l];
    forall j | 0 <= j < |path|
      ensures LinkOk(u, edges, data, path[j])
    {
      if j < |init| {
        assert path[j] == init[j];
      }
    }
  }

  /** A chain shape without its last link is a shape to where that link
      leaves, through the records before the link's. */
  lemma LinkedInit(path: seq<Link>, slot: nat, upto: nat)
    requires Linked(path, slot, upto) && path != []
    ensures Linked(path[..|path| - 1], path[|path| - 1].edge.from, path[|path| - 1].record)
  {
    var n := |path|;
    var init := path[..n - 1];
    forall j | 0 <= j < n - 1
      ensures init[j].record < path[n - 1].record
    {
      LinkedIncreasing(path, slot, upto, j, n - 1);
    }
    forall i, j | 0 <= i < j < |init| && j == i + 1
      ensures init[i].edge.to == init[j].edge.from && init[i].record < init[j].record
    {
      assert init[i] == path[i] && init[j] == path[j];
    }
    if n > 1 {
      assert init[0] == path[0] && init[n - 2] == path[n - 2];
    }
  }

  lemma LinksPrefix(u: Units, edges: seq<Edge>, data: seq<OcrText>, path: seq<Link>, init: seq<Link>)
    requires LinksOk(u, edges, data, path)
    requires |init| <= |path| && init == path[..|init|]
    ensures LinksOk(u, edges, data, init)
  {
    forall j | 0 <= j < |init|
      ensures LinkOk(u, edges, data, init[j])
    {
      assert init[j] == path[j];
    }
  }

  /** The records of a chain increase along it ... */
  lemma {:induction false} LinkedIncreasing(path: seq<Link>, slot: nat, upto: nat, i: nat, j: nat)
    requires Linked(path, slot, upto)
    requires i < j < |path|
    ensures path[i].record < path[j].record
    decreases j - i
  {
    assert path[i].record < path[i + 1].record;
    if i + 1 < j {
      LinkedIncreasing(path, slot, upto, i + 1, j);
    }
  }

  /** The records a path takes. */
  function Picked(data: seq<OcrText>, path: seq<Link>): (rs: seq<OcrText>)
    ensures |rs| == |path|
    ensures forall j :: 0 <= j < |path| && path[j].record < |data| ==> rs[j] == data[path[j].record]
  {
    seq(|path|, j requires 0 <= j < |path| => if path[j].record < |data| then data[path[j].record] else Blank())
  }

  /** Locator `d` is what some path to `slot` spells: its text and its
      location are those of the path's records. */
  ghost predicate Traced(u: Units, edges: seq<Edge>, data: seq<OcrText>, slot: nat, d: Locator, upto: nat) {
    exists path ::
      && Spells(u, edges, data, path, slot, upto)
      && d.text == SpanText(Picked(data, path))
      && d.location == SpanBox(Picked(data, path))
  }

  /** A located locator of confidence in `(0, 1]` that a path to `slot`
      spells. */
  ghost predicate Reached(u: Units, edges: seq<Edge>, data: seq<OcrText>, slot: nat, d: Locator, upto: nat) {
    d.location.Some? && 0.0 < d.confidence <= 1.0 && Traced(u, edges, data, slot, d, upto)
  }

  /** What a slot may hold after the records before `upto`: slot 0 the
      certain empty prefix, any other a fresh locator or one it reached. */
  ghost predicate SlotOk(u: Units, edges: seq<Edge>, data: seq<OcrText>, slot: nat, d: Locator, upto: nat) {
    if slot == 0 then d == Start()
    else d == FreshLocator() || Reached(u, edges, data, slot, d, upto)
  }

  ghost predicate SlotsOk(u: Units, edges: seq<Edge>, data: seq<OcrText>, slots: seq<Locator>, upto: nat) {
    && |slots| == Count(u) + 1
    && forall s :: 0 <= s < |slots| ==> SlotOk(u, edges, data, s, slots[s], upto)
  }

  /** Every candidate reached the last slot. */
  ghost predicate CandsOk(u: Units, edges: seq<Edge>, data: seq<OcrText>, cand: seq<Locator>, upto: nat) {
    forall j :: 0 <= j < |cand| ==> Reached(u, edges, data, Count(u), cand[j], upto)
  }

  /** Every record's confidence is at most 1. */
  predicate Calibrated(data: seq<OcrText>) {
    forall k :: 0 <= k < |data| ==> data[k].confidence <= 1.0
  }

  // ---------------------------------------------------------------------
  // Extending a chain

  /** A path that spells up to `upto` also spells up to any later bound. */
  lemma TracedLater(u: Units, edges: seq<Edge>, data: seq<OcrText>, slot: nat, d: Locator, upto: nat, later: nat)
    requires upto <= later && Traced(u, edges, data, slot, d, upto)
    ensures Traced(u, edges, data, slot, d, later)
  {
    var path: seq<Link> :| && Spells(u, edges, data, path, slot, upto)
                && d.text == SpanText(Picked(data, path))
                && d.location == SpanBox(Picked(data, path));
    assert Spells(u, edges, data, path, slot, later);
  }

  lemma SlotsLater(u: Units, edges: seq<Edge>, data: seq<OcrText>, slots: seq<Locator>, upto: nat, later: nat)
    requires upto <= later && SlotsOk(u, edges, data, slots, upto)
    ensures SlotsOk(u, edges, data, slots, later)
  {
    forall s | 0 <= s < |slots| && s != 0 && slots[s] != FreshLocator()
      ensures Traced(u, edges, data, s, slots[s], later)
    {
      TracedLater(u, edges, data, s, slots[s], upto, later);
    }
  }

  lemma CandsLater(u: Units, edges: seq<Edge>, data: seq<OcrText>, cand: seq<Locator>, upto: nat, later: nat)
    requires upto <= later && CandsOk(u, edges, data, cand, upto)
    ensures CandsOk(u, edges, data, cand, later)
  {
    forall j | 0 <= j < |cand|
      ensures Traced(u, edges, data, Count(u), cand[j], later)
    {
      TracedLater(u, edges, data, Count(u), cand[j], upto, later);
    }
  }

  /** Extending the certain empty prefix by record `k` along an edge from
      slot 0 gives the one-link path. */
  lemma TracedFirst(u: Units, edges: seq<Edge>, data: seq<OcrText>, e: Edge, k: nat, conf: real)
    requires e in edges && 0 == e.from < e.to <= Count(u)
    requires k < |data| && Accepts(u, e, data[k])
    ensures Traced(u, edges, data, e.to, NewTextLocator(Start(), data[k], conf), k + 1)
  {
    var path := [Link(e, k)];
    var d := NewTextLocator(Start(), data[k], conf);
    assert path[..0] == [];
    assert Spells(u, edges, data, path, e.to, k + 1);
    var rs := Picked(data, path);
    assert rs[..0] == [] && rs[0] == data[k];
    assert d.text == SpanText(rs);
    assert d.location == SpanBox(rs);
  }

  /** Extending a locator some path spells by record `k` along an edge from
      the path's slot gives that path with one more link. */
  lemma TracedNext(u: Units, edges: seq<Edge>, data: seq<OcrText>, t: Locator, e: Edge, k: nat, conf: real)
    requires e in edges && e.from < e.to <= Count(u)
    requires k < |data| && Accepts(u, e, data[k])
    requires Traced(u, edges, data, e.from, t, k)
    ensures Traced(u, edges, data, e.to, NewTextLocator(t, data[k], conf), k + 1)
  {
    var path: seq<Link> :| && Spells(u, edges, data, path, e.from, k)
                && t.text == SpanText(Picked(data, path))
                && t.location == SpanBox(Picked(data, path));
    SpellsSnoc(u, edges, data, path, e, k);
    SpanSnoc(data, path, Link(e, k), t, conf);
  }

  lemma SpellsSnoc(u: Units, edges: seq<Edge>, data: seq<OcrText>, path: seq<Link>, e: Edge, k: nat)
    requires e in edges && e.from < e.to <= Count(u)
    requires k < |data| && Accepts(u, e, data[k])
    requires Spells(u, edges, data, path, e.from, k)
    ensures Spells(u, edges, data, path + [Link(e, k)], e.to, k + 1)
  {
    var longer := path + [Link(e, k)];
    assert longer[..|path|] == path;
  }

  /** Extending the locator of a path by the record of one more link gives
      the text and the location of the longer path. */
  lemma SpanSnoc(data: seq<OcrText>, path: seq<Link>, l: Link, t: Locator, conf: real)
    requires l.record < |data|
    requires t.text == SpanText(Picked(data, path)) && t.location == SpanBox(Picked(data, path))
    ensures NewTextLocator(t, data[l.record], conf).text == SpanText(Picked(data, path + [l]))
    ensures NewTextLocator(t, data[l.record], conf).location == SpanBox(Picked(data, path + [l]))
  {
    var rs := Picked(data, path + [l]);
    assert rs[..|path|] == Picked(data, path);
    assert rs[|path|] == data[l.record];
  }

  lemma ProductBetween(a: real, b: real)
    requires 0.0 <= a <= 1.0 && 0.0 <= b <= 1.0
    ensures 0.0 <= Product(a, b) <= 1.0
  {
    ScaleMonotone(a, b, 1.0);
    ScaleMonotone(a, 0.0, b);
    assert a * 1.0 == a && a * 0.0 == 0.0;
    assert 0.0 <= a * b <= a;
    assert Product(a, b) == a * b;
  }

  lemma ProductOfZero(b: real)
    ensures Product(0.0, b) == 0.0
  {
  }

  // ---------------------------------------------------------------------
  // The program keeps the invariant

  /** Extending a slot's locator by an accepted record, when that gives a
      positive confidence, reaches the edge's target slot. */
  lemma ExtensionReached(m: Maths, u: Units, edges: seq<Edge>, data: seq<OcrText>, k: nat, t: Locator, e: Edge, conf: real)
    requires Sound(m) && e in edges && e.from < e.to <= Count(u)
    requires k < |data| && data[k].confidence <= 1.0 && Accepts(u, e, data[k])
    requires conf == ConfOcrText(data[k].text, data[k].confidence, Token(u, e)).value
    requires SlotOk(u, edges, data, e.from, t, k)
    requires ConfNextWord(m, t, data[k], conf).Ok? && ConfNextWord(m, t, data[k], conf).value > 0.0
    ensures Reached(u, edges, data, e.to, NewTextLocator(t, data[k], ConfNextWord(m, t, data[k], conf).value), k + 1)
  {
    var ocr := data[k];
    var extended := ConfNextWord(m, t, ocr, conf).value;
    ConfOcrTextBounds(ocr.text, ocr.confidence, Token(u, e));
    ProductBetween(t.confidence, conf);
    ConfNextWordAtMostUndecayed(m, t, ocr, conf);
    if e.from == 0 {
      TracedFirst(u, edges, data, e, k, extended);
    } else {
      assert t.confidence != 0.0 by {
        if t.confidence == 0.0 {
          ProductOfZero(conf);
        }
      }
      TracedNext(u, edges, data, t, e, k, extended);
    }
  }

  /** Storing a reached locator in a slot other than the first keeps the
      slots' invariant. */
  lemma SlotsUpdate(u: Units, edges: seq<Edge>, data: seq<OcrText>, slots: seq<Locator>, s: nat, d: Locator, upto: nat)
    requires SlotsOk(u, edges, data, slots, upto)
    requires 0 < s < |slots| && Reached(u, edges, data, s, d, upto)
    ensures SlotsOk(u, edges, data, slots[s := d], upto)
  {
  }

  lemma CandsSnoc(u: Units, edges: seq<Edge>, data: seq<OcrText>, cand: seq<Locator>, d: Locator, upto: nat)
    requires CandsOk(u, edges, data, cand, upto) && Reached(u, edges, data, Count(u), d, upto)
    ensures CandsOk(u, edges, data, cand + [d], upto)
  {
    var found := cand + [d];
    assert forall j :: 0 <= j < |cand| ==> found[j] == cand[j];
    assert found[|cand|] == d;
  }

  /** The relaxation step that stores an extension. */
  lemma RelaxStores(m: Maths, u: Units, edges: seq<Edge>, dp0: seq<Locator>, ocr: OcrText, j: nat, dp1: seq<Locator>, cand: seq<Locator>)
    requires ValidEdges(edges, Count(u)) && |dp0| == |dp1| == Count(u) + 1 && j < |edges|
    requires edges[j].from < edges[j].to <= Count(u)
    requires ConfOcrText(ocr.text, ocr.confidence, Token(u, edges[j])).Ok?
    requires ConfOcrText(ocr.text, ocr.confidence, Token(u, edges[j])).value >= ConfidenceThreshold
    requires ConfNextWord(m, dp0[edges[j].from], ocr, ConfOcrText(ocr.text, ocr.confidence, Token(u, edges[j])).value).Ok?
    requires ConfNextWord(m, dp0[edges[j].from], ocr, ConfOcrText(ocr.text, ocr.confidence, Token(u, edges[j])).value).value
             > dp1[edges[j].to].confidence
    ensures
      var e := edges[j];
      var d := NewTextLocator(dp0[e.from], ocr,
                              ConfNextWord(m, dp0[e.from], ocr, ConfOcrText(ocr.text, ocr.confidence, Token(u, e)).value).value);
      Relax(m, u, edges, dp0, ocr, j, dp1, cand)
      == Relax(m, u, edges, dp0, ocr, j + 1, dp1[e.to := d], if e.to == Count(u) then cand + [d] else cand)
  {
  }

  /** The relaxation loop over record `k` only stores, and only collects,
      extensions of the slots of `dp0` that the record's chain spells. */
  lemma {:induction false} RelaxKeeps(m: Maths, u: Units, edges: seq<Edge>, data: seq<OcrText>, k: nat,
                                      dp0: seq<Locator>, j: nat, dp1: seq<Locator>, cand: seq<Locator>,
                                      r: (seq<Locator>, seq<Locator>))
    requires Sound(m) && ValidEdges(edges, Count(u)) && |dp0| == |dp1| == Count(u) + 1 && j <= |edges|
    requires k < |data| && 0.0 <= data[k].confidence <= 1.0
    requires SlotsOk(u, edges, data, dp0, k) && SlotsOk(u, edges, data, dp1, k + 1)
    requires CandsOk(u, edges, data, cand, k + 1)
    requires Relax(m, u, edges, dp0, data[k], j, dp1, cand) == Ok(r)
    ensures SlotsOk(u, edges, data, r.0, k + 1)
    ensures CandsOk(u, edges, data, r.1, k + 1)
    decreases |edges| - j, 1
  {
    if j < |edges| {
      var ocr := data[k];
      var e := edges[j];
      assert e.from < e.to <= Count(u);
      var conf := ConfOcrText(ocr.text, ocr.confidence, Token(u, e)).value;
      if conf >= ConfidenceThreshold && ConfNextWord(m, dp0[e.from], ocr, conf).value > dp1[e.to].confidence {
        RelaxKeepsStore(m, u, edges, data, k, dp0, j, dp1, cand, r);
      } else {
        assert Relax(m, u, edges, dp0, ocr, j, dp1, cand) == Relax(m, u, edges, dp0, ocr, j + 1, dp1, cand);
        RelaxKeeps(m, u, edges, data, k, dp0, j + 1, dp1, cand, r);
      }
    }
  }

  /** The relaxation along an edge that stores its extension. */
  lemma {:induction false} RelaxKeepsStore(m: Maths, u: Units, edges: seq<Edge>, data: seq<OcrText>, k: nat,
                                           dp0: seq<Locator>, j: nat, dp1: seq<Locator>, cand: seq<Locator>,
                                           r: (seq<Locator>, seq<Locator>))
    requires Sound(m) && ValidEdges(edges, Count(u)) && |dp0| == |dp1| == Count(u) + 1 && j < |edges|
    requires k < |data| && 0.0 <= data[k].confidence <= 1.0
    requires SlotsOk(u, edges, data, dp0, k) && SlotsOk(u, edges, data, dp1, k + 1)
    requires CandsOk(u, edges, data, cand, k + 1)
    requires Relax(m, u, edges, dp0, data[k], j, dp1, cand) == Ok(r)
    ensures SlotsOk(u, edges, data, r.0, k + 1)
    ensures CandsOk(u, edges, data, r.1, k + 1)
    requires edges[j].from < edges[j].to <= Count(u)
    requires ConfOcrText(data[k].text, data[k].confidence, Token(u, edges[j])).value >= ConfidenceThreshold
    requires ConfNextWord(m, dp0[edges[j].from], data[k], ConfOcrText(data[k].text, data[k].confidence, Token(u, edges[j])).value).value
             > dp1[edges[j].to].confidence
    decreases |edges| - j, 0
  {
    var ocr := data[k];
    var e := edges[j];
    var d := NewTextLocator(dp0[e.from], ocr, ConfNextWord(m, dp0[e.from], ocr, ConfOcrText(ocr.text, ocr.confidence, Token(u, e)).value).value);
    StoreKeeps(m, u, edges, data, k, dp0, j, dp1, cand);
    RelaxStores(m, u, edges, dp0, ocr, j, dp1, cand);
    RelaxKeeps(m, u, edges, data, k, dp0, j + 1, dp1[e.to := d], if e.to == Count(u) then cand + [d] else cand, r);
  }

  /** Storing the extension keeps the slots and the candidates spelled. */
  lemma StoreKeeps(m: Maths, u: Units, edges: seq<Edge>, data: seq<OcrText>, k: nat,
                   dp0: seq<Locator>, j: nat, dp1: seq<Locator>, cand: seq<Locator>)
    requires Sound(m) && ValidEdges(edges, Count(u)) && |dp0| == |dp1| == Count(u) + 1 && j < |edges|
    requires k < |data| && 0.0 <= data[k].confidence <= 1.0
    requires SlotsOk(u, edges, data, dp0, k) && SlotsOk(u, edges, data, dp1, k + 1)
    requires CandsOk(u, edges, data, cand, k + 1)
    requires edges[j].from < edges[j].to <= Count(u)
    requires ConfOcrText(data[k].text, data[k].confidence, Token(u, edges[j])).Ok?
    requires ConfOcrText(data[k].text, data[k].confidence, Token(u, edges[j])).value >= ConfidenceThreshold
    requires ConfNextWord(m, dp0[edges[j].from], data[k], ConfOcrText(data[k].text, data[k].confidence, Token(u, edges[j])).value).Ok?
    requires ConfNextWord(m, dp0[edges[j].from], data[k], ConfOcrText(data[k].text, data[k].confidence, Token(u, edges[j])).value).value
             > dp1[edges[j].to].confidence
    ensures
      var e := edges[j];
      var d := NewTextLocator(dp0[e.from], data[k],
                              ConfNextWord(m, dp0[e.from], data[k], ConfOcrText(data[k].text, data[k].confidence, Token(u, e)).value).value);
      && SlotsOk(u, edges, data, dp1[e.to := d], k + 1)
      && CandsOk(u, edges, data, if e.to == Count(u) then cand + [d] else cand, k + 1)
  {
    var e := edges[j];
    var d := NewTextLocator(dp0[e.from], data[k],
                            ConfNextWord(m, dp0[e.from], data[k], ConfOcrText(data[k].text, data[k].confidence, Token(u, e)).value).value);
    StoreReached(m, u, edges, data, k, dp0, j, dp1, cand);
    SlotsUpdate(u, edges, data, dp1, e.to, d, k + 1);
    if e.to == Count(u) {
      CandsSnoc(u, edges, data, cand, d, k + 1);
    }
  }

  /** The extension stored along edge `j` spells the text up to its slot. */
  lemma StoreReached(m: Maths, u: Units, edges: seq<Edge>, data: seq<OcrText>, k: nat,
                     dp0: seq<Locator>, j: nat, dp1: seq<Locator>, cand: seq<Locator>)
    requires Sound(m) && ValidEdges(edges, Count(u)) && |dp0| == |dp1| == Count(u) + 1 && j < |edges|
    requires k < |data| && 0.0 <= data[k].confidence <= 1.0
    requires SlotsOk(u, edges, data, dp0, k) && SlotsOk(u, edges, data, dp1, k + 1)
    requires CandsOk(u, edges, data, cand, k + 1)
    requires edges[j].from < edges[j].to <= Count(u)
    requires ConfOcrText(data[k].text, data[k].confidence, Token(u, edges[j])).Ok?
    requires ConfOcrText(data[k].text, data[k].confidence, Token(u, edges[j])).value >= ConfidenceThreshold
    requires ConfNextWord(m, dp0[edges[j].from], data[k], ConfOcrText(data[k].text, data[k].confidence, Token(u, edges[j])).value).Ok?
    requires ConfNextWord(m, dp0[edges[j].from], data[k], ConfOcrText(data[k].text, data[k].confidence, Token(u, edges[j])).value).value
             > dp1[edges[j].to].confidence
    ensures
      var e := edges[j];
      Reached(u, edges, data, e.to, NewTextLocator(dp0[e.from], data[k],
                ConfNextWord(m, dp0[e.from], data[k], ConfOcrText(data[k].text, data[k].confidence, Token(u, e)).value).value), k + 1)
  {
    var ocr := data[k];
    var e := edges[j];
    var conf := ConfOcrText(ocr.text, ocr.confidence, Token(u, e)).value;
    var t := dp0[e.from];
    var extended := ConfNextWord(m, t, ocr, conf).value;
    assert SlotOk(u, edges, data, e.to, dp1[e.to], k + 1);
    assert dp1[e.to].confidence >= 0.0;
    assert SlotOk(u, edges, data, e.from, t, k);
    assert Accepts(u, e, ocr);
    assert extended > 0.0;
    ExtensionReached(m, u, edges, data, k, t, e, conf);
  }

  // ---------------------------------------------------------------------
  // The merge

  /** Slot `s` of the merge is `dp1`'s exactly when `dp1`'s confidence
      beats `dp0`'s penalised one. */
  lemma {:induction false} MergeChoice(m: Maths, dp0: seq<Locator>, dp1: seq<Locator>, current: Rect, i: nat, s: nat)
    requires |dp0| == |dp1| && i <= s < |dp0|
    requires Merge(m, dp0, dp1, current, i).Ok?
    ensures Replaces(m, dp0[s], dp1[s], current).Ok?
    ensures Merge(m, dp0, dp1, current, i).value[s]
            == if Replaces(m, dp0[s], dp1[s], current).value then dp1[s] else dp0[s]
    decreases |dp0| - i
  {
    var replace := Replaces(m, dp0[i], dp1[i], current).value;
    var next := if replace then dp0[i := dp1[i]] else dp0;
    assert Merge(m, dp0, dp1, current, i) == Merge(m, next, dp1, current, i + 1);
    if s > i {
      MergeChoice(m, next, dp1, current, i + 1, s);
      assert next[s] == dp0[s];
    }
  }

  /** The merge never loses confidence against the new states, and keeps a
      new state that is strictly more confident than the stored one; when
      the stored state is near the record (or has no box or no text) it
      keeps the more confident of the two, the stored one on a tie. */
  lemma MergeKeepsBetter(m: Maths, dp0: seq<Locator>, dp1: seq<Locator>, current: Rect, s: nat)
    requires Sound(m) && |dp0| == |dp1| && s < |dp0| && dp0[s].confidence >= 0.0
    requires Merge(m, dp0, dp1, current, 0).Ok?
    ensures Merge(m, dp0, dp1, current, 0).value[s].confidence >= dp1[s].confidence
    ensures dp1[s].confidence > dp0[s].confidence ==> Merge(m, dp0, dp1, current, 0).value[s] == dp1[s]
    ensures ConfOldWord(m, dp0[s], current) == Ok(dp0[s].confidence) ==>
      Merge(m, dp0, dp1, current, 0).value[s] == if dp1[s].confidence > dp0[s].confidence then dp1[s] else dp0[s]
  {
    MergeChoice(m, dp0, dp1, current, 0, s);
    ConfOldWordAtMostStored(m, dp0[s], current);
  }

  /** `init_dp()` holds nothing reached yet. */
  lemma InitDpOk(u: Units, edges: seq<Edge>, data: seq<OcrText>, upto: nat)
    ensures SlotsOk(u, edges, data, InitDp(Count(u)), upto)
  {
  }

  /** One record keeps the invariant. */
  lemma StepKeeps(m: Maths, u: Units, edges: seq<Edge>, data: seq<OcrText>, k: nat, state: Search)
    requires Sound(m) && ValidEdges(edges, Count(u)) && |state.slots| == Count(u) + 1
    requires k < |data| && data[k].confidence <= 1.0
    requires SlotsOk(u, edges, data, state.slots, k) && CandsOk(u, edges, data, state.cand, k)
    requires Step(m, u, edges, state, data[k]).Ok?
    ensures SlotsOk(u, edges, data, Step(m, u, edges, state, data[k]).value.slots, k + 1)
    ensures CandsOk(u, edges, data, Step(m, u, edges, state, data[k]).value.cand, k + 1)
  {
    var ocr := data[k];
    SlotsLater(u, edges, data, state.slots, k, k + 1);
    CandsLater(u, edges, data, state.cand, k, k + 1);
    if ocr.confidence >= 0.0 {
      var dp1 := InitDp(Count(u));
      InitDpOk(u, edges, data, k + 1);
      var relaxed := Relax(m, u, edges, state.slots, ocr, 0, dp1, state.cand).value;
      RelaxKeeps(m, u, edges, data, k, state.slots, 0, dp1, state.cand, relaxed);
      var merged := Merge(m, state.slots, relaxed.0, ocr.location, 0).value;
      assert forall s :: 0 <= s < |merged| ==> merged[s] == state.slots[s] || merged[s] == relaxed.0[s];
    }
  }

  /** The loop over the records keeps the invariant. */
  lemma {:induction false} RunKeeps(m: Maths, u: Units, edges: seq<Edge>, data: seq<OcrText>, k: nat, state: Search)
    requires Sound(m) && ValidEdges(edges, Count(u)) && |state.slots| == Count(u) + 1
    requires k <= |data| && Calibrated(data)
    requires SlotsOk(u, edges, data, state.slots, k) && CandsOk(u, edges, data, state.cand, k)
    requires Run(m, u, edges, data, k, state).Ok?
    ensures CandsOk(u, edges, data, Run(m, u, edges, data, k, state).value.cand, |data|)
    decreases |data| - k
  {
    if k < |data| {
      StepKeeps(m, u, edges, data, k, state);
      var next := Step(m, u, edges, state, data[k]).value;
      RunKeeps(m, u, edges, data, k + 1, next);
    }
  }

  /** Every candidate of the dynamic program over `u` is a located chain of
      accepted records spelling all units, with a confidence in `(0, 1]`;
      the candidates come most confident first. */
  lemma AlignSound(m: Maths, u: Units, data: seq<OcrText>)
    requires Sound(m) && Calibrated(data)
    requires Align(m, u, data).Ok?
    ensures Descending(Align(m, u, data).value)
    ensures forall c :: c in Align(m, u, data).value ==> Reached(u, EdgesOf(u), data, Count(u), c, |data|)
  {
    var edges := EdgesOf(u);
    var init := Search(InitDp(Count(u)), []);
    InitDpOk(u, edges, data, 0);
    RunKeeps(m, u, edges, data, 0, init);
    var cand := Run(m, u, edges, data, 0, init).value.cand;
    SortDescending(cand);
    SortPermutes(cand);
    forall c | c in Align(m, u, data).value
      ensures Reached(u, edges, data, Count(u), c, |data|)
    {
      assert c in multiset(SortByConfidence(cand));
      assert c in cand;
    }
  }

  // ---------------------------------------------------------------------
  // The two programs

  /** A chain of `_find_texts_word`: word `j` of the text is matched, at or
      above the threshold, by the `j`-th record of the chain, and the
      records come in reading order. */
  ghost predicate WordChain(words: seq<string>, data: seq<OcrText>, path: seq<Link>) {
    && |path| == |words|
    && (forall j :: 0 <= j < |path| ==>
          && path[j].edge == Edge(j, j + 1)
          && path[j].record < |data|
          && Accepts(Words(words), Edge(j, j + 1), data[path[j].record]))
    && (forall i, j :: 0 <= i < j < |path| ==> path[i].record < path[j].record)
  }

  /** A path of the word program to slot `slot` takes exactly the first
      `slot` words, one per link. */
  lemma {:induction false} WordSpells(words: seq<string>, data: seq<OcrText>, path: seq<Link>, slot: nat, upto: nat)
    requires Spells(Words(words), WordEdges(|words|), data, path, slot, upto)
    ensures |path| == slot
    ensures forall j :: 0 <= j < |path| ==> path[j].edge == Edge(j, j + 1)
    decreases |path|
  {
    if path != [] {
      var n := |path|;
      var l := path[n - 1];
      var es := WordEdges(|words|);
      var i :| 0 <= i < |es| && es[i] == l.edge;
      WordSpells(words, data, path[..n - 1], l.edge.from, l.record);
      assert forall j :: 0 <= j < n - 1 ==> path[..n - 1][j] == path[j];
    }
  }

  /** Every candidate `_find_texts_word` returns spells the words of
      `text.split(' ')`, one record per word in reading order, with the
      records' texts and boxes; the list is most confident first. */
  lemma FindTextsWordSound(m: Maths, data: seq<OcrText>, text: string, c: Locator)
    requires Sound(m) && Calibrated(data)
    requires FindTextsWord(m, data, text).Ok? && c in FindTextsWord(m, data, text).value
    ensures Descending(FindTextsWord(m, data, text).value)
    ensures c.location.Some? && 0.0 < c.confidence <= 1.0
    ensures exists path ::
      && WordChain(Split(text, ' '), data, path)
      && c.text == SpanText(Picked(data, path))
      && c.location == SpanBox(Picked(data, path))
  {
    var words := Split(text, ' ');
    var u := Words(words);
    AlignSound(m, u, data);
    var path: seq<Link> :| && Spells(u, WordEdges(|words|), data, path, |words|, |data|)
                && c.text == SpanText(Picked(data, path))
                && c.location == SpanBox(Picked(data, path));
    WordSpells(words, data, path, |words|, |data|);
    SpellsIsChain(u, WordEdges(|words|), data, path, |words|, |data|);
    forall i: nat, j: nat | i < j < |path|
      ensures path[i].record < path[j].record
    {
      LinkedIncreasing(path, |words|, |data|, i, j);
    }
    assert WordChain(words, data, path);
  }

  /** A chain of `_find_texts_char`: consecutive spans of the text from its
      start to its end, each matched, at or above the threshold, by a
      record whose text is compared with the stripped span, the records in
      reading order. */
  ghost predicate CharChain(text: string, data: seq<OcrText>, path: seq<Link>) {
    && path != []
    && path[0].edge.from == 0
    && path[|path| - 1].edge.to == |text|
    && (forall j :: 0 <= j < |path| ==>
          && path[j].edge.from < path[j].edge.to <= |text|
          && path[j].record < |data|
          && Accepts(Chars(text), path[j].edge, data[path[j].record]))
    && (forall j :: 0 <= j < |path| - 1 ==>
          path[j].edge.to == path[j + 1].edge.from && path[j].record < path[j + 1].record)
  }

  /** Every candidate `_find_texts_char` returns spells the text as a chain
      of consecutive spans, one record per span in reading order, with the
      records' texts and boxes; the list is most confident first. */
  lemma FindTextsCharSound(m: Maths, data: seq<OcrText>, text: string, c: Locator)
    requires Sound(m) && Calibrated(data)
    requires FindTextsChar(m, data, text).Ok? && c in FindTextsChar(m, data, text).value
    ensures Descending(FindTextsChar(m, data, text).value)
    ensures c.location.Some? && 0.0 < c.confidence <= 1.0
    ensures exists path ::
      && CharChain(text, data, path)
      && c.text == SpanText(Picked(data, path))
      && c.location == SpanBox(Picked(data, path))
  {
    var u := Chars(text);
    AlignSound(m, u, data);
    var path: seq<Link> :| && Spells(u, CharEdges(|text|), data, path, |text|, |data|)
                && c.text == SpanText(Picked(data, path))
                && c.location == SpanBox(Picked(data, path));
    SpellsIsChain(u, CharEdges(|text|), data, path, |text|, |data|);
    assert Picked(data, path) != [];
    assert CharChain(text, data, path);
  }

  // ---------------------------------------------------------------------
  // An exact word is found

  /** Once record `k` matching the single word `w` exactly has been read,
      the word program has a candidate. */
  lemma {:induction false} RunFindsExactWord(m: Maths, w: string, data: seq<OcrText>, i: nat, k: nat, state: Search)
    requires |state.slots| == 2 && state.slots[0] == Start()
    requires i <= k < |data| && data[k].text == w && data[k].confidence >= ConfidenceThreshold
    requires Run(m, Words([w]), WordEdges(1), data, i, state).Ok?
    ensures Run(m, Words([w]), WordEdges(1), data, i, state).value.cand != []
    decreases k - i
  {
    var u := Words([w]);
    var edges := WordEdges(1);
    var next := Step(m, u, edges, state, data[i]).value;
    if i < k {
      RunFindsExactWord(m, w, data, i + 1, k, next);
    } else {
      var ocr := data[k];
      var e := Edge(0, 1);
      assert edges == [e];
      assert ConfOcrText(ocr.text, ocr.confidence, Token(u, e)) == Ok(ocr.confidence);
      assert ConfNextWord(m, Start(), ocr, ocr.confidence) == Ok(ocr.confidence);
      var d := NewTextLocator(Start(), ocr, ocr.confidence);
      var dp1 := InitDp(1);
      assert Relax(m, u, edges, state.slots, ocr, 1, dp1[1 := d], state.cand + [d]).Ok?;
      assert next.cand == state.cand + [d];
    }
  }

  /** A text without spaces is found when some record reads exactly that
      text with a confidence at or above the threshold, and nothing in the
      program fails. */
  lemma FindTextsWordFindsExact(m: Maths, data: seq<OcrText>, w: string, k: nat)
    requires ' ' !in w
    requires k < |data| && data[k].text == w && data[k].confidence >= ConfidenceThreshold
    requires FindTextsWord(m, data, w).Ok?
    ensures FindTextsWord(m, data, w).value != []
  {
    SplitField(w, [], ' ');
    assert w + [] == w;
    RunFindsExactWord(m, w, data, 0, k, Search(InitDp(1), []));
  }
}
