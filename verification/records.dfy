/** The Tesseract word records of `untriseptium/backend/tesseract.py`
    (`_Text`, `_Text._set`) and the reading of Tesseract's TSV output in
    `_ocr_subregion`. */
module Records {
  import opened Outcomes
  import opened Geometry
  import opened Text

  /** One TSV row (`_Text`): the hierarchy numbers, the box in pixels, the
      confidence scaled to [0, 1] (negative for rows that are not words) and
      the stripped text. `location` is the box as a rectangle. */
  datatype OcrText = OcrText(
    level: int, pageNum: int, blockNum: int, parNum: int, lineNum: int, wordNum: int,
    left: int, top: int, width: int, height: int,
    confidence: real, text: string, location: Rect)

  /** The fields of a fresh `_Text()`; its location is recomputed once the
      columns have been read, so the one here is never observed. */
  function Blank(): OcrText {
    OcrText(0, 0, 0, 0, 0, 0, 0, 0, 0, 0, 0.0, [], Rect(0, 0, 0, 0))
  }

  /** The columns `_set` gives a meaning to. */
  datatype Column =
    | Level | PageNum | BlockNum | ParNum | LineNum | WordNum
    | Left | Top | Width | Height | Conf | TextColumn

  /** The header name of each column. */
  function ColumnName(c: Column): string {
    match c
    case Level => "level"
    case PageNum => "page_num"
    case BlockNum => "block_num"
    case ParNum => "par_num"
    case LineNum => "line_num"
    case WordNum => "word_num"
    case Left => "left"
    case Top => "top"
    case Width => "width"
    case Height => "height"
    case Conf => "conf"
    case TextColumn => "text"
  }

  /** The column a header name denotes, `None` for names `_set` ignores. */
  function ColumnOf(name: string): (c: Option<Column>)
    ensures c.Some? ==> ColumnName(c.value) == name
  {
    if name == "level" then Some(Level)
    else if name == "page_num" then Some(PageNum)
    else if name == "block_num" then Some(BlockNum)
    else if name == "par_num" then Some(ParNum)
    else if name == "line_num" then Some(LineNum)
    else if name == "word_num" then Some(WordNum)
    else if name == "left" then Some(Left)
    else if name == "top" then Some(Top)
    else if name == "width" then Some(Width)
    else if name == "height" then Some(Height)
    else if name == "conf" then Some(Conf)
    else if name == "text" then Some(TextColumn)
    else None
  }

  /** Each column's own name denotes it. */
  lemma ColumnOfName(c: Column)
    ensures ColumnOf(ColumnName(c)) == Some(c)
  {
  }

  /** A column's content, as `_set` stores it. */
  datatype Value = IntValue(n: int) | RealValue(x: real) | TextValue(s: string)

  /** How `_set` converts a field of column `c`: `int(...)`, `float(...) / 100`
      or `str.strip()`. */
  function Convert(c: Column, field: string): (v: Option<Value>)
    ensures v.Some? ==> Fits(c, v.value)
  {
    match c
    case Conf => (match ParseFloat(field) case None => None case Some(v) => Some(RealValue(v / 100.0)))
    case TextColumn => Some(TextValue(Strip(field)))
    case _ => (match ParseInt(field) case None => None case Some(n) => Some(IntValue(n)))
  }

  /** The kind of value column `c` holds. */
  predicate Fits(c: Column, v: Value) {
    match c
    case Conf => v.RealValue?
    case TextColumn => v.TextValue?
    case _ => v.IntValue?
  }

  /** The value a record holds for column `c`, with the offset taken back
      off `left` and `top`. */
  function Get(r: OcrText, c: Column, offset: (int, int)): Value {
    match c
    case Level => IntValue(r.level)
    case PageNum => IntValue(r.pageNum)
    case BlockNum => IntValue(r.blockNum)
    case ParNum => IntValue(r.parNum)
    case LineNum => IntValue(r.lineNum)
    case WordNum => IntValue(r.wordNum)
    case Left => IntValue(r.left - offset.0)
    case Top => IntValue(r.top - offset.1)
    case Width => IntValue(r.width)
    case Height => IntValue(r.height)
    case Conf => RealValue(r.confidence)
    case TextColumn => TextValue(r.text)
  }

  /** Stores a converted field; `left` and `top` are shifted by the offset. */
  function Store(r: OcrText, c: Column, v: Value, offset: (int, int)): (u: OcrText)
    ensures Fits(c, v) ==> Get(u, c, offset) == v
    ensures forall d: Column :: d != c ==> Get(u, d, offset) == Get(r, d, offset)
  {
    match (c, v)
    case (Level, IntValue(n)) => r.(level := n)
    case (PageNum, IntValue(n)) => r.(pageNum := n)
    case (BlockNum, IntValue(n)) => r.(blockNum := n)
    case (ParNum, IntValue(n)) => r.(parNum := n)
    case (LineNum, IntValue(n)) => r.(lineNum := n)
    case (WordNum, IntValue(n)) => r.(wordNum := n)
    case (Left, IntValue(n)) => r.(left := n + offset.0)
    case (Top, IntValue(n)) => r.(top := n + offset.1)
    case (Width, IntValue(n)) => r.(width := n)
    case (Height, IntValue(n)) => r.(height := n)
    case (Conf, RealValue(x)) => r.(confidence := x)
    case (TextColumn, TextValue(t)) => r.(text := t)
    case _ => r
  }

  /** A field as `_set` sees it: under a name it ignores, converted to the
      value of its column, or failing to convert (where the source raises). */
  datatype Cell = Ignored | Converted(column: Column, value: Value) | Failed

  /** A conversion of the fields of a column; `_set` uses `Convert`. The
      lemmas about the column loop hold for any conversion. */
  type Conversion = (Column, string) -> Option<Value>

  /** A field fails when its column is known and its text does not convert. */
  predicate FailsUnder(conv: Conversion, name: string, field: string) {
    ColumnOf(name).Some? && conv(ColumnOf(name).value, field).None?
  }

  predicate FieldFails(name: string, field: string) {
    FailsUnder(Convert, name, field)
  }

  /** The cell of the field `field` under the header name `name`. */
  function ReadCell(conv: Conversion, name: string, field: string): (cell: Cell)
    ensures cell.Ignored? <==> ColumnOf(name).None?
    ensures cell.Failed? <==> FailsUnder(conv, name, field)
    ensures cell.Converted? ==>
      ColumnOf(name) == Some(cell.column) && conv(cell.column, field) == Some(cell.value)
  {
    match ColumnOf(name)
    case None => Ignored
    case Some(c) =>
      match conv(c, field)
      case None => Failed
      case Some(v) => Converted(c, v)
  }

  /** The cells of a row, one per field, each read under the header name at
      the same position. */
  function Cells(conv: Conversion, header: seq<string>, line: seq<string>): (cells: seq<Cell>)
    requires |line| <= |header|
    ensures |cells| == |line|
    ensures forall j :: 0 <= j < |line| ==> cells[j] == ReadCell(conv, header[j], line[j])
  {
    seq(|line|, j requires 0 <= j < |line| => ReadCell(conv, header[j], line[j]))
  }

  /** The conversion only makes values of the column's kind. */
  ghost predicate TypedConversion(conv: Conversion) {
    forall c, f :: conv(c, f).Some? ==> Fits(c, conv(c, f).value)
  }

  lemma ConvertTyped()
    ensures TypedConversion(Convert)
  {
    forall c, f | Convert(c, f).Some?
      ensures Fits(c, Convert(c, f).value)
    {
    }
  }

  /** Every converted cell holds a value of its column's kind. */
  predicate Typed(cells: seq<Cell>) {
    forall j :: 0 <= j < |cells| && cells[j].Converted? ==> Fits(cells[j].column, cells[j].value)
  }

  lemma CellsTyped(conv: Conversion, header: seq<string>, line: seq<string>)
    requires |line| <= |header| && TypedConversion(conv)
    ensures Typed(Cells(conv, header, line))
  {
    var cells := Cells(conv, header, line);
    forall j | 0 <= j < |cells| && cells[j].Converted?
      ensures Fits(cells[j].column, cells[j].value)
    {
      assert conv(cells[j].column, line[j]) == Some(cells[j].value);
    }
  }

  /** The column loop of `_set` over the first `k` cells: a failing cell
      aborts the row, an ignored one leaves the record as it is, a converted
      one is stored in its column. */
  function StoreCells(cells: seq<Cell>, offset: (int, int), k: nat): Option<OcrText>
    requires k <= |cells|
  {
    if k == 0 then Some(Blank())
    else
      match StoreCells(cells, offset, k - 1)
      case None => None
      case Some(r) =>
        match cells[k - 1]
        case Ignored => Some(r)
        case Failed => None
        case Converted(c, v) => Some(Store(r, c, v, offset))
  }

  /** A record with its location set from left/top/width/height. */
  function Located(t: OcrText): OcrText {
    t.(location := Rect(t.left, t.top, t.left + t.width, t.top + t.height))
  }

  /** The row read with any conversion. */
  function SetWith(conv: Conversion, header: seq<string>, line: seq<string>, offset: (int, int)): Option<OcrText> {
    if |line| > |header| then None
    else
      match StoreCells(Cells(conv, header, line), offset, |line|)
      case None => None
      case Some(t) => Some(Located(t))
  }

  /** `_Text._set(header, line, offset)`: reads every field by the name of
      its column, then sets the location from left/top/width/height. A field
      beyond the header is an `IndexError` in the source, `None` here like a
      field that does not convert. */
  function Set(header: seq<string>, line: seq<string>, offset: (int, int)): (r: Option<OcrText>)
    ensures r.Some? ==>
      r.value.location == Rect(r.value.left, r.value.top, r.value.left + r.value.width, r.value.top + r.value.height)
    ensures r.Some? ==> |line| <= |header|
  {
    SetWith(Convert, header, line, offset)
  }

  /** The value of the last cell of column `c` among the first `k`, or the
      column's initial value when there is none. */
  function LastValue(cells: seq<Cell>, c: Column, offset: (int, int), k: nat): Value
    requires k <= |cells|
  {
    if k == 0 then Get(Blank(), c, offset)
    else if cells[k - 1].Converted? && cells[k - 1].column == c then cells[k - 1].value
    else LastValue(cells, c, offset, k - 1)
  }

  /** After the first `k` cells, each column holds its last value. */
  lemma {:induction false} StoreCellsColumn(cells: seq<Cell>, offset: (int, int), k: nat, c: Column)
    requires k <= |cells| && Typed(cells)
    requires StoreCells(cells, offset, k).Some?
    ensures Get(StoreCells(cells, offset, k).value, c, offset) == LastValue(cells, c, offset, k)
  {
    if k > 0 {
      StoreCellsColumn(cells, offset, k - 1, c);
    }
  }

  /** The loop aborts exactly when one of the first `k` cells failed. */
  lemma {:induction false} StoreCellsFails(cells: seq<Cell>, offset: (int, int), k: nat)
    requires k <= |cells|
    ensures StoreCells(cells, offset, k).None? <==> exists j :: 0 <= j < k && cells[j].Failed?
  {
    if k > 0 {
      StoreCellsFails(cells, offset, k - 1);
    }
  }

  /** The loop over the first `k` cells only reads those cells. */
  lemma {:induction false} StoreCellsPrefix(cells: seq<Cell>, more: seq<Cell>, offset: (int, int), k: nat)
    requires k <= |cells|
    ensures StoreCells(cells + more, offset, k) == StoreCells(cells, offset, k)
  {
    if k > 0 {
      StoreCellsPrefix(cells, more, offset, k - 1);
      assert (cells + more)[k - 1] == cells[k - 1];
    }
  }

  /** The field of the last column among the first `k` that is named
      `name`: later columns of the same name override earlier ones. */
  function LastField(header: seq<string>, line: seq<string>, name: string, k: nat): (v: Option<string>)
    requires k <= |line| && k <= |header|
    ensures v.Some? ==> exists j :: 0 <= j < k && header[j] == name && line[j] == v.value
    ensures v.None? ==> forall j :: 0 <= j < k ==> header[j] != name
  {
    if k == 0 then None
    else if header[k - 1] == name then Some(line[k - 1])
    else LastField(header, line, name, k - 1)
  }

  /** `v`, read back from column `c`, is the conversion of `last`, the last
      field of that column, or the column's initial value when there is
      none. */
  predicate HoldsUnder(conv: Conversion, v: Value, c: Column, offset: (int, int), last: Option<string>) {
    match last
    case Some(f) => conv(c, f) == Some(v)
    case None => v == Get(Blank(), c, offset)
  }

  predicate ColumnHolds(v: Value, c: Column, offset: (int, int), last: Option<string>) {
    HoldsUnder(Convert, v, c, offset, last)
  }

  /** What a cell says about column `c`: under the column's name it is the
      conversion of its field, under any other name it is not a value of
      `c`. */
  predicate CellFor(cell: Cell, name: string, field: string, conv: Conversion, c: Column) {
    && (name == ColumnName(c) ==> cell.Converted? && cell.column == c && conv(c, field) == Some(cell.value))
    && (name != ColumnName(c) ==> !(cell.Converted? && cell.column == c))
  }

  lemma ReadCellFor(conv: Conversion, name: string, field: string, c: Column)
    requires !ReadCell(conv, name, field).Failed?
    ensures CellFor(ReadCell(conv, name, field), name, field, conv, c)
  {
    ColumnOfName(c);
  }

  /** The last value of a column is the conversion of its last field. */
  lemma {:induction false} LastValueIsLastField(cells: seq<Cell>, header: seq<string>, line: seq<string>, conv: Conversion, offset: (int, int), c: Column, k: nat)
    requires k <= |cells| && k <= |line| && k <= |header|
    requires forall j :: 0 <= j < k ==> CellFor(cells[j], header[j], line[j], conv, c)
    ensures HoldsUnder(conv, LastValue(cells, c, offset, k), c, offset, LastField(header, line, ColumnName(c), k))
  {
    if k > 0 {
      assert CellFor(cells[k - 1], header[k - 1], line[k - 1], conv, c);
      if header[k - 1] != ColumnName(c) {
        LastValueIsLastField(cells, header, line, conv, offset, c, k - 1);
      }
    }
  }

  /** With any well-typed conversion, each column of an accepted row holds
      the conversion of its last field. */
  lemma SetWithColumn(conv: Conversion, header: seq<string>, line: seq<string>, offset: (int, int), c: Column)
    requires TypedConversion(conv) && SetWith(conv, header, line, offset).Some?
    ensures HoldsUnder(conv, Get(SetWith(conv, header, line, offset).value, c, offset), c, offset, LastField(header, line, ColumnName(c), |line|))
  {
    SetWithIsStore(conv, header, line, offset);
    var cells := Cells(conv, header, line);
    CellsTyped(conv, header, line);
    StoreCellsFails(cells, offset, |line|);
    StoreCellsColumn(cells, offset, |line|, c);
    CellsFor(conv, header, line, c);
    LastValueIsLastField(cells, header, line, conv, offset, c, |line|);
    LocatedGet(StoreCells(cells, offset, |line|).value, c, offset);
  }

  lemma SetWithIsStore(conv: Conversion, header: seq<string>, line: seq<string>, offset: (int, int))
    requires SetWith(conv, header, line, offset).Some?
    ensures |line| <= |header|
    ensures StoreCells(Cells(conv, header, line), offset, |line|).Some?
    ensures SetWith(conv, header, line, offset).value == Located(StoreCells(Cells(conv, header, line), offset, |line|).value)
  {
  }

  lemma LocatedGet(t: OcrText, c: Column, offset: (int, int))
    ensures Get(Located(t), c, offset) == Get(t, c, offset)
  {
  }

  lemma CellsFor(conv: Conversion, header: seq<string>, line: seq<string>, c: Column)
    requires |line| <= |header|
    requires forall j :: 0 <= j < |line| ==> !Cells(conv, header, line)[j].Failed?
    ensures forall j :: 0 <= j < |line| ==> CellFor(Cells(conv, header, line)[j], header[j], line[j], conv, c)
  {
    forall j | 0 <= j < |line|
      ensures CellFor(Cells(conv, header, line)[j], header[j], line[j], conv, c)
    {
      var cells := Cells(conv, header, line);
      assert cells[j] == ReadCell(conv, header[j], line[j]);
      assert !cells[j].Failed?;
      ReadCellFor(conv, header[j], line[j], c);
    }
  }

  /** What `_set` stores in each column of a row it accepts: for `left` and
      `top` the parsed value plus the offset, for `width`, `height` and the
      hierarchy numbers the parsed value, for `conf` the parsed value over
      100, for `text` the stripped field; the last of several columns of the
      same name wins, and an absent column keeps 0, 0.0 or the empty text. */
  lemma SetColumn(header: seq<string>, line: seq<string>, offset: (int, int), c: Column)
    requires Set(header, line, offset).Some?
    ensures ColumnHolds(Get(Set(header, line, offset).value, c, offset), c, offset, LastField(header, line, ColumnName(c), |line|))
  {
    ConvertTyped();
    SetWithColumn(Convert, header, line, offset, c);
  }

  /** With any conversion, a row fails exactly when it is longer than the
      header or one of its fields fails. */
  lemma SetWithFailsIff(conv: Conversion, header: seq<string>, line: seq<string>, offset: (int, int))
    ensures SetWith(conv, header, line, offset).None? <==>
      |line| > |header| || exists j :: 0 <= j < |line| && FailsUnder(conv, header[j], line[j])
  {
    if |line| <= |header| {
      var cells := Cells(conv, header, line);
      StoreCellsFails(cells, offset, |line|);
      if exists j :: 0 <= j < |line| && FailsUnder(conv, header[j], line[j]) {
        var j :| 0 <= j < |line| && FailsUnder(conv, header[j], line[j]);
        assert cells[j].Failed?;
      }
    }
  }

  /** `_set` raises exactly when the row is longer than the header or one
      of its known columns holds a field that does not convert. */
  lemma SetFailsIff(header: seq<string>, line: seq<string>, offset: (int, int))
    ensures Set(header, line, offset).None? <==>
      |line| > |header| || exists j :: 0 <= j < |line| && FieldFails(header[j], line[j])
  {
    SetWithFailsIff(Convert, header, line, offset);
  }

  /** With any conversion, a trailing column of an unknown name changes
      nothing. */
  lemma SetWithIgnoresUnknownColumn(conv: Conversion, header: seq<string>, line: seq<string>, name: string, field: string, offset: (int, int))
    requires |line| == |header| && ColumnOf(name).None?
    ensures SetWith(conv, header + [name], line + [field], offset) == SetWith(conv, header, line, offset)
  {
    var cells := Cells(conv, header, line);
    CellsExtend(conv, header, line, name, field);
    StoreCellsPrefix(cells, [Ignored], offset, |line|);
    var longer := cells + [Ignored];
    assert longer[|line|] == Ignored;
    assert StoreCells(longer, offset, |line| + 1) == StoreCells(longer, offset, |line|);
  }

  lemma CellsExtend(conv: Conversion, header: seq<string>, line: seq<string>, name: string, field: string)
    requires |line| == |header| && ColumnOf(name).None?
    ensures Cells(conv, header + [name], line + [field]) == Cells(conv, header, line) + [Ignored]
  {
    var cells := Cells(conv, header, line);
    var longer := Cells(conv, header + [name], line + [field]);
    assert forall j :: 0 <= j < |line| ==> (header + [name])[j] == header[j] && (line + [field])[j] == line[j];
    assert longer[|line|] == ReadCell(conv, name, field);
  }

  /** A trailing column `_set` does not know changes nothing. */
  /** The offset moves only `left` and `top`: a row that reads under one
      offset reads under any other, and those of the two columns present in
      the row move by the difference of the offsets. */
  lemma SetShifts(header: seq<string>, line: seq<string>, offset: (int, int), other: (int, int))
    requires Set(header, line, offset).Some?
    ensures Set(header, line, other).Some?
    ensures LastField(header, line, ColumnName(Left), |line|).Some? ==>
      Set(header, line, other).value.left - other.0 == Set(header, line, offset).value.left - offset.0
    ensures LastField(header, line, ColumnName(Top), |line|).Some? ==>
      Set(header, line, other).value.top - other.1 == Set(header, line, offset).value.top - offset.1
  {
    SetReadsUnderAnyOffset(header, line, offset, other);
    if LastField(header, line, ColumnName(Left), |line|).Some? {
      SetShiftsLeft(header, line, offset, other);
    }
    if LastField(header, line, ColumnName(Top), |line|).Some? {
      SetShiftsTop(header, line, offset, other);
    }
  }

  /** Equal `left` and `top` values under two offsets mean positions that
      differ by the offsets. */
  lemma GetShifts(a: OcrText, b: OcrText, offset: (int, int), other: (int, int))
    ensures Get(b, Left, other) == Get(a, Left, offset) ==> b.left - other.0 == a.left - offset.0
    ensures Get(b, Top, other) == Get(a, Top, offset) ==> b.top - other.1 == a.top - offset.1
  {
  }

  /** A read `left` column moves with the offset's first component. */
  lemma SetShiftsLeft(header: seq<string>, line: seq<string>, offset: (int, int), other: (int, int))
    requires Set(header, line, offset).Some? && Set(header, line, other).Some?
    requires LastField(header, line, ColumnName(Left), |line|).Some?
    ensures Set(header, line, other).value.left - other.0 == Set(header, line, offset).value.left - offset.0
  {
    SetShiftsColumn(header, line, offset, other, Left);
    GetShifts(Set(header, line, offset).value, Set(header, line, other).value, offset, other);
  }

  /** A read `top` column moves with the offset's second component. */
  lemma SetShiftsTop(header: seq<string>, line: seq<string>, offset: (int, int), other: (int, int))
    requires Set(header, line, offset).Some? && Set(header, line, other).Some?
    requires LastField(header, line, ColumnName(Top), |line|).Some?
    ensures Set(header, line, other).value.top - other.1 == Set(header, line, offset).value.top - offset.1
  {
    SetShiftsColumn(header, line, offset, other, Top);
    GetShifts(Set(header, line, offset).value, Set(header, line, other).value, offset, other);
  }

  /** Whether a row reads does not depend on the offset. */
  lemma SetReadsUnderAnyOffset(header: seq<string>, line: seq<string>, offset: (int, int), other: (int, int))
    requires Set(header, line, offset).Some?
    ensures Set(header, line, other).Some?
  {
    SetFailsIff(header, line, offset);
    SetFailsIff(header, line, other);
  }

  /** A column present in the row reads back the same under both offsets. */
  lemma SetShiftsColumn(header: seq<string>, line: seq<string>, offset: (int, int), other: (int, int), c: Column)
    requires Set(header, line, offset).Some? && Set(header, line, other).Some?
    requires LastField(header, line, ColumnName(c), |line|).Some?
    ensures Get(Set(header, line, other).value, c, other) == Get(Set(header, line, offset).value, c, offset)
  {
    SetColumn(header, line, offset, c);
    SetColumn(header, line, other, c);
  }

  lemma SetIgnoresUnknownColumn(header: seq<string>, line: seq<string>, name: string, field: string, offset: (int, int))
    requires |line| == |header| && ColumnOf(name).None?
    ensures Set(header + [name], line + [field], offset) == Set(header, line, offset)
  {
    SetWithIgnoresUnknownColumn(Convert, header, line, name, field, offset);
  }

  // ---------------------------------------------------------------------
  // _ocr_subregion: the TSV loop

  /** The rows that reach `_set`: those with at least as many fields as the
      header. Shorter rows (the empty line after the final newline among
      them) are skipped. */
  function KeptRows(width: nat, rows: seq<seq<string>>): (kept: seq<seq<string>>)
    ensures forall k :: 0 <= k < |kept| ==> |kept[k]| >= width && kept[k] in rows
    ensures forall k :: 0 <= k < |rows| && |rows[k]| >= width ==> rows[k] in kept
  {
    if rows == [] then []
    else
      assert forall k :: 1 <= k < |rows| ==> rows[k] == rows[1..][k - 1];
      if |rows[0]| < width then KeptRows(width, rows[1..])
      else [rows[0]] + KeptRows(width, rows[1..])
  }

  /** Rows are kept in their order: the kept rows of two blocks of rows are
      those of the first block followed by those of the second. */
  lemma {:induction false} KeptRowsAppend(width: nat, rows: seq<seq<string>>, more: seq<seq<string>>)
    ensures KeptRows(width, rows + more) == KeptRows(width, rows) + KeptRows(width, more)
  {
    if rows == [] {
      assert rows + more == more;
    } else {
      assert (rows + more)[0] == rows[0];
      assert (rows + more)[1..] == rows[1..] + more;
      KeptRowsAppend(width, rows[1..], more);
    }
  }

  /** The row loop, for any reader of a row: one value per kept row, in
      order; the first row the reader rejects aborts the loop with that row. */
  function RowLoop<T>(width: nat, rows: seq<seq<string>>, read: seq<string> -> Option<T>): Result<seq<T>> {
    if rows == [] then Ok([])
    else if |rows[0]| < width then RowLoop(width, rows[1..], read)
    else
      match read(rows[0])
      case None => Err(ParseFailure(rows[0]))
      case Some(d) =>
        match RowLoop(width, rows[1..], read)
        case Err(e) => Err(e)
        case Ok(ds) => Ok([d] + ds)
  }

  /** The reader accepts every row of `kept`. */
  predicate AllRead<T>(kept: seq<seq<string>>, read: seq<string> -> Option<T>) {
    forall k :: 0 <= k < |kept| ==> read(kept[k]).Some?
  }

  /** `vs` holds, row by row, what the reader makes of `kept`. */
  ghost predicate ReadsAs<T>(kept: seq<seq<string>>, read: seq<string> -> Option<T>, vs: seq<T>) {
    |vs| == |kept| && forall k :: 0 <= k < |kept| ==> read(kept[k]) == Some(vs[k])
  }

  lemma ReadCons<T>(row: seq<string>, rest: seq<seq<string>>, read: seq<string> -> Option<T>, vs: seq<T>)
    ensures AllRead([row] + rest, read) <==> read(row).Some? && AllRead(rest, read)
    ensures read(row).Some? && ReadsAs(rest, read, vs) ==> ReadsAs([row] + rest, read, [read(row).value] + vs)
  {
    var kept := [row] + rest;
    assert kept[0] == row;
    assert forall k :: 1 <= k < |kept| ==> kept[k] == rest[k - 1];
    if AllRead(kept, read) {
      forall k | 0 <= k < |rest|
        ensures read(rest[k]).Some?
      {
        assert kept[k + 1] == rest[k];
      }
    }
    if read(row).Some? && ReadsAs(rest, read, vs) {
      var ws := [read(row).value] + vs;
      forall k | 0 <= k < |kept|
        ensures read(kept[k]) == Some(ws[k])
      {
        if k > 0 {
          assert kept[k] == rest[k - 1] && ws[k] == vs[k - 1];
          assert read(rest[k - 1]) == Some(vs[k - 1]);
        } else {
          assert kept[0] == row && ws[0] == read(row).value;
        }
      }
      assert |ws| == |kept|;
      assert ReadsAs(kept, read, ws);
    }
  }

  /** The loop succeeds exactly when the reader accepts every kept row, and
      then holds one value per kept row, each what the reader makes of it. */
  lemma {:induction false} RowLoopOk<T>(width: nat, rows: seq<seq<string>>, read: seq<string> -> Option<T>)
    ensures var res := RowLoop(width, rows, read);
      var kept := KeptRows(width, rows);
      && (res.Ok? <==> AllRead(kept, read))
      && (res.Ok? ==> ReadsAs(kept, read, res.value))
  {
    if rows != [] {
      RowLoopOk(width, rows[1..], read);
      var rest := KeptRows(width, rows[1..]);
      var resRest := RowLoop(width, rows[1..], read);
      if |rows[0]| >= width {
        assert KeptRows(width, rows) == [rows[0]] + rest;
        ReadCons(rows[0], rest, read, if resRest.Ok? then resRest.value else []);
      }
    }
  }

  /** Row `k` is the first of `kept` that the reader rejects. */
  predicate FirstRejected<T>(kept: seq<seq<string>>, read: seq<string> -> Option<T>, k: int) {
    0 <= k < |kept| && read(kept[k]).None? && forall j :: 0 <= j < k ==> read(kept[j]).Some?
  }

  lemma FirstRejectedShift<T>(row: seq<string>, rest: seq<seq<string>>, read: seq<string> -> Option<T>, k: int)
    requires read(row).Some? && FirstRejected(rest, read, k)
    ensures FirstRejected([row] + rest, read, k + 1)
  {
    var kept := [row] + rest;
    forall j | 0 <= j < k + 1
      ensures read(kept[j]).Some?
    {
      if j > 0 {
        assert kept[j] == rest[j - 1];
      }
    }
  }

  /** A failing loop names the first kept row the reader rejects. */
  lemma {:induction false} RowLoopErr<T>(width: nat, rows: seq<seq<string>>, read: seq<string> -> Option<T>)
    ensures var res := RowLoop(width, rows, read);
      res.Err? ==> exists k :: FirstRejected(KeptRows(width, rows), read, k) &&
                              res.error == ParseFailure(KeptRows(width, rows)[k])
  {
    if rows != [] {
      var kept := KeptRows(width, rows);
      var rest := KeptRows(width, rows[1..]);
      var res := RowLoop(width, rows, read);
      var resRest := RowLoop(width, rows[1..], read);
      if |rows[0]| < width {
        RowLoopErr(width, rows[1..], read);
      } else {
        assert kept == [rows[0]] + rest;
        if read(rows[0]).None? {
          assert res == Err(ParseFailure(rows[0]));
          assert FirstRejected(kept, read, 0);
        } else if resRest.Err? {
          RowLoopErr(width, rows[1..], read);
          assert res == Err(resRest.error);
          var k :| FirstRejected(rest, read, k) && resRest.error == ParseFailure(rest[k]);
          FirstRejectedShift(rows[0], rest, read, k);
          assert kept[k + 1] == rest[k];
        }
      }
    }
  }

  lemma RowLoopSpec<T>(width: nat, rows: seq<seq<string>>, read: seq<string> -> Option<T>)
    ensures var res := RowLoop(width, rows, read);
      var kept := KeptRows(width, rows);
      && (res.Ok? <==> AllRead(kept, read))
      && (res.Ok? ==> ReadsAs(kept, read, res.value))
      && (res.Err? ==> exists k :: FirstRejected(kept, read, k) && res.error == ParseFailure(kept[k]))
  {
    RowLoopOk(width, rows, read);
    RowLoopErr(width, rows, read);
  }

  /** The TSV text as header fields and row fields. */
  function Fields(tsv: string): (t: (seq<string>, seq<seq<string>>)) {
    var lines := Split(tsv, '\n');
    (Split(lines[0], '\t'), seq(|lines| - 1, k requires 0 <= k < |lines| - 1 => Split(lines[k + 1], '\t')))
  }

  /** Reads a TSV text: the first line is the header, every later line with
      at least as many fields becomes a record. `_ocr_subregion` always calls
      this with the offset `(0, 0)`. */
  function ParseTsv(tsv: string, offset: (int, int)): Result<seq<OcrText>> {
    var (header, rows) := Fields(tsv);
    RowLoop(|header|, rows, line => Set(header, line, offset))
  }

  /** The read of a TSV text, in terms of its header and rows. */
  lemma ParseTsvSpec(tsv: string, offset: (int, int))
    ensures var (header, rows) := Fields(tsv);
      var res := ParseTsv(tsv, offset);
      var kept := KeptRows(|header|, rows);
      var read := line => Set(header, line, offset);
      && (res.Ok? <==> AllRead(kept, read))
      && (res.Ok? ==> ReadsAs(kept, read, res.value))
      && (res.Err? ==> exists k :: FirstRejected(kept, read, k) &&
                              res.error == ParseFailure(kept[k]))
  {
    var (header, rows) := Fields(tsv);
    RowLoopSpec(|header|, rows, line => Set(header, line, offset));
  }

  /** Read with another offset, a TSV text gives the same number of records,
      and each lies that offset further right and down, when the header has
      `left` and `top` columns. */
  lemma ParseTsvShifts(tsv: string, offset: (int, int), k: nat)
    requires ParseTsv(tsv, (0, 0)).Ok? && k < |ParseTsv(tsv, (0, 0)).value|
    requires ColumnName(Left) in Fields(tsv).0 && ColumnName(Top) in Fields(tsv).0
    ensures ParseTsv(tsv, offset).Ok?
    ensures |ParseTsv(tsv, offset).value| == |ParseTsv(tsv, (0, 0)).value|
    ensures ParseTsv(tsv, offset).value[k].left == ParseTsv(tsv, (0, 0)).value[k].left + offset.0
    ensures ParseTsv(tsv, offset).value[k].top == ParseTsv(tsv, (0, 0)).value[k].top + offset.1
  {
    var (header, rows) := Fields(tsv);
    var kept := KeptRows(|header|, rows);
    ParseTsvSpec(tsv, (0, 0));
    ParseTsvSpec(tsv, offset);
    ReadsUnderAnyOffset(header, kept, offset);
    var r0 := ParseTsv(tsv, (0, 0)).value;
    assert Set(header, kept[k], (0, 0)) == Some(r0[k]);
    assert |kept[k]| == |header|;
    var i :| 0 <= i < |header| && header[i] == ColumnName(Left);
    var j :| 0 <= j < |header| && header[j] == ColumnName(Top);
    assert LastField(header, kept[k], ColumnName(Left), |kept[k]|).Some?;
    assert LastField(header, kept[k], ColumnName(Top), |kept[k]|).Some?;
    SetShifts(header, kept[k], (0, 0), offset);
  }

  /** Rows that all read under offset `(0, 0)` read under any offset. */
  lemma ReadsUnderAnyOffset(header: seq<string>, kept: seq<seq<string>>, offset: (int, int))
    requires AllRead(kept, line => Set(header, line, (0, 0)))
    ensures AllRead(kept, line => Set(header, line, offset))
  {
    forall j | 0 <= j < |kept|
      ensures Set(header, kept[j], offset).Some?
    {
      SetReadsUnderAnyOffset(header, kept[j], (0, 0), offset);
    }
  }
}
