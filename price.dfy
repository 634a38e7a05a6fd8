/**
 * `parse_price`: find the row of the results table whose flight number is the target and
 * return the lowest fare shown in that row's fare cells.
 *
 * The rendered page is modelled by what the extraction looks at, not as HTML:
 * the `div#flightInfoListDC` container, its `table.tblRouteList`, the `tr.flightTr` rows,
 * and per row the flight-number text and the `td.classInfo` fare cells.
 */
module Price {
  import opened Results
  import opened Text
  import opened Decimal

  /**
   * A `td.classInfo` fare cell: the text of its always-visible `div.F22.notHover`, and the text
   * of the `span` styled `font-size:18px` inside its `div.needHover`; each is `None` when absent.
   */
  datatype Cell = Cell(visible: Option<string>, hover: Option<string>)

  /**
   * A `tr.flightTr` row: the text of `td.flightInfoForm div.F20` (`None` when the row lacks
   * either element, which the extraction treats alike) and the row's fare cells in order.
   */
  datatype Row = Row(flightNumber: Option<string>, cells: seq<Cell>)

  datatype Table = Table(rows: seq<Row>)

  datatype Container = Container(table: Option<Table>)

  datatype Document = Document(container: Option<Container>)

  /** What the page fetch yields: nothing (`None` or the empty string), or a parsed page. */
  datatype Markup = EmptyMarkup | Rendered(doc: Document)

  /**
   * The outcome of extraction. The source logs each failure differently but returns `None` for
   * all of them; `ToOption` gives that return value.
   */
  datatype PriceOutcome =
    | NoContent
    | ContainerNotFound
    | TableNotFound
    | NoRows
    | FlightNotFound
    | NoValidPrice
    | Price(amount: real)
  {
    function ToOption(): (r: Option<real>)
      ensures r.Some? <==> Price?
      ensures Price? ==> r == Some(amount)
    {
      if Price? then Some(amount) else None
    }
  }

  const FullwidthYen: char := '\U{FFE5}'
  const Yen: char := '\U{A5}'

  /** `'￥' in text or '¥' in text`. */
  predicate HasYenSign(s: string)
    ensures HasYenSign(s) <==> exists k | 0 <= k < |s| :: s[k] == FullwidthYen || s[k] == Yen
  {
    FullwidthYen in s || Yen in s
  }

  /**
   * Price-text cleanup: strip, drop both yen signs and every comma, strip again and keep the
   * first whitespace-separated field.
   */
  function CleanPriceText(raw: string): (r: string)
    ensures NoSpace(r) && FullwidthYen !in r && Yen !in r && ',' !in r
  {
    var noFullwidth := Remove(Strip(raw), FullwidthYen);
    var noYen := Remove(noFullwidth, Yen);
    var bare := Remove(noYen, ',');
    RemoveDrawsFromInput(noFullwidth, Yen);
    RemoveDrawsFromInput(noYen, ',');
    StripShape(bare);
    FirstField(Strip(bare))
  }

  /**
   * The text a cell's fare is read from. The visible layout wins whenever its text shows a yen
   * sign, even if that text then fails to parse; only otherwise is the hover layout consulted.
   */
  function FareText(c: Cell): (r: Option<string>)
    ensures r.Some? ==> HasYenSign(r.value)
    ensures c.visible.Some? && HasYenSign(c.visible.value) ==> r == c.visible
    ensures !(c.visible.Some? && HasYenSign(c.visible.value)) ==>
              r == (if c.hover.Some? && HasYenSign(c.hover.value) then c.hover else None)
  {
    if c.visible.Some? && HasYenSign(c.visible.value) then c.visible
    else if c.hover.Some? && HasYenSign(c.hover.value) then c.hover
    else None
  }

  /** The fare a cell contributes; `None` where the text is missing or does not parse. */
  function CellPrice(c: Cell): (r: Option<real>)
    ensures r.Some? ==> FareText(c).Some? && r == ParseDecimal(CleanPriceText(FareText(c).value))
    ensures r.Some? ==> r.value >= 0.0
  {
    match FareText(c)
    case None => None
    case Some(text) => ParseDecimal(CleanPriceText(text))
  }

  /**
   * A cell's fare is exactly the parse of its cleaned fare text: no fare without a text showing a
   * yen sign, and with one, whatever `float()` makes of it.
   */
  lemma CellFareIsParsedText(c: Cell)
    ensures FareText(c).None? ==> CellPrice(c).None?
    ensures FareText(c).Some? ==> CellPrice(c) == ParseDecimal(CleanPriceText(FareText(c).value))
  {
  }

  /** `min` with `None` standing for the initial `float('inf')`. */
  function MinOf(a: Option<real>, b: Option<real>): (r: Option<real>)
    ensures r.None? <==> a.None? && b.None?
    ensures r.Some? ==> r == a || r == b
    ensures a.Some? ==> r.Some? && r.value <= a.value
    ensures b.Some? ==> r.Some? && r.value <= b.value
  {
    match (a, b)
    case (None, _) => b
    case (_, None) => a
    case (Some(x), Some(y)) => if y < x then b else a
  }

  /** The fare each cell of a row yields, in order. */
  function Fares(cells: seq<Cell>): (r: seq<Option<real>>)
    ensures |r| == |cells| && forall k | 0 <= k < |cells| :: r[k] == CellPrice(cells[k])
  {
    seq(|cells|, k requires 0 <= k < |cells| => CellPrice(cells[k]))
  }

  /** The running minimum over a sequence of fares, folded from the left as the loop does. */
  function Least(fares: seq<Option<real>>): Option<real>
    decreases |fares|
  {
    if |fares| == 0 then None
    else MinOf(Least(fares[..|fares| - 1]), fares[|fares| - 1])
  }

  /**
   * The running minimum is the least fare: one the cells yield and no larger than any other,
   * or `None` exactly when no cell yields a fare.
   */
  lemma {:induction false} LeastIsMinimum(fares: seq<Option<real>>)
    ensures Least(fares).None? <==> forall k | 0 <= k < |fares| :: fares[k].None?
    ensures Least(fares).Some? ==> exists k | 0 <= k < |fares| :: fares[k] == Least(fares)
    ensures forall k | 0 <= k < |fares| && fares[k].Some? :: Least(fares).Some? && Least(fares).value <= fares[k].value
    decreases |fares|
  {
    if |fares| > 0 {
      var n := |fares| - 1;
      var init := fares[..n];
      LeastIsMinimum(init);
      assert forall k | 0 <= k < n :: init[k] == fares[k];
      var r := Least(fares);
      if r.Some? && r != fares[n] {
        var k :| 0 <= k < n && init[k] == Least(init);
        assert fares[k] == r;
      }
    }
  }

  /**
   * A row matches when its flight-number text, stripped, is exactly the target; a row without
   * one never matches.
   */
  predicate Matches(row: Row, target: string)
    ensures Matches(row, target) ==> row.flightNumber.Some?
  {
    row.flightNumber.Some? && Strip(row.flightNumber.value) == target
  }

  /** A target with whitespace at either end matches no row. */
  lemma PaddedTargetNeverMatches(row: Row, target: string)
    requires target != [] && (IsSpace(target[0]) || IsSpace(target[|target| - 1]))
    ensures !Matches(row, target)
  {
    if row.flightNumber.Some? {
      StripShape(row.flightNumber.value);
    }
  }

  /** A row that ends the scan: it matches and has fare cells. */
  predicate Priced(row: Row, target: string) {
    Matches(row, target) && |row.cells| > 0
  }

  /** The position of the first `true`. */
  function FirstTrue(flags: seq<bool>): (r: Option<nat>)
    ensures r.Some? ==> r.value < |flags| && flags[r.value]
    ensures r.Some? ==> forall j | 0 <= j < r.value :: !flags[j]
    ensures r.None? <==> true !in flags
    decreases |flags|
  {
    if |flags| == 0 then None
    else if flags[0] then Some(0)
    else
      match FirstTrue(flags[1..])
      case None => None
      case Some(i) => Some(i + 1)
  }

  lemma FirstTrueAt(flags: seq<bool>, i: nat)
    requires i < |flags| && flags[i] && forall j | 0 <= j < i :: !flags[j]
    ensures FirstTrue(flags) == Some(i)
  {
  }

  /** For each row, whether it ends the scan: it matches and has fare cells. */
  function PricedFlags(rows: seq<Row>, target: string): (flags: seq<bool>)
    ensures |flags| == |rows| && forall j | 0 <= j < |rows| :: flags[j] == Priced(rows[j], target)
  {
    seq(|rows|, j requires 0 <= j < |rows| => Priced(rows[j], target))
  }

  /** The index of the first row that matches and has fare cells. */
  function FirstPriced(rows: seq<Row>, target: string): (r: Option<nat>)
    ensures r.Some? ==> r.value < |rows| && Priced(rows[r.value], target)
    ensures r.Some? ==> forall j | 0 <= j < r.value :: !Priced(rows[j], target)
    ensures r.None? ==> forall j | 0 <= j < |rows| :: !Priced(rows[j], target)
  {
    FirstTrue(PricedFlags(rows, target))
  }

  /** For each row, whether it matches the target. */
  function MatchFlags(rows: seq<Row>, target: string): (flags: seq<bool>)
    ensures |flags| == |rows| && forall j | 0 <= j < |rows| :: flags[j] == Matches(rows[j], target)
  {
    seq(|rows|, j requires 0 <= j < |rows| => Matches(rows[j], target))
  }

  /** The rows of the results table, when the page has the container and the table. */
  function RowsOf(m: Markup): Option<seq<Row>> {
    if m.Rendered? && m.doc.container.Some? && m.doc.container.value.table.Some? then
      Some(m.doc.container.value.table.value.rows)
    else
      None
  }

  /** The result of extraction, stated over the whole page. */
  function Extract(m: Markup, target: string): (r: PriceOutcome)
    ensures m.EmptyMarkup? ==> r == NoContent
    ensures m.Rendered? && m.doc.container.None? ==> r == ContainerNotFound
    ensures m.Rendered? && m.doc.container.Some? && m.doc.container.value.table.None? ==> r == TableNotFound
    ensures RowsOf(m) == Some([]) ==> r == NoRows
  {
    match m
    case EmptyMarkup => NoContent
    case Rendered(doc) =>
      if doc.container.None? then ContainerNotFound
      else if doc.container.value.table.None? then TableNotFound
      else
        var rows := doc.container.value.table.value.rows;
        if |rows| == 0 then NoRows else ScanOutcome(rows, target)
  }

  /** The outcome of scanning a non-empty list of rows. */
  function ScanOutcome(rows: seq<Row>, target: string): PriceOutcome {
    if true !in MatchFlags(rows, target) then FlightNotFound
    else
      match FirstPriced(rows, target)
      case None => NoValidPrice
      case Some(i) =>
        match Least(Fares(rows[i].cells))
        case None => NoValidPrice
        case Some(v) => Price(v)
  }

  /** The inner loop of `parse_price`: fold every cell's fare into the running minimum. */
  method LowestFare(cells: seq<Cell>) returns (minPrice: Option<real>)
    ensures minPrice == Least(Fares(cells))
  {
    ghost var fares := Fares(cells);
    minPrice := None;
    for k := 0 to |cells|
      invariant minPrice == Least(fares[..k])
    {
      assert fares[..k + 1][..k] == fares[..k];
      minPrice := MinOf(minPrice, CellPrice(cells[k]));
    }
    assert fares[..|cells|] == fares;
  }

  /** `parse_price`: the checks for an empty page and a missing container, table or rows, then the row scan. */
  method ParsePrice(m: Markup, target: string) returns (r: PriceOutcome)
    ensures r == Extract(m, target)
  {
    if m.EmptyMarkup? {
      return NoContent;
    }
    var container := m.doc.container;
    if container.None? {
      return ContainerNotFound;
    }
    var table := container.value.table;
    if table.None? {
      return TableNotFound;
    }
    var rows := table.value.rows;
    if |rows| == 0 {
      return NoRows;
    }
    r := ScanRows(rows, target);
  }

  /**
   * The row loop of `parse_price`: a found flag and a running minimum, skipping a matching row
   * without fare cells and stopping after the first one with cells.
   */
  method ScanRows(rows: seq<Row>, target: string) returns (r: PriceOutcome)
    ensures r == ScanOutcome(rows, target)
  {
    var targetFound := false;
    var minPrice: Option<real> := None;
    ghost var matching := MatchFlags(rows, target);
    for i := 0 to |rows|
      invariant targetFound <==> true in matching[..i]
      invariant forall j | 0 <= j < i :: !Priced(rows[j], target)
      invariant minPrice.None?
    {
      var number := rows[i].flightNumber;
      assert matching[..i + 1] == matching[..i] + [matching[i]];
      if number.None? {
        continue;
      }
      if Strip(number.value) == target {
        targetFound := true;
        var cells := rows[i].cells;
        if |cells| == 0 {
          continue;
        }
        minPrice := LowestFare(cells);
        ScanStopsAt(rows, target, i);
        break;
      }
    }
    if !targetFound {
      return FlightNotFound;
    }
    if minPrice.None? {
      return NoValidPrice;
    }
    return Price(minPrice.value);
  }

  /** When row `i` is the first that matches and has cells, the scan's outcome is that row's least fare. */
  lemma ScanStopsAt(rows: seq<Row>, target: string, i: nat)
    requires i < |rows| && Priced(rows[i], target)
    requires forall j | 0 <= j < i :: !Priced(rows[j], target)
    ensures ScanOutcome(rows, target) == match Least(Fares(rows[i].cells))
      case None => NoValidPrice
      case Some(v) => Price(v)
  {
    FirstTrueAt(PricedFlags(rows, target), i);
    assert MatchFlags(rows, target)[i];
  }

  /** The flight is reported missing exactly when no row's stripped flight number is the target. */
  lemma FlightNotFoundIffNoMatch(rows: seq<Row>, target: string)
    ensures ScanOutcome(rows, target) == FlightNotFound <==> forall j | 0 <= j < |rows| :: !Matches(rows[j], target)
  {
    var flags := MatchFlags(rows, target);
    if true in flags {
      var j :| 0 <= j < |flags| && flags[j];
      assert Matches(rows[j], target);
    }
  }

  /** `v` is the least of the fares: one of them, and none is smaller. */
  predicate IsLeast(fares: seq<Option<real>>, v: real) {
    && (exists k | 0 <= k < |fares| :: fares[k] == Some(v))
    && (forall k | 0 <= k < |fares| && fares[k].Some? :: v <= fares[k].value)
  }

  /** Row `i` is the first that matches the target and has fare cells. */
  predicate IsFirstPriced(rows: seq<Row>, target: string, i: nat) {
    i < |rows| && Priced(rows[i], target) && forall j | 0 <= j < i :: !Priced(rows[j], target)
  }

  /** The running minimum is `Some(v)` exactly when `v` is the least fare. */
  lemma LeastIff(fares: seq<Option<real>>, v: real)
    ensures Least(fares) == Some(v) <==> IsLeast(fares, v)
  {
    LeastIsMinimum(fares);
    if IsLeast(fares, v) {
      var k :| 0 <= k < |fares| && fares[k] == Some(v);
      var w :| 0 <= w < |fares| && fares[w] == Least(fares);
    }
  }

  /** `FirstPriced` finds the one row that is first with a match and fare cells. */
  lemma FirstPricedIff(rows: seq<Row>, target: string, i: nat)
    ensures FirstPriced(rows, target) == Some(i) <==> IsFirstPriced(rows, target, i)
  {
    if IsFirstPriced(rows, target, i) {
      var f := FirstPriced(rows, target);
      assert f.Some? by { assert !Priced(rows[i], target) ==> false; }
      assert !(f.value < i) && !(i < f.value);
    }
  }

  /**
   * A price is reported exactly when it is the least fare of the first matching row that has
   * fare cells: a fare some cell of that row yields, and no larger than any other it yields.
   */
  lemma PriceIsFirstPricedRowMinimum(rows: seq<Row>, target: string, v: real)
    ensures ScanOutcome(rows, target) == Price(v) <==>
      exists i | 0 <= i < |rows| :: IsFirstPriced(rows, target, i) && IsLeast(Fares(rows[i].cells), v)
  {
    var first := FirstPriced(rows, target);
    if first.Some? {
      var i := first.value;
      FirstPricedIff(rows, target, i);
      LeastIff(Fares(rows[i].cells), v);
      assert MatchFlags(rows, target)[i];
      if exists i' | 0 <= i' < |rows| :: IsFirstPriced(rows, target, i') && IsLeast(Fares(rows[i'].cells), v) {
        var i' :| 0 <= i' < |rows| && IsFirstPriced(rows, target, i') && IsLeast(Fares(rows[i'].cells), v);
        FirstPricedIff(rows, target, i');
      }
    }
  }

  /**
   * The flight is found but no price comes back exactly when some row matches and either no
   * matching row has fare cells or none of the first such row's cells yields a fare.
   */
  lemma NoValidPriceMeaning(rows: seq<Row>, target: string)
    ensures ScanOutcome(rows, target) == NoValidPrice <==>
      && (exists j | 0 <= j < |rows| :: Matches(rows[j], target))
      && (|| (forall j | 0 <= j < |rows| :: !Priced(rows[j], target))
          || (exists i | 0 <= i < |rows| ::
                IsFirstPriced(rows, target, i) && forall k | 0 <= k < |rows[i].cells| :: CellPrice(rows[i].cells[k]).None?))
  {
    FlightNotFoundIffNoMatch(rows, target);
    var first := FirstPriced(rows, target);
    if first.Some? {
      var i := first.value;
      FirstPricedIff(rows, target, i);
      LeastIsMinimum(Fares(rows[i].cells));
      if exists i' | 0 <= i' < |rows| ::
        IsFirstPriced(rows, target, i') && forall k | 0 <= k < |rows[i'].cells| :: CellPrice(rows[i'].cells[k]).None?
      {
        var i' :| 0 <= i' < |rows| &&
          IsFirstPriced(rows, target, i') && forall k | 0 <= k < |rows[i'].cells| :: CellPrice(rows[i'].cells[k]).None?;
        FirstPricedIff(rows, target, i');
      }
    }
  }

  /**
   * The scan stops at the first matching row that has fare cells: rows after it, duplicates of
   * the flight included, never change the outcome.
   */
  lemma LaterRowsIgnored(rows: seq<Row>, more: seq<Row>, target: string)
    requires exists i | 0 <= i < |rows| :: Priced(rows[i], target)
    ensures ScanOutcome(rows + more, target) == ScanOutcome(rows, target)
  {
    var all := rows + more;
    var i :| 0 <= i < |rows| && Priced(rows[i], target);
    var n := FirstPriced(rows, target).value;
    FirstPricedIff(rows, target, n);
    assert IsFirstPriced(all, target, n) by {
      assert forall j | 0 <= j <= n :: all[j] == rows[j];
    }
    FirstPricedIff(all, target, n);
    assert MatchFlags(rows, target)[n] && MatchFlags(all, target)[n];
    assert all[n] == rows[n];
  }

  /** Plain fare text: no whitespace, no yen sign, no comma. */
  predicate PlainFare(body: string) {
    NoSpace(body) && FullwidthYen !in body && Yen !in body && ',' !in body
  }

  /**
   * A fare written as a yen sign directly before its amount, with any whitespace around, is
   * cleaned down to the amount with its commas removed.
   */
  lemma CleanSignedAmount(before: string, sign: char, body: string, after: string)
    requires AllSpace(before) && AllSpace(after)
    requires sign == FullwidthYen || sign == Yen
    requires NoSpace(body) && FullwidthYen !in body && Yen !in body
    ensures CleanPriceText(before + [sign] + body + after) == Remove(body, ',')
  {
    var core := [sign] + body;
    assert before + [sign] + body + after == before + core + after;
    assert core[|core| - 1] == sign || core[|core| - 1] == body[|body| - 1];
    StripPadded(before, core, after);
    RemoveSign(sign, body);
    var bare := Remove(body, ',');
    RemoveKeepsNoSpace(body, ',');
    StripShape(bare);
  }

  /** Removing both yen signs from a sign followed by a sign-free amount leaves the amount. */
  lemma RemoveSign(sign: char, body: string)
    requires sign == FullwidthYen || sign == Yen
    requires FullwidthYen !in body && Yen !in body
    ensures Remove(Remove([sign] + body, FullwidthYen), Yen) == body
  {
    var head := Remove([sign], FullwidthYen);
    RemoveAppend([sign], body, FullwidthYen);
    RemoveAbsent(body, FullwidthYen);
    RemoveAppend(head, body, Yen);
    RemoveAbsent(body, Yen);
    assert Remove(head, Yen) == [];
  }

  /** Removing a character from whitespace-free text leaves whitespace-free text. */
  lemma RemoveKeepsNoSpace(s: string, c: char)
    requires NoSpace(s)
    ensures NoSpace(Remove(s, c))
  {
    var r := Remove(s, c);
    RemoveDrawsFromInput(s, c);
    forall k | 0 <= k < |r|
      ensures !IsSpace(r[k])
    {
      assert r[k] in s;
    }
  }

  /**
   * A fare written as a yen sign directly before its plain amount, with any whitespace around,
   * is cleaned down to exactly that amount.
   */
  lemma CleanSignedFare(before: string, sign: char, body: string, after: string)
    requires AllSpace(before) && AllSpace(after)
    requires sign == FullwidthYen || sign == Yen
    requires body != [] && PlainFare(body)
    ensures CleanPriceText(before + [sign] + body + after) == body
  {
    CleanSignedAmount(before, sign, body, after);
    RemoveAbsent(body, ',');
  }

  /**
   * A fare with a thousands separator, such as "￥1,234.50", is cleaned down to the amount
   * without it: the comma is dropped and the digit groups are joined.
   */
  lemma CleanGroupedFare(before: string, sign: char, high: string, low: string, after: string)
    requires AllSpace(before) && AllSpace(after)
    requires sign == FullwidthYen || sign == Yen
    requires PlainFare(high) && PlainFare(low)
    ensures CleanPriceText(before + [sign] + high + [','] + low + after) == high + low
  {
    var body := high + [','] + low;
    assert before + [sign] + high + [','] + low + after == before + [sign] + body + after;
    GroupedBodyShape(high, low);
    CleanSignedAmount(before, sign, body, after);
    RemoveSeparator(high, low);
  }

  /** Two plain digit groups joined by a comma hold no whitespace and no yen sign. */
  lemma GroupedBodyShape(high: string, low: string)
    requires PlainFare(high) && PlainFare(low)
    ensures var body := high + [','] + low;
      NoSpace(body) && FullwidthYen !in body && Yen !in body
  {
    var body := high + [','] + low;
    forall k | 0 <= k < |body|
      ensures body[k] == ',' || body[k] in high || body[k] in low
    {
      if k < |high| {
        assert body[k] == high[k];
      } else if k > |high| {
        assert body[k] == low[k - |high| - 1];
      }
    }
  }

  /** Dropping the comma between two comma-free groups joins them. */
  lemma RemoveSeparator(high: string, low: string)
    requires ',' !in high && ',' !in low
    ensures Remove(high + [','] + low, ',') == high + low
  {
    var comma: string := [','];
    var left := high + comma;
    RemoveAppend(left, low, ',');
    RemoveAppend(high, comma, ',');
    RemoveAbsent(high, ',');
    RemoveAbsent(low, ',');
    assert Remove(comma, ',') == [] by {
      assert comma[1..] == [];
    }
    assert Remove(left, ',') == high;
  }

  /** A visible cell showing a thousands-grouped fare yields the value of the joined digit groups. */
  lemma GroupedFareCell(before: string, sign: char, high: string, low: string, after: string, hover: Option<string>)
    requires AllSpace(before) && AllSpace(after)
    requires sign == FullwidthYen || sign == Yen
    requires PlainFare(high) && PlainFare(low)
    ensures CellPrice(Cell(Some(before + [sign] + high + [','] + low + after), hover)) == ParseDecimal(high + low)
  {
    var text := before + [sign] + high + [','] + low + after;
    assert HasYenSign(text) by { assert text[|before|] == sign; }
    CleanGroupedFare(before, sign, high, low, after);
  }

  /** The fare "￥1,234.50" is read as 1234.5. */
  lemma GroupedFareExample(hover: Option<string>)
    ensures CellPrice(Cell(Some("￥1,234.50"), hover)) == Some(1234.5)
  {
    ExampleParts();
    GroupedFareCell([], FullwidthYen, "1", "234.50", [], hover);
    ExampleValue();
  }

  lemma ExampleParts()
    ensures PlainFare("1") && PlainFare("234.50")
    ensures [] + [FullwidthYen] + "1" + [','] + "234.50" + [] == "￥1,234.50"
  {
  }

  lemma ExampleValue()
    ensures ParseDecimal("1" + "234.50") == Some(1234.5)
  {
    assert NatText(1234) == "1234" by {
      assert NatText(1) == "1";
      assert NatText(12) == "12";
      assert NatText(123) == "123";
    }
    assert "1" + "234.50" == CentsText(123450);
    ParseCentsText(123450);
  }

  lemma CentsTextPlain(cents: nat)
    ensures PlainFare(CentsText(cents))
  {
    var s := CentsText(cents);
    var w := NatText(cents / 100);
    assert s == w + ['.'] + [DigitChar(cents / 10 % 10), DigitChar(cents % 10)];
    assert forall k | 0 <= k < |s| :: IsDigit(s[k]) || s[k] == '.';
  }

  /** A cell showing "¥" and a two-decimal amount yields exactly that amount. */
  lemma SignedCentsCell(before: string, sign: char, cents: nat, after: string, hover: Option<string>)
    requires AllSpace(before) && AllSpace(after)
    requires sign == FullwidthYen || sign == Yen
    ensures CellPrice(Cell(Some(before + [sign] + CentsText(cents) + after), hover)) == Some(cents as real / 100.0)
  {
    var text := before + [sign] + CentsText(cents) + after;
    assert sign in text by { assert text[|before|] == sign; }
    CentsTextPlain(cents);
    CleanSignedFare(before, sign, CentsText(cents), after);
    ParseCentsText(cents);
  }

  /** Whitespace around the flight-number text does not stop a row from matching. */
  lemma MatchesPadded(before: string, number: string, after: string, cells: seq<Cell>)
    requires AllSpace(before) && AllSpace(after)
    requires number != [] && !IsSpace(number[0]) && !IsSpace(number[|number| - 1])
    ensures Matches(Row(Some(before + number + after), cells), number)
  {
    StripPadded(before, number, after);
  }

  /** A flight-number text without whitespace matches only a target equal to it, not a prefix of it. */
  lemma MatchesExactly(number: string, cells: seq<Cell>, target: string)
    requires NoSpace(number)
    ensures Matches(Row(Some(number), cells), target) <==> number == target
  {
    StripShape(number);
  }
}
