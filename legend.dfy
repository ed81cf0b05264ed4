/** The legend grid (app.js lines 112-149): one item per distinct category, laid
    out row by row, `Math.floor(legendWidth / 150)` items to a row, each item
    translated to `(column * 150, row * 15 + 10 * row)`. */
module Legend {
  import opened Wrappers
  import Categories

  /** Horizontal distance between the starts of neighbouring items in a row. */
  const HSpacing: int := 150
  /** Side of an item's colour swatch. */
  const RectSize: int := 15
  /** Vertical gap between one row's swatches and the next row's. */
  const VSpacing: int := 10

  /** The x of the translate of the group holding all legend items. */
  const GroupX: int := 60

  /** Vertical distance between the starts of neighbouring rows. */
  const RowPitch: int := RectSize + VSpacing

  /** The translate of one legend item's group. */
  datatype Translate = Translate(x: int, y: int)

  /** One entry of the legend: the category it names (`None` for the `undefined`
      category of a leaf that has none) and its translate (`None` for the NaN or
      Infinity coordinates the script computes when no item fits on a row). */
  datatype LegendItem = LegendItem(category: Option<string>, translate: Option<Translate>)

  /** `Math.floor(legendWidth / LEGEND_H_SPACING)`. */
  function ElemsPerRow(legendWidth: real): (perRow: int)
    ensures (perRow * HSpacing) as real <= legendWidth < ((perRow + 1) * HSpacing) as real
  {
    (legendWidth / HSpacing as real).Floor
  }

  /** `Math.floor(a / b)`. Dafny's `/` rounds down when the divisor is positive. */
  function FloorDiv(a: int, b: int): (r: int)
    requires b != 0
    ensures b > 0 ==> b * r <= a < b * r + b
    ensures b < 0 ==> b * r + b < a <= b * r
  {
    if b > 0 then a / b else (-a) / (-b)
  }

  /** JavaScript's `a % b`: the remainder of division truncated toward zero. It takes
      the sign of `a`, so for the item indices, which are never negative, it is the
      remainder modulo `|b|`. */
  function TruncRem(a: nat, b: int): (r: int)
    requires b != 0
    ensures var m := if b > 0 then b else -b; 0 <= r < m && a == m * (a / m) + r
  {
    if b > 0 then a % b else a % -b
  }

  /** The translate the script gives item `i` of the legend (app.js lines 132-135).
      With no item to a row, `i % 0` is NaN and `Math.floor(i / 0)` is Infinity (NaN
      for `i == 0`) in JavaScript: the result is `None`. */
  function ItemTranslate(i: nat, perRow: int): (r: Option<Translate>)
    ensures r.None? <==> perRow == 0
  {
    if perRow == 0 then None
    else
      var row := FloorDiv(i, perRow);
      Some(Translate(TruncRem(i, perRow) * HSpacing, row * RectSize + VSpacing * row))
  }

  /** The legend the script draws: the de-duplicated leaf categories, item `i` at
      the translate of index `i`. */
  function LegendItems(leafCategories: seq<Option<string>>, legendWidth: real): seq<LegendItem> {
    var categories := Categories.Dedupe(leafCategories);
    var perRow := ElemsPerRow(legendWidth);
    seq(|categories|, i requires 0 <= i < |categories| => LegendItem(categories[i], ItemTranslate(i, perRow)))
  }

  /** The categories a legend names, in order. */
  function ItemCategories(items: seq<LegendItem>): seq<Option<string>> {
    seq(|items|, i requires 0 <= i < |items| => items[i].category)
  }

  /** `t` is the row-major cell of item `i` in a grid of `perRow` columns: a whole
      column inside the row and a whole row, which together give back `i`. */
  predicate AtCell(t: Translate, i: nat, perRow: int) {
    && t.x % HSpacing == 0 && 0 <= t.x <= (perRow - 1) * HSpacing
    && t.y % RowPitch == 0 && 0 <= t.y
    && i == (t.y / RowPitch) * perRow + t.x / HSpacing
  }

  /** Two items' cells, `HSpacing` wide and `RowPitch` tall, do not overlap. */
  predicate Apart(t: Translate, u: Translate) {
    t.x - u.x >= HSpacing || u.x - t.x >= HSpacing || t.y - u.y >= RowPitch || u.y - t.y >= RowPitch
  }

  /** At least one item fits on a row exactly when the legend is at least 150 wide,
      and none fits when it is narrower but not negative. (That a row fills the
      width without overrunning it is `ElemsPerRow`'s own contract.) */
  lemma ElemsPerRowBounds(legendWidth: real)
    ensures ElemsPerRow(legendWidth) >= 1 <==> legendWidth >= HSpacing as real
    ensures ElemsPerRow(legendWidth) == 0 <==> 0.0 <= legendWidth < HSpacing as real
  {
  }

  /** Division with a remainder in `[0, p)` has one answer. */
  lemma DivModUnique(a: int, p: int, q: int, c: int)
    requires p >= 1 && 0 <= c < p && a == q * p + c
    ensures a / p == q && a % p == c
  {
    var q', c' := a / p, a % p;
    if q' < q {
      MulMonotone(q' + 1, q, p);
    } else if q < q' {
      MulMonotone(q + 1, q', p);
    }
  }

  /** Multiplying by a non-negative factor keeps the order. */
  lemma MulMonotone(x: int, y: int, p: int)
    requires x <= y && p >= 0
    ensures x * p <= y * p
  {
  }

  /** With at least one item to a row, item `i` is placed in row-major order: its
      translate is a whole column and a whole row, the column lies within the row,
      and column and row give back `i`. */
  lemma ItemPlacement(i: nat, perRow: int)
    requires perRow >= 1
    ensures ItemTranslate(i, perRow).Some?
    ensures AtCell(ItemTranslate(i, perRow).value, i, perRow)
  {
    var row, col := i / perRow, i % perRow;
    assert FloorDiv(i, perRow) == row && TruncRem(i, perRow) == col;
    var t := ItemTranslate(i, perRow).value;
    assert t.x == col * HSpacing && t.y == row * RowPitch;
    DivModUnique(t.x, HSpacing, col, 0);
    DivModUnique(t.y, RowPitch, row, 0);
  }

  /** Distinct items never share a cell: they sit at least a column or a row apart. */
  lemma ItemsApart(i: nat, j: nat, perRow: int)
    requires perRow >= 1 && i != j
    ensures ItemTranslate(i, perRow).Some? && ItemTranslate(j, perRow).Some?
    ensures Apart(ItemTranslate(i, perRow).value, ItemTranslate(j, perRow).value)
  {
    var ri, ci, rj, cj := i / perRow, i % perRow, j / perRow, j % perRow;
    assert FloorDiv(i, perRow) == ri && TruncRem(i, perRow) == ci;
    assert FloorDiv(j, perRow) == rj && TruncRem(j, perRow) == cj;
    // Row and column determine the index, so distinct items differ in one of them.
    assert ri != rj || ci != cj;
  }

  /** The item after `i` is one column to the right on the same row when the row has
      room for it, and otherwise at the start of the next row. */
  lemma NextItem(i: nat, perRow: int)
    requires perRow >= 1
    ensures ItemTranslate(i, perRow).Some? && ItemTranslate(i + 1, perRow).Some?
    ensures var t, u := ItemTranslate(i, perRow).value, ItemTranslate(i + 1, perRow).value;
      if t.x + HSpacing < perRow * HSpacing then u == Translate(t.x + HSpacing, t.y)
      else u == Translate(0, t.y + RowPitch)
  {
    var row, col := i / perRow, i % perRow;
    if col + 1 < perRow {
      DivModUnique(i + 1, perRow, row, col + 1);
    } else {
      DivModUnique(i + 1, perRow, row + 1, 0);
    }
  }

  /** With the legend at least 150 wide, every item is placed, to the right of the
      item group's origin and below it, and its cell ends within `legendWidth`
      measured from that origin. The group itself sits `GroupX` to the right in the
      legend, which the choice of `perRow` does not account for. */
  lemma ItemFitsWidth(i: nat, legendWidth: real)
    requires legendWidth >= HSpacing as real
    ensures ItemTranslate(i, ElemsPerRow(legendWidth)).Some?
    ensures var t := ItemTranslate(i, ElemsPerRow(legendWidth)).value;
      0 <= t.x && 0 <= t.y && (t.x + HSpacing) as real <= legendWidth
  {
    ElemsPerRowBounds(legendWidth);
    ItemPlacement(i, ElemsPerRow(legendWidth));
  }

  /** The legend names every leaf category once, in order of first occurrence, and
      nothing else. When it is at least 150 wide, item `i` sits in the `i`-th cell of
      the row-major grid, the cells are pairwise disjoint, and each ends within
      `legendWidth` measured from the item group's origin. When it is narrower (and
      not negative), no item gets a valid translate. */
  lemma LegendLayout(leafCategories: seq<Option<string>>, legendWidth: real)
    ensures var items := LegendItems(leafCategories, legendWidth);
      && Categories.Distinct(ItemCategories(items))
      && (forall c :: c in ItemCategories(items) <==> c in leafCategories)
      && |items| <= |leafCategories|
      && (forall i, j :: 0 <= i < j < |items| ==>
            Categories.IndexOf(leafCategories, items[i].category) < Categories.IndexOf(leafCategories, items[j].category))
    ensures var items := LegendItems(leafCategories, legendWidth);
      legendWidth >= HSpacing as real ==>
        && (forall i :: 0 <= i < |items| ==>
              (&& items[i].translate.Some?
               && AtCell(items[i].translate.value, i, ElemsPerRow(legendWidth))
               && 0 <= items[i].translate.value.x && 0 <= items[i].translate.value.y
               && (items[i].translate.value.x + HSpacing) as real <= legendWidth))
        && (forall i, j :: 0 <= i < j < |items| ==> Apart(items[i].translate.value, items[j].translate.value))
    ensures var items := LegendItems(leafCategories, legendWidth);
      0.0 <= legendWidth < HSpacing as real ==> forall i :: 0 <= i < |items| ==> items[i].translate.None?
  {
    var items := LegendItems(leafCategories, legendWidth);
    var categories := Categories.Dedupe(leafCategories);
    assert ItemCategories(items) == categories;
    Categories.DedupeDistinct(leafCategories);
    Categories.DedupeSameElements(leafCategories);
    Categories.DedupeLength(leafCategories);
    Categories.DedupeFirstOccurrenceOrder(leafCategories);
    ElemsPerRowBounds(legendWidth);
    if legendWidth >= HSpacing as real {
      var perRow := ElemsPerRow(legendWidth);
      forall i | 0 <= i < |items|
        ensures items[i].translate.Some?
        ensures AtCell(items[i].translate.value, i, perRow)
        ensures 0 <= items[i].translate.value.x && 0 <= items[i].translate.value.y
        ensures (items[i].translate.value.x + HSpacing) as real <= legendWidth
      {
        ItemFitsWidth(i, legendWidth);
        ItemPlacement(i, perRow);
      }
      forall i, j | 0 <= i < j < |items| ensures Apart(items[i].translate.value, items[j].translate.value) {
        ItemsApart(i, j, perRow);
      }
    }
  }

  /** In the legend's own coordinates the item group is shifted by `GroupX`, which
      `ElemsPerRow` ignores: in a legend 900 wide the row holds 6 items, and the last
      one's cell ends at 960, past the legend's edge. */
  lemma GroupOffsetOverrunsWidth()
    ensures ElemsPerRow(900.0) == 6
    ensures ItemTranslate(5, 6) == Some(Translate(750, 0))
    ensures GroupX + 750 + HSpacing > 900
  {
  }
}
