/** The frame drawn by `draw_rect`: for every cell of the inclusive rectangle
    [x1, x2] x [y1, y2], visited column by column and, inside a column, row by
    row, it picks one box-drawing glyph or none, and queues the glyph at that
    cell when there is one. */
module Rect {
  import opened Term

  /** The glyphs the `match` can pick; Blank stands for its empty string. */
  datatype Box = TopLeft | BottomLeft | TopRight | BottomRight | Vertical | Horizontal | Blank

  /** The string literal of each arm. */
  function Text(b: Box): (s: string)
    ensures |s| == 0 <==> b == Blank
  {
    match b
    case TopLeft => "┌"
    case BottomLeft => "└"
    case TopRight => "┐"
    case BottomRight => "┘"
    case Vertical => "│"
    case Horizontal => "─"
    case Blank => ""
  }

  predicate OnVerticalEdge(x1: U16, x2: U16, x: U16) {
    x == x1 || x == x2
  }

  predicate OnHorizontalEdge(y1: U16, y2: U16, y: U16) {
    y == y1 || y == y2
  }

  /** A cell of the first or last column, or of the first or last row. */
  predicate OnBorder(x1: U16, y1: U16, x2: U16, y2: U16, x: U16, y: U16) {
    OnVerticalEdge(x1, x2, x) || OnHorizontalEdge(y1, y2, y)
  }

  /** The guarded `match` of `draw_rect`: the four corners in the order
      (x1, y1), (x1, y2), (x2, y1), (x2, y2), then the vertical edges, then the
      horizontal edges, and the empty string for everything else. */
  function Glyph(x1: U16, y1: U16, x2: U16, y2: U16, x: U16, y: U16): (g: Box) {
    if x == x1 && y == y1 then TopLeft
    else if x == x1 && y == y2 then BottomLeft
    else if x == x2 && y == y1 then TopRight
    else if x == x2 && y == y2 then BottomRight
    else if x == x1 || x == x2 then Vertical
    else if y == y1 || y == y2 then Horizontal
    else Blank
  }

  /** What the `match` means: a glyph exactly on the border; a corner glyph
      where a vertical and a horizontal edge meet (when x1 == x2 or y1 == y2
      two corners coincide and the earlier arm wins); a vertical line on the
      rest of the first and last column and a horizontal line on the rest of
      the first and last row. */
  lemma GlyphChoice(x1: U16, y1: U16, x2: U16, y2: U16, x: U16, y: U16)
    ensures Glyph(x1, y1, x2, y2, x, y) != Blank <==> OnBorder(x1, y1, x2, y2, x, y)
    ensures OnVerticalEdge(x1, x2, x) && OnHorizontalEdge(y1, y2, y) ==>
      Glyph(x1, y1, x2, y2, x, y) ==
        (if x == x1 then (if y == y1 then TopLeft else BottomLeft)
         else (if y == y1 then TopRight else BottomRight))
    ensures Glyph(x1, y1, x2, y2, x, y) == Vertical <==>
      OnVerticalEdge(x1, x2, x) && !OnHorizontalEdge(y1, y2, y)
    ensures Glyph(x1, y1, x2, y2, x, y) == Horizontal <==>
      OnHorizontalEdge(y1, y2, y) && !OnVerticalEdge(x1, x2, x)
  {
  }

  /** What one cell contributes: its glyph, or nothing for the empty string. */
  function CellOps(x1: U16, y1: U16, x2: U16, y2: U16, x: U16, y: U16): (ops: seq<Op>) {
    var g := Glyph(x1, y1, x2, y2, x, y);
    if g != Blank then [Put(x, y, Text(g))] else []
  }

  /** The cells (x, y), (x, y + 1), ..., (x, y2) of one column. */
  function ColumnFrom(x1: U16, y1: U16, x2: U16, y2: U16, x: U16, y: nat): (ops: seq<Op>)
    decreases y2 + 1 - y
  {
    if y > y2 then [] else CellOps(x1, y1, x2, y2, x, y) + ColumnFrom(x1, y1, x2, y2, x, y + 1)
  }

  /** The columns x, x + 1, ..., x2, each from row y1. */
  function ColumnsFrom(x1: U16, y1: U16, x2: U16, y2: U16, x: nat): (ops: seq<Op>)
    decreases x2 + 1 - x
  {
    if x > x2 then [] else ColumnFrom(x1, y1, x2, y2, x, y1) + ColumnsFrom(x1, y1, x2, y2, x + 1)
  }

  /** Everything `draw_rect(x1, y1, x2, y2)` queues, in order. */
  function RectOps(x1: U16, y1: U16, x2: U16, y2: U16): (ops: seq<Op>) {
    ColumnsFrom(x1, y1, x2, y2, x1)
  }

  /** `op` draws a border cell of the rectangle with that cell's glyph. */
  predicate DrawsBorderCell(x1: U16, y1: U16, x2: U16, y2: U16, op: Op) {
    op.Put? && x1 <= op.x <= x2 && y1 <= op.y <= y2 &&
    OnBorder(x1, y1, x2, y2, op.x, op.y) && op.text == Text(Glyph(x1, y1, x2, y2, op.x, op.y))
  }

  /** `a` is drawn at a cell strictly before `b`'s in x-outer, y-inner order. */
  predicate Precedes(a: Op, b: Op) {
    a.Put? && b.Put? && (a.x < b.x || (a.x == b.x && a.y < b.y))
  }

  predicate InDrawOrder(ops: seq<Op>) {
    forall i, j :: 0 <= i < j < |ops| ==> Precedes(ops[i], ops[j])
  }

  /** The number of border cells of [x1, x2] x [y1, y2]. */
  function BorderCellCount(x1: U16, y1: U16, x2: U16, y2: U16): (n: nat) {
    if x2 < x1 || y2 < y1 then 0
    else if x1 == x2 then y2 - y1 + 1
    else if y1 == y2 then x2 - x1 + 1
    else 2 * (x2 - x1 + 1) + 2 * (y2 - y1 + 1) - 4
  }

  lemma ConcatInDrawOrder(a: seq<Op>, b: seq<Op>)
    requires InDrawOrder(a) && InDrawOrder(b)
    requires forall p, q :: p in a && q in b ==> Precedes(p, q)
    ensures InDrawOrder(a + b)
  {
    forall i, j | 0 <= i < j < |a + b| ensures Precedes((a + b)[i], (a + b)[j]) {
      if j < |a| {
        assert (a + b)[i] == a[i] && (a + b)[j] == a[j];
      } else if i >= |a| {
        assert (a + b)[i] == b[i - |a|] && (a + b)[j] == b[j - |a|];
      } else {
        assert (a + b)[i] in a && (a + b)[j] in b;
      }
    }
  }

  /** A cell drawn at (x, y) followed by cells drawn lower in column x. */
  lemma CellThenBelow(all: seq<Op>, cell: seq<Op>, rest: seq<Op>, x: int, y: int)
    requires all == cell + rest
    requires |cell| <= 1 && forall p :: p in cell ==> p.Put? && p.x == x && p.y == y
    requires InDrawOrder(rest) && forall q :: q in rest ==> InColumnFrom(q, x, y + 1)
    ensures InDrawOrder(all)
  {
    ConcatInDrawOrder(cell, rest);
  }

  /** A column x drawn in order followed by cells drawn right of it in order. */
  lemma ColumnThenRight(all: seq<Op>, column: seq<Op>, rest: seq<Op>, x: int, y: int)
    requires all == column + rest
    requires InDrawOrder(column) && forall p :: p in column ==> InColumnFrom(p, x, y)
    requires InDrawOrder(rest) && forall q :: q in rest ==> q.Put? && x + 1 <= q.x
    ensures InDrawOrder(all)
  {
    ConcatInDrawOrder(column, rest);
  }

  /** `op` is drawn in column x, at row y or below. */
  predicate InColumnFrom(op: Op, x: int, y: int) {
    op.Put? && op.x == x && y <= op.y
  }

  lemma {:induction false} ColumnFromPlaced(x1: U16, y1: U16, x2: U16, y2: U16, x: U16, y: nat)
    ensures forall op :: op in ColumnFrom(x1, y1, x2, y2, x, y) ==> InColumnFrom(op, x, y)
    decreases y2 + 1 - y
  {
    if y <= y2 {
      ColumnFromPlaced(x1, y1, x2, y2, x, y + 1);
      assert ColumnFrom(x1, y1, x2, y2, x, y)
        == CellOps(x1, y1, x2, y2, x, y) + ColumnFrom(x1, y1, x2, y2, x, y + 1);
    }
  }

  lemma {:induction false} ColumnsFromPlaced(x1: U16, y1: U16, x2: U16, y2: U16, x: nat)
    ensures forall op :: op in ColumnsFrom(x1, y1, x2, y2, x) ==> op.Put? && x <= op.x
    decreases x2 + 1 - x
  {
    if x <= x2 {
      var column, rest := ColumnFrom(x1, y1, x2, y2, x, y1), ColumnsFrom(x1, y1, x2, y2, x + 1);
      assert ColumnsFrom(x1, y1, x2, y2, x) == column + rest;
      ColumnFromPlaced(x1, y1, x2, y2, x, y1);
      ColumnsFromPlaced(x1, y1, x2, y2, x + 1);
      forall op: Op | op in column + rest
        ensures op.Put? && x <= op.x
      {
        if op !in column {
          assert op in rest;
        }
      }
    }
  }

  lemma {:induction false} ColumnFromSound(x1: U16, y1: U16, x2: U16, y2: U16, x: U16, y: nat)
    requires x1 <= x <= x2 && y1 <= y
    ensures forall op :: op in ColumnFrom(x1, y1, x2, y2, x, y) ==> DrawsBorderCell(x1, y1, x2, y2, op)
    decreases y2 + 1 - y
  {
    if y <= y2 {
      ColumnFromSound(x1, y1, x2, y2, x, y + 1);
      assert ColumnFrom(x1, y1, x2, y2, x, y)
        == CellOps(x1, y1, x2, y2, x, y) + ColumnFrom(x1, y1, x2, y2, x, y + 1);
    }
  }

  lemma {:induction false} ColumnFromOrdered(x1: U16, y1: U16, x2: U16, y2: U16, x: U16, y: nat)
    ensures InDrawOrder(ColumnFrom(x1, y1, x2, y2, x, y))
    decreases y2 + 1 - y
  {
    if y <= y2 {
      var cell, rest := CellOps(x1, y1, x2, y2, x, y), ColumnFrom(x1, y1, x2, y2, x, y + 1);
      ColumnFromOrdered(x1, y1, x2, y2, x, y + 1);
      ColumnFromPlaced(x1, y1, x2, y2, x, y + 1);
      CellThenBelow(ColumnFrom(x1, y1, x2, y2, x, y), cell, rest, x, y);
    }
  }

  lemma {:induction false} ColumnsFromSound(x1: U16, y1: U16, x2: U16, y2: U16, x: nat)
    requires x1 <= x
    ensures forall op :: op in ColumnsFrom(x1, y1, x2, y2, x) ==> DrawsBorderCell(x1, y1, x2, y2, op)
    decreases x2 + 1 - x
  {
    if x <= x2 {
      var column, rest := ColumnFrom(x1, y1, x2, y2, x, y1), ColumnsFrom(x1, y1, x2, y2, x + 1);
      assert ColumnsFrom(x1, y1, x2, y2, x) == column + rest;
      ColumnFromSound(x1, y1, x2, y2, x, y1);
      ColumnsFromSound(x1, y1, x2, y2, x + 1);
      forall op | op in column + rest
        ensures DrawsBorderCell(x1, y1, x2, y2, op)
      {
        if op !in column {
          assert op in rest;
        }
      }
    }
  }

  lemma {:induction false} ColumnsFromOrdered(x1: U16, y1: U16, x2: U16, y2: U16, x: nat)
    ensures InDrawOrder(ColumnsFrom(x1, y1, x2, y2, x))
    decreases x2 + 1 - x
  {
    if x <= x2 {
      ColumnsFromOrdered(x1, y1, x2, y2, x + 1);
      ColumnsFromOrderedStep(x1, y1, x2, y2, x);
    }
  }

  lemma ColumnsFromOrderedStep(x1: U16, y1: U16, x2: U16, y2: U16, x: nat)
    requires x <= x2 && InDrawOrder(ColumnsFrom(x1, y1, x2, y2, x + 1))
    ensures InDrawOrder(ColumnsFrom(x1, y1, x2, y2, x))
  {
    var column, rest := ColumnFrom(x1, y1, x2, y2, x, y1), ColumnsFrom(x1, y1, x2, y2, x + 1);
    ColumnFromOrdered(x1, y1, x2, y2, x, y1);
    ColumnFromPlaced(x1, y1, x2, y2, x, y1);
    ColumnsFromPlaced(x1, y1, x2, y2, x + 1);
    ColumnThenRight(ColumnsFrom(x1, y1, x2, y2, x), column, rest, x, y1);
  }

  lemma {:induction false} ColumnFromComplete(x1: U16, y1: U16, x2: U16, y2: U16, x: U16, y: nat, cy: U16)
    requires y <= cy <= y2 && OnBorder(x1, y1, x2, y2, x, cy)
    ensures Put(x, cy, Text(Glyph(x1, y1, x2, y2, x, cy))) in ColumnFrom(x1, y1, x2, y2, x, y)
    decreases cy - y
  {
    if y < cy {
      ColumnFromComplete(x1, y1, x2, y2, x, y + 1, cy);
    }
  }

  lemma ColumnsFromComplete(x1: U16, y1: U16, x2: U16, y2: U16, x: nat, cx: U16, cy: U16)
    requires x <= cx <= x2 && y1 <= cy <= y2 && OnBorder(x1, y1, x2, y2, cx, cy)
    ensures Put(cx, cy, Text(Glyph(x1, y1, x2, y2, cx, cy))) in ColumnsFrom(x1, y1, x2, y2, x)
  {
    var op := Put(cx, cy, Text(Glyph(x1, y1, x2, y2, cx, cy)));
    ColumnFromComplete(x1, y1, x2, y2, cx, y1, cy);
    ColumnInColumns(x1, y1, x2, y2, cx, op);
    LaterColumnsInColumns(x1, y1, x2, y2, x, cx, op);
  }

  /** What the columns from cx draw, the columns from any x <= cx draw. */
  lemma {:induction false} LaterColumnsInColumns(x1: U16, y1: U16, x2: U16, y2: U16, x: nat, cx: nat, op: Op)
    requires x <= cx <= x2 && op in ColumnsFrom(x1, y1, x2, y2, cx)
    ensures op in ColumnsFrom(x1, y1, x2, y2, x)
    decreases cx - x
  {
    if x < cx {
      LaterColumnsInColumns(x1, y1, x2, y2, x + 1, cx, op);
      LaterInColumns(x1, y1, x2, y2, x, op);
    }
  }

  /** What column x draws, the columns from x draw. */
  lemma ColumnInColumns(x1: U16, y1: U16, x2: U16, y2: U16, x: nat, op: Op)
    requires x <= x2 && op in ColumnFrom(x1, y1, x2, y2, x, y1)
    ensures op in ColumnsFrom(x1, y1, x2, y2, x)
  {
    var column, rest := ColumnFrom(x1, y1, x2, y2, x, y1), ColumnsFrom(x1, y1, x2, y2, x + 1);
    assert ColumnsFrom(x1, y1, x2, y2, x) == column + rest;
    InAppend(column, rest, op);
  }

  /** What the columns after x draw, the columns from x draw. */
  lemma LaterInColumns(x1: U16, y1: U16, x2: U16, y2: U16, x: nat, op: Op)
    requires x <= x2 && op in ColumnsFrom(x1, y1, x2, y2, x + 1)
    ensures op in ColumnsFrom(x1, y1, x2, y2, x)
  {
    var column, rest := ColumnFrom(x1, y1, x2, y2, x, y1), ColumnsFrom(x1, y1, x2, y2, x + 1);
    assert ColumnsFrom(x1, y1, x2, y2, x) == column + rest;
    InAppend(column, rest, op);
  }

  /** Every queued op draws a border cell inside the rectangle with its glyph,
      and the cells come in x-outer, y-inner order. */
  lemma RectOpsSound(x1: U16, y1: U16, x2: U16, y2: U16)
    ensures forall op :: op in RectOps(x1, y1, x2, y2) ==> DrawsBorderCell(x1, y1, x2, y2, op)
    ensures InDrawOrder(RectOps(x1, y1, x2, y2))
  {
    ColumnsFromSound(x1, y1, x2, y2, x1);
    ColumnsFromOrdered(x1, y1, x2, y2, x1);
  }

  /** The same, by position: the k-th op draws a border cell inside the rectangle. */
  lemma RectOpsWithin(x1: U16, y1: U16, x2: U16, y2: U16)
    ensures forall k :: 0 <= k < |RectOps(x1, y1, x2, y2)| ==>
      var op := RectOps(x1, y1, x2, y2)[k];
      op.Put? && x1 <= op.x <= x2 && y1 <= op.y <= y2 && OnBorder(x1, y1, x2, y2, op.x, op.y)
  {
    var ops := RectOps(x1, y1, x2, y2);
    RectOpsSound(x1, y1, x2, y2);
    forall k | 0 <= k < |ops|
      ensures ops[k].Put? && x1 <= ops[k].x <= x2 && y1 <= ops[k].y <= y2
      ensures OnBorder(x1, y1, x2, y2, ops[k].x, ops[k].y)
    {
      assert ops[k] in ops;
    }
  }

  /** Every border cell inside the rectangle is drawn, with its glyph. */
  lemma RectOpsComplete(x1: U16, y1: U16, x2: U16, y2: U16, x: U16, y: U16)
    requires x1 <= x <= x2 && y1 <= y <= y2 && OnBorder(x1, y1, x2, y2, x, y)
    ensures Put(x, y, Text(Glyph(x1, y1, x2, y2, x, y))) in RectOps(x1, y1, x2, y2)
  {
    ColumnsFromComplete(x1, y1, x2, y2, x1, x, y);
  }

  /** `a` and `b` draw two different cells. */
  predicate Distinct(a: Op, b: Op) {
    a.Put? && b.Put? && (a.x != b.x || a.y != b.y)
  }

  /** No cell is drawn twice. */
  lemma RectOpsAtMostOnce(x1: U16, y1: U16, x2: U16, y2: U16)
    ensures forall i, j :: 0 <= i < j < |RectOps(x1, y1, x2, y2)| ==>
      Distinct(RectOps(x1, y1, x2, y2)[i], RectOps(x1, y1, x2, y2)[j])
  {
    var ops := RectOps(x1, y1, x2, y2);
    RectOpsSound(x1, y1, x2, y2);
    forall i, j | 0 <= i < j < |ops|
      ensures Distinct(ops[i], ops[j])
    {
      assert Precedes(ops[i], ops[j]);
    }
  }

  /** The inclusive ranges are empty exactly when nothing is drawn. */
  lemma RectOpsEmpty(x1: U16, y1: U16, x2: U16, y2: U16)
    ensures RectOps(x1, y1, x2, y2) == [] <==> x2 < x1 || y2 < y1
  {
    if x1 <= x2 && y1 <= y2 {
      RectOpsComplete(x1, y1, x2, y2, x1, y1);
    } else if x1 <= x2 {
      NoRowsEmpty(x1, y1, x2, y2, x1);
    }
  }

  lemma {:induction false} NoRowsEmpty(x1: U16, y1: U16, x2: U16, y2: U16, x: nat)
    requires y2 < y1
    ensures ColumnsFrom(x1, y1, x2, y2, x) == []
    decreases x2 + 1 - x
  {
    if x <= x2 {
      NoRowsEmpty(x1, y1, x2, y2, x + 1);
    }
  }

  lemma {:induction false} EdgeColumnLength(x1: U16, y1: U16, x2: U16, y2: U16, x: U16, y: nat)
    requires OnVerticalEdge(x1, x2, x) && y <= y2 + 1
    ensures |ColumnFrom(x1, y1, x2, y2, x, y)| == y2 + 1 - y
    decreases y2 + 1 - y
  {
    if y <= y2 {
      EdgeColumnLength(x1, y1, x2, y2, x, y + 1);
    }
  }

  lemma {:induction false} InnerColumnLength(x1: U16, y1: U16, x2: U16, y2: U16, x: U16, y: nat)
    requires !OnVerticalEdge(x1, x2, x) && y1 < y <= y2 + 1
    ensures |ColumnFrom(x1, y1, x2, y2, x, y)| == if y <= y2 then 1 else 0
    decreases y2 + 1 - y
  {
    if y <= y2 {
      InnerColumnLength(x1, y1, x2, y2, x, y + 1);
    }
  }

  lemma {:induction false} ColumnsFromLength(x1: U16, y1: U16, x2: U16, y2: U16, x: nat)
    requires x1 < x <= x2 + 1 && y1 <= y2
    ensures |ColumnsFrom(x1, y1, x2, y2, x)| ==
      if x > x2 then 0
      else if y1 == y2 then x2 - x + 1
      else 2 * (x2 - x) + (y2 - y1 + 1)
    decreases x2 + 1 - x
  {
    if x <= x2 {
      ColumnsFromLength(x1, y1, x2, y2, x + 1);
      if x == x2 {
        EdgeColumnLength(x1, y1, x2, y2, x, y1);
      } else {
        InnerColumnLength(x1, y1, x2, y2, x, y1 + 1);
      }
    }
  }

  /** `draw_rect` queues one op per border cell. */
  lemma RectOpsCount(x1: U16, y1: U16, x2: U16, y2: U16)
    ensures |RectOps(x1, y1, x2, y2)| == BorderCellCount(x1, y1, x2, y2)
  {
    if x1 <= x2 && y1 <= y2 {
      EdgeColumnLength(x1, y1, x2, y2, x1, y1);
      ColumnsFromLength(x1, y1, x2, y2, x1 + 1);
    } else {
      RectOpsEmpty(x1, y1, x2, y2);
    }
  }

  /** A 1 x 1 rectangle draws only the top-left corner. */
  lemma SingleCellRect(x: U16, y: U16)
    ensures RectOps(x, y, x, y) == [Put(x, y, Text(TopLeft))]
  {
    RectOpsCount(x, y, x, y);
    RectOpsComplete(x, y, x, y, x, y);
  }

  lemma SplitColumn(ops: seq<Op>, x1: U16, y1: U16, x2: U16, y2: U16, x: U16, y: U16)
    requires y <= y2
    ensures ops + ColumnFrom(x1, y1, x2, y2, x, y) ==
      (ops + CellOps(x1, y1, x2, y2, x, y)) + ColumnFrom(x1, y1, x2, y2, x, y + 1)
  {
    var cell, rest := CellOps(x1, y1, x2, y2, x, y), ColumnFrom(x1, y1, x2, y2, x, y + 1);
    assert ColumnFrom(x1, y1, x2, y2, x, y) == cell + rest;
    AppendAssoc(ops, cell, rest);
  }

  lemma SplitColumns(ops: seq<Op>, x1: U16, y1: U16, x2: U16, y2: U16, x: U16)
    requires x <= x2
    ensures ops + ColumnsFrom(x1, y1, x2, y2, x) ==
      (ops + ColumnFrom(x1, y1, x2, y2, x, y1)) + ColumnsFrom(x1, y1, x2, y2, x + 1)
  {
    var column, rest := ColumnFrom(x1, y1, x2, y2, x, y1), ColumnsFrom(x1, y1, x2, y2, x + 1);
    assert ColumnsFrom(x1, y1, x2, y2, x) == column + rest;
    AppendAssoc(ops, column, rest);
  }

  lemma InAppend(a: seq<Op>, b: seq<Op>, op: Op)
    ensures op in a + b <==> op in a || op in b
  {
  }

  lemma AppendAssoc(a: seq<Op>, b: seq<Op>, c: seq<Op>)
    ensures a + (b + c) == (a + b) + c
  {
  }

  /** The nested `for x in x1..=x2 { for y in y1..=y2 { ... } }` of
      `draw_rect`, returning what it queues. */
  method DrawRect(x1: U16, y1: U16, x2: U16, y2: U16) returns (ops: seq<Op>)
    ensures ops == RectOps(x1, y1, x2, y2)
  {
    ops := [];
    var x: nat := x1;
    while x <= x2
      invariant x1 <= x && (x <= x2 + 1 || x == x1)
      invariant ops + ColumnsFrom(x1, y1, x2, y2, x) == RectOps(x1, y1, x2, y2)
    {
      ghost var before := ops;
      var y: nat := y1;
      while y <= y2
        invariant y1 <= y && (y <= y2 + 1 || y == y1)
        invariant ops + ColumnFrom(x1, y1, x2, y2, x, y) == before + ColumnFrom(x1, y1, x2, y2, x, y1)
      {
        var c := Text(Glyph(x1, y1, x2, y2, x, y));
        ghost var pre := ops;
        if c != "" {
          ops := ops + [Put(x, y, c)];
        }
        assert ops == pre + CellOps(x1, y1, x2, y2, x, y);
        SplitColumn(pre, x1, y1, x2, y2, x, y);
        y := y + 1;
      }
      assert ColumnFrom(x1, y1, x2, y2, x, y) == [];
      assert ops == before + ColumnFrom(x1, y1, x2, y2, x, y1);
      SplitColumns(before, x1, y1, x2, y2, x);
      x := x + 1;
    }
    assert ops + [] == ops;
  }
}
