/** One full redraw, `draw`: clamp the terminal size, clear the screen, draw
    the frame, list the working directory one entry per row, flush. */
module Screen {
  import opened Term
  import Rect

  /** The largest frame drawn, in columns and rows. */
  const MaxWidth: U16 := 120
  const MaxHeight: U16 := 20

  /** Where the directory listing starts. */
  const ListColumn: U16 := 2
  const FirstRow: U16 := 1

  /** The row counter is a `u16` starting at FirstRow, so this many entries
      can be drawn before incrementing it overflows. */
  const RowLimit := 0xFFFF

  /** What `crossterm::terminal::size()` reports: columns and rows, or an error. */
  datatype SizeReport = Size(columns: U16, rows: U16) | SizeError

  /** How a call of `draw` ends: normally, with the size query's error
      propagated before anything is written, or with the panic of an
      overflowing row counter (checked arithmetic). */
  datatype Status = Drawn | SizeFailed | RowOverflow

  /** A `(u16, u16)` size: columns, then rows. */
  datatype Dims = Dims(columns: U16, rows: U16)

  /** The terminal size clamped component-wise to (MaxWidth, MaxHeight). */
  function EffectiveSize(columns: U16, rows: U16): (s: Dims)
    ensures s.columns <= MaxWidth && s.columns <= columns
    ensures s.columns == MaxWidth || s.columns == columns
    ensures s.rows <= MaxHeight && s.rows <= rows
    ensures s.rows == MaxHeight || s.rows == rows
  {
    Dims(Min(columns, MaxWidth), Min(rows, MaxHeight))
  }

  /** A directory entry read from `fs::read_dir("./")` has the path
      "./" joined with its name, and that path is the text drawn. */
  function EntryPath(name: string): (path: string) {
    "./" + name
  }

  /** What the listing loop queues for `names`, one entry per row. */
  function ListOps(names: seq<string>): (ops: seq<Op>)
    requires |names| <= RowLimit
    decreases |names|
  {
    if names == [] then []
    else ListOps(names[..|names| - 1]) + [Put(ListColumn, |names|, EntryPath(names[|names| - 1]))]
  }

  /** The i-th entry, in enumeration order, is drawn at column 2, row 1 + i:
      nothing is filtered, reordered or cut off. */
  lemma {:induction false} ListOpsLayout(names: seq<string>)
    requires |names| <= RowLimit
    ensures |ListOps(names)| == |names|
    ensures forall i :: 0 <= i < |names| ==>
      ListOps(names)[i] == Put(ListColumn, FirstRow + i, EntryPath(names[i]))
    decreases |names|
  {
    if names != [] {
      var init := names[..|names| - 1];
      ListOpsLayout(init);
      assert forall i :: 0 <= i < |init| ==> init[i] == names[i];
    }
  }

  lemma ListOpsAt(names: seq<string>, i: nat)
    requires |names| <= RowLimit && i < |names|
    ensures |ListOps(names)| == |names|
    ensures ListOps(names)[i] == Put(ListColumn, FirstRow + i, EntryPath(names[i]))
  {
    ListOpsLayout(names);
  }

  /** The frame of one redraw: the clamped rectangle from (0, 0). */
  function BorderOps(columns: U16, rows: U16): (ops: seq<Op>) {
    var s := EffectiveSize(columns, rows);
    Rect.RectOps(0, 0, s.columns, s.rows)
  }

  /** Everything a redraw that ends normally writes. */
  function Frame(columns: U16, rows: U16, names: seq<string>): (ops: seq<Op>)
    requires |names| < RowLimit
  {
    [Clear] + BorderOps(columns, rows) + ListOps(names) + [Flush]
  }

  /** The listing loop: `y` starts at 1 and is incremented after every entry;
      the increment that would pass `u16::MAX` panics. */
  method DrawList(names: seq<string>) returns (ops: seq<Op>, overflow: bool)
    ensures overflow <==> |names| >= RowLimit
    ensures overflow ==> ops == ListOps(names[..RowLimit])
    ensures !overflow ==> ops == ListOps(names)
  {
    ops := [];
    overflow := false;
    var y: U16 := FirstRow;
    var i := 0;
    while i < |names|
      invariant 0 <= i <= |names| && i < RowLimit
      invariant y == FirstRow + i
      invariant ops == ListOps(names[..i])
    {
      assert names[..i + 1][..i] == names[..i];
      ops := ops + [Put(ListColumn, y, EntryPath(names[i]))];
      if y == 0xFFFF {
        overflow := true;
        return;
      }
      y := y + 1;
      i := i + 1;
    }
    assert names[..i] == names;
  }

  /** `draw`: query the size, clamp it, clear, draw the frame and the listing,
      flush. `names` stands for what `fs::read_dir("./")` enumerates. */
  method Draw(size: SizeReport, names: seq<string>) returns (ops: seq<Op>, status: Status)
    ensures status == SizeFailed <==> size.SizeError?
    ensures status == RowOverflow <==> size.Size? && |names| >= RowLimit
    ensures size.SizeError? ==> ops == []
    ensures status == Drawn ==> ops == Frame(size.columns, size.rows, names)
    ensures status == RowOverflow ==>
      ops == [Clear] + BorderOps(size.columns, size.rows) + ListOps(names[..RowLimit])
  {
    if size.SizeError? {
      return [], SizeFailed;
    }
    var s := EffectiveSize(size.columns, size.rows);
    ops := [Clear];
    var border := Rect.DrawRect(0, 0, s.columns, s.rows);
    ops := ops + border;
    var list, overflow := DrawList(names);
    ops := ops + list;
    if overflow {
      return ops, RowOverflow;
    }
    ops := ops + [Flush];
    status := Drawn;
  }

  /** The number of cells on the border of the clamped rectangle. */
  function BorderCells(columns: U16, rows: U16): (n: nat) {
    var s := EffectiveSize(columns, rows);
    Rect.BorderCellCount(0, 0, s.columns, s.rows)
  }

  /** `op` draws a border cell of the clamped rectangle. */
  predicate InFrame(columns: U16, rows: U16, op: Op) {
    var s := EffectiveSize(columns, rows);
    op.Put? && op.x <= s.columns && op.y <= s.rows && Rect.OnBorder(0, 0, s.columns, s.rows, op.x, op.y)
  }

  /** Positions in a sequence of the shape [first] + mid + tail + [last]. */
  lemma Sandwich(first: Op, mid: seq<Op>, tail: seq<Op>, last: Op)
    ensures |[first] + mid + tail + [last]| == |mid| + |tail| + 2
    ensures ([first] + mid + tail + [last])[0] == first
    ensures ([first] + mid + tail + [last])[|mid| + |tail| + 1] == last
    ensures forall k :: 1 <= k <= |mid| ==> ([first] + mid + tail + [last])[k] == mid[k - 1]
    ensures forall i :: 0 <= i < |tail| ==> ([first] + mid + tail + [last])[1 + |mid| + i] == tail[i]
  {
  }

  /** The border of a redraw has one op per border cell of the clamped rectangle. */
  lemma BorderOpsCount(columns: U16, rows: U16)
    ensures |BorderOps(columns, rows)| == BorderCells(columns, rows)
  {
    var s := EffectiveSize(columns, rows);
    Rect.RectOpsCount(0, 0, s.columns, s.rows);
  }

  /** Every op of the border of a redraw draws a border cell of the clamped rectangle. */
  lemma BorderOpsWithin(columns: U16, rows: U16)
    ensures forall k :: 0 <= k < |BorderOps(columns, rows)| ==> InFrame(columns, rows, BorderOps(columns, rows)[k])
  {
    var s := EffectiveSize(columns, rows);
    Rect.RectOpsWithin(0, 0, s.columns, s.rows);
  }

  /** Where the parts of a normal redraw sit. */
  lemma FrameShape(columns: U16, rows: U16, names: seq<string>)
    requires |names| < RowLimit
    ensures |Frame(columns, rows, names)| == |BorderOps(columns, rows)| + |names| + 2
    ensures Frame(columns, rows, names)[0] == Clear
    ensures Frame(columns, rows, names)[|Frame(columns, rows, names)| - 1] == Flush
    ensures forall k :: 1 <= k <= |BorderOps(columns, rows)| ==>
      Frame(columns, rows, names)[k] == BorderOps(columns, rows)[k - 1]
  {
    ListOpsLayout(names);
    Sandwich(Clear, BorderOps(columns, rows), ListOps(names), Flush);
  }

  lemma SandwichAt(first: Op, mid: seq<Op>, tail: seq<Op>, last: Op, i: nat)
    requires i < |tail|
    ensures |[first] + mid + tail + [last]| == |mid| + |tail| + 2
    ensures ([first] + mid + tail + [last])[1 + |mid| + i] == tail[i]
  {
  }

  lemma SandwichTail(first: Op, mid: seq<Op>, tail: seq<Op>, last: Op)
    ensures ([first] + mid + tail + [last])[1 + |mid|..|mid| + |tail| + 1] == tail
  {
    assert forall i :: 0 <= i < |tail| ==>
      ([first] + mid + tail + [last])[1 + |mid|..|mid| + |tail| + 1][i] == tail[i];
  }

  /** The parts of a normal redraw: a Clear, then one op per border cell of
      the clamped rectangle, each inside it, then the listing, and a Flush at
      the end. */
  lemma FrameBorder(columns: U16, rows: U16, names: seq<string>)
    requires |names| < RowLimit
    ensures |Frame(columns, rows, names)| == BorderCells(columns, rows) + |names| + 2
    ensures Frame(columns, rows, names)[0] == Clear
    ensures Frame(columns, rows, names)[|Frame(columns, rows, names)| - 1] == Flush
    ensures forall k :: 1 <= k <= BorderCells(columns, rows) ==>
      InFrame(columns, rows, Frame(columns, rows, names)[k])
    ensures Frame(columns, rows, names)[1 + BorderCells(columns, rows)..|Frame(columns, rows, names)| - 1]
      == ListOps(names)
  {
    FrameShape(columns, rows, names);
    BorderOpsCount(columns, rows);
    BorderOpsWithin(columns, rows);
    SandwichTail(Clear, BorderOps(columns, rows), ListOps(names), Flush);
  }

  /** The listing part of a normal redraw: after the Clear and the border,
      the i-th entry is drawn at column 2, row 1 + i. */
  lemma FrameEntry(columns: U16, rows: U16, names: seq<string>, i: nat)
    requires |names| < RowLimit && i < |names|
    ensures |Frame(columns, rows, names)| == |BorderOps(columns, rows)| + |names| + 2
    ensures Frame(columns, rows, names)[1 + |BorderOps(columns, rows)| + i]
      == Put(ListColumn, FirstRow + i, EntryPath(names[i]))
  {
    var border, list := BorderOps(columns, rows), ListOps(names);
    assert Frame(columns, rows, names) == [Clear] + border + list + [Flush];
    ListOpsAt(names, i);
    SandwichAt(Clear, border, list, Flush, i);
  }
}
