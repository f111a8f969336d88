/**
  How the talker grid groups its cells into rows of three.

  The handler keeps a row counter (`div_count`) next to the position counter.
  The counter is bumped before each cell; a row opens when it reaches 1 and
  closes, resetting the counter, when it reaches 3. Only this open/close
  structure is modelled, not the markup text of the cells.
 */
module TalkerGrid {

  /** The structure of the grid's markup: row openings, cells and row closings. */
  datatype Token<T> = OpenRow | Cell(item: T) | CloseRow

  /**
    The tokens around the cell at 1-based position k, stated by position:
    a row opens before positions 1, 4, 7, ... and closes after 3, 6, 9, ...
   */
  function Segment<T>(k: nat, x: T): seq<Token<T>>
  {
    (if k % 3 == 1 then [OpenRow] else []) + [Cell(x)] + (if k % 3 == 0 then [CloseRow] else [])
  }

  /** The grid's tokens by position: each item wrapped as its position demands. */
  function Layout<T>(items: seq<T>): seq<Token<T>>
    decreases |items|
  {
    if |items| == 0 then []
    else Layout(items[..|items| - 1]) + Segment(|items|, items[|items| - 1])
  }

  /** The row counter after a cell and the tokens that cell emits. */
  datatype Step<T> = Step(divCount: nat, tokens: seq<Token<T>>)

  /**
    One cell of the handler's row bookkeeping: bump the counter, open a row
    when it is 1, emit the cell, close the row and reset when it is 3. A
    counter at d behaves exactly like the item at position d + 1.
   */
  function RowStep<T>(divCount: nat, x: T): (s: Step<T>)
    requires divCount < 3
    ensures s.divCount < 3
    ensures s.divCount == (divCount + 1) % 3
    ensures s.tokens == Segment(divCount + 1, x)
  {
    var d := divCount + 1;
    var open := if d == 1 then [OpenRow] else [];
    var close := if d == 3 then [CloseRow] else [];
    Step(if d == 3 then 0 else d, open + [Cell(x)] + close)
  }

  /** A counter equal to the number of cells so far modulo 3 steps like the next position. */
  lemma CounterTracksPosition<T>(divCount: nat, k: nat, x: T)
    requires divCount == k % 3
    ensures (divCount + 1) % 3 == (k + 1) % 3
    ensures Segment(divCount + 1, x) == Segment(k + 1, x)
  {
    var q := k / 3;
    assert k == 3 * q + divCount;
    assert (k + 1) % 3 == (divCount + 1) % 3;
  }

  /**
    The handler's row grouping as a fold of `RowStep` from a zero counter.
    The counter always equals the number of cells modulo 3, and the tokens
    are those of the position-based layout.
   */
  function Grouping<T>(items: seq<T>): (s: Step<T>)
    ensures s.divCount < 3
    ensures s.divCount == |items| % 3
    ensures s.tokens == Layout(items)
    decreases |items|
  {
    if |items| == 0 then
      Step(0, [])
    else
      var n := |items|;
      var x := items[n - 1];
      var before := Grouping(items[..n - 1]);
      var step := RowStep(before.divCount, x);
      CounterTracksPosition(before.divCount, n - 1, x);
      Step(step.divCount, before.tokens + step.tokens)
  }

  /** Folding one more item runs one more `RowStep` from the counter left so far. */
  lemma GroupingExtend<T>(items: seq<T>, x: T)
    ensures var before := Grouping(items);
            var step := RowStep(before.divCount, x);
            Grouping(items + [x]) == Step(step.divCount, before.tokens + step.tokens)
  {
    assert (items + [x])[..|items|] == items;
  }

  /** Concatenation of rows. */
  function Flatten<T>(rows: seq<seq<T>>): seq<T>
    decreases |rows|
  {
    if |rows| == 0 then [] else rows[0] + Flatten(rows[1..])
  }

  /**
    The items split into rows of three, the last row possibly shorter:
    there are ceil(n/3) rows, none is empty or longer than three, and all but
    the last are full.
   */
  function Rows<T>(items: seq<T>): (rows: seq<seq<T>>)
    ensures |rows| == (|items| + 2) / 3
    ensures forall j :: 0 <= j < |rows| ==> 1 <= |rows[j]| <= 3
    ensures forall j :: 0 <= j < |rows| - 1 ==> |rows[j]| == 3
    ensures Flatten(rows) == items
    decreases |items|
  {
    if |items| == 0 then []
    else if |items| <= 3 then [items]
    else
      assert items == items[..3] + items[3..];
      [items[..3]] + Rows(items[3..])
  }

  /** One cell token per item, in order. */
  function Cells<T>(xs: seq<T>): (r: seq<Token<T>>)
    ensures |r| == |xs|
    ensures forall i :: 0 <= i < |xs| ==> r[i] == Cell(xs[i])
    decreases |xs|
  {
    if |xs| == 0 then [] else [Cell(xs[0])] + Cells(xs[1..])
  }

  /** Markup structure of rows: every row opens, only a full row closes. */
  function Render<T>(rows: seq<seq<T>>): seq<Token<T>>
    decreases |rows|
  {
    if |rows| == 0 then []
    else [OpenRow] + Cells(rows[0]) + (if |rows[0]| == 3 then [CloseRow] else []) + Render(rows[1..])
  }

  /** Shifting a position by whole rows does not change its tokens. */
  lemma SegmentShift<T>(m: nat, k: nat, x: T)
    requires m % 3 == 0
    ensures Segment(m + k, x) == Segment(k, x)
  {
    var q := m / 3;
    assert m == 3 * q;
    assert (m + k) % 3 == k % 3;
  }

  /** Layout of a list that starts with whole rows splits at the row boundary. */
  lemma {:induction false} LayoutAppend<T>(a: seq<T>, b: seq<T>)
    requires |a| % 3 == 0
    ensures Layout(a + b) == Layout(a) + Layout(b)
    decreases |b|
  {
    if |b| == 0 {
      assert a + b == a;
    } else {
      var n := |b|;
      var x := b[n - 1];
      assert (a + b)[..|a + b| - 1] == a + b[..n - 1];
      LayoutAppend(a, b[..n - 1]);
      SegmentShift(|a|, n, x);
    }
  }

  /** Up to three items form one row, closed only when it holds three. */
  lemma {:induction false} LayoutOneRow<T>(items: seq<T>)
    requires 1 <= |items| <= 3
    ensures Layout(items) == [OpenRow] + Cells(items) + (if |items| == 3 then [CloseRow] else [])
    decreases |items|
  {
    var n := |items|;
    var prefix := items[..n - 1];
    if n == 1 {
      assert prefix == [];
    } else {
      LayoutOneRow(prefix);
      assert Cells(prefix) + [Cell(items[n - 1])] == Cells(items);
    }
  }

  /**
    The layout is exactly the rows of three rendered in order: every row
    holds at most three cells and a trailing partial row is left open.
   */
  lemma {:induction false} LayoutIsRows<T>(items: seq<T>)
    ensures Layout(items) == Render(Rows(items))
    decreases |items|
  {
    if |items| == 0 {
    } else if |items| <= 3 {
      LayoutOneRow(items);
      assert Render([items]) == [OpenRow] + Cells(items) + (if |items| == 3 then [CloseRow] else []) + Render([]);
    } else {
      var head := items[..3];
      var tail := items[3..];
      assert items == head + tail;
      LayoutAppend(head, tail);
      LayoutOneRow(head);
      LayoutIsRows(tail);
      var rows := Rows(items);
      assert rows == [head] + Rows(tail);
      assert rows[1..] == Rows(tail);
    }
  }

  /** How many row openings and closings the cell at position k contributes. */
  lemma SegmentCounts<T>(k: nat, x: T)
    ensures multiset(Segment(k, x))[OpenRow] == if k % 3 == 1 then 1 else 0
    ensures multiset(Segment(k, x))[CloseRow] == if k % 3 == 0 then 1 else 0
  {
    if k % 3 == 1 {
      assert Segment(k, x) == [OpenRow, Cell(x)];
    } else if k % 3 == 0 {
      assert Segment(k, x) == [Cell(x), CloseRow];
    } else {
      assert Segment(k, x) == [Cell(x)];
    }
  }

  /** Adding the n-th cell adds a row opening when n % 3 == 1 and a closing when n % 3 == 0. */
  lemma RowArithmetic(n: nat)
    requires n > 0
    ensures (n + 2) / 3 == (n + 1) / 3 + (if n % 3 == 1 then 1 else 0)
    ensures n / 3 == (n - 1) / 3 + (if n % 3 == 0 then 1 else 0)
  {
    var q := (n - 1) / 3;
    var r := (n - 1) % 3;
    assert n == 3 * q + r + 1;
    if r == 0 {
      assert (n + 2) / 3 == q + 1 && (n + 1) / 3 == q && n / 3 == q && (n - 1) / 3 == q;
    } else if r == 1 {
      assert (n + 2) / 3 == q + 1 && (n + 1) / 3 == q + 1 && n / 3 == q && (n - 1) / 3 == q;
    } else {
      assert (n + 2) / 3 == q + 1 && (n + 1) / 3 == q + 1 && n / 3 == q + 1 && (n - 1) / 3 == q;
    }
  }

  /** n cells give ceil(n/3) row openings and floor(n/3) row closings. */
  lemma {:induction false} LayoutRowCounts<T>(items: seq<T>)
    ensures multiset(Layout(items))[OpenRow] == (|items| + 2) / 3
    ensures multiset(Layout(items))[CloseRow] == |items| / 3
    decreases |items|
  {
    if |items| > 0 {
      var n := |items|;
      var prefix := items[..n - 1];
      LayoutRowCounts(prefix);
      SegmentCounts(n, items[n - 1]);
      assert Layout(items) == Layout(prefix) + Segment(n, items[n - 1]);
      RowArithmetic(n);
    }
  }
}
