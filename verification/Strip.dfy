/** The progress strip of a transfer, from web/js/format.js: one cell per segment, or per bucket of segments. */
module Strip {
  import opened Basics
  import opened Radix

  const MAX_STRIP_CELLS: nat := 400

  datatype Cell = Done | Inflight | Pending

  /** `Math.floor(Number(x) || 0)`; what is no number is `None`. */
  function Whole(x: Option<real>): int { if x.None? then 0 else x.value.Floor }

  function Total(total: Option<real>): nat { if Whole(total) < 0 then 0 else Whole(total) }

  function DoneOf(done: Option<real>, total: nat): (d: nat)
    ensures d <= total
  {
    var w := if Whole(done) < 0 then 0 else Whole(done);
    if w > total then total else w
  }

  /** What is no number, or negative, counts as zero; fractions are dropped; and no more is done than there is. */
  lemma InputsAre(x: real, t: nat)
    ensures Total(None) == 0 && Whole(None) == 0 && DoneOf(None, t) == 0
    ensures Whole(Some(x)) as real <= x && x < Whole(Some(x)) as real + 1.0
    ensures x >= 0.0 ==> Total(Some(x)) as real <= x && x < Total(Some(x)) as real + 1.0
    ensures x < 0.0 ==> Total(Some(x)) == 0 && DoneOf(Some(x), t) == 0
    ensures x >= t as real ==> DoneOf(Some(x), t) == t
    ensures 0.0 <= x < t as real ==> DoneOf(Some(x), t) as real <= x && x < DoneOf(Some(x), t) as real + 1.0
  {
  }

  /** `Math.ceil(a / b)`. */
  function CeilDiv(a: nat, b: nat): nat
    requires b > 0
  {
    if a % b == 0 then a / b else a / b + 1
  }

  lemma CeilDivLaw(a: nat, b: nat)
    requires b > 0
    ensures a <= CeilDiv(a, b) * b && (a > 0 ==> (CeilDiv(a, b) - 1) * b < a)
  {
    DivModLaw(a, b);
    MulSucc(a / b, b);
    MulSucc(a / b - 1, b);
  }

  lemma ReachesExactly(k: int, d: nat, p: nat)
    requires p > 0
    ensures k * p <= d <==> k <= d / p
  {
    DivModLaw(d, p);
    if k <= d / p {
      MulMono(k, d / p, p);
    } else {
      MulMono(d / p + 1, k, p);
      MulSucc(d / p, p);
    }
  }

  // ----- what the strip shows --------------------------------------------------------------------

  /** The least bucket that needs at most 400 cells. */
  ghost predicate LeastBucket(perCell: nat, total: nat) {
    perCell >= 1 && total <= 400 * perCell && (perCell > 1 ==> 400 * (perCell - 1) < total)
  }

  /** The buckets cover the segments, and the last is not empty. */
  ghost predicate Tiles(count: nat, perCell: nat, total: nat) { total <= count * perCell && (count - 1) * perCell < total }

  /** Done cells, then the one being worked on, then pending ones. */
  function Shown(count: nat, perCell: nat, total: nat, done: nat, running: bool): (cells: seq<Cell>)
    requires perCell > 0
    ensures |cells| == count
  {
    var full := if done == total then count else done / perCell;
    seq(count, i => if i < full then Done else if i == full && running then Inflight else Pending)
  }

  /** The loop's test for one cell says where it stands to the cell being worked on. */
  lemma CellIs(i: nat, count: nat, perCell: nat, total: nat, done: nat)
    requires perCell > 0 && i < count && done <= total && Tiles(count, perCell, total)
    ensures var (start, end) := (i * perCell, if (i + 1) * perCell < total then (i + 1) * perCell else total);
            var full := if done == total then count else done / perCell;
            && (end <= done <==> i < full)
            && (start <= done < end <==> i == full)
  {
    ReachesExactly(i, done, perCell);
    ReachesExactly(i + 1, done, perCell);
    MulMono(i, count - 1, perCell);
  }

  lemma CountBound(count: nat, perCell: nat, total: nat)
    requires LeastBucket(perCell, total) && Tiles(count, perCell, total)
    ensures count <= MAX_STRIP_CELLS
  {
    if count > MAX_STRIP_CELLS { MulMono(MAX_STRIP_CELLS, count - 1, perCell); }
  }

  lemma BucketIsLeast(total: nat)
    requires total > 0
    ensures LeastBucket(if CeilDiv(total, MAX_STRIP_CELLS) < 1 then 1 else CeilDiv(total, MAX_STRIP_CELLS), total)
  {
    CeilDivLaw(total, MAX_STRIP_CELLS);
  }

  /** The cell a segment belongs to. */
  ghost predicate InCell(i: int, perCell: nat, segment: nat) { i * perCell <= segment < (i + 1) * perCell }

  /** The loop of `buildStrip`. */
  method FillCells(count: nat, perCell: nat, total: nat, done: nat, running: bool) returns (cells: seq<Cell>)
    requires perCell > 0 && done <= total && Tiles(count, perCell, total)
    ensures cells == Shown(count, perCell, total, done, running)
  {
    cells := [];
    for i := 0 to count
      invariant cells == Shown(count, perCell, total, done, running)[..i]
    {
      var start := i * perCell;
      var end := if (i + 1) * perCell < total then (i + 1) * perCell else total;
      CellIs(i, count, perCell, total, done);
      var cell := if end <= done then Done else if running && done >= start && done < end then Inflight else Pending;
      cells := cells + [cell];
    }
  }

  /** The size of a bucket and the number of cells. */
  method Buckets(total: nat) returns (perCell: nat, count: nat)
    requires total > 0
    ensures LeastBucket(perCell, total) && Tiles(count, perCell, total) && 0 < count <= MAX_STRIP_CELLS
  {
    perCell := CeilDiv(total, MAX_STRIP_CELLS);
    if perCell < 1 { perCell := 1; }
    BucketIsLeast(total);
    count := CeilDiv(total, perCell);
    CeilDivLaw(total, perCell);
    CountBound(count, perCell, total);
  }

  /** A resume position beyond what is done is not drawn. */
  method ResumeCell(r: int, done: nat, total: nat, perCell: nat, count: nat) returns (cell: Option<nat>)
    requires done <= total && perCell > 0 && count > 0 && Tiles(count, perCell, total)
    ensures cell.Some? <==> 0 < r <= done
    ensures cell.Some? ==> cell.value < count && (if r < total then InCell(cell.value, perCell, r) else cell.value == count - 1)
  {
    cell := None;
    if r > 0 && r <= done {
      LastOrOwn(r, count, perCell, total);
      cell := Some(if r / perCell < count - 1 then r / perCell else count - 1);
    }
  }

  lemma LastOrOwn(r: nat, count: nat, perCell: nat, total: nat)
    requires perCell > 0 && r <= total && count > 0 && Tiles(count, perCell, total)
    ensures var cell := if r / perCell < count - 1 then r / perCell else count - 1;
            0 <= cell < count && (if r < total then InCell(cell, perCell, r) else cell == count - 1)
  {
    ReachesExactly(0, r, perCell);
    if r < total {
      NextIsShown(count, perCell, total, r);
      CellOf(r / perCell, perCell, r);
    } else {
      ReachesExactly(count - 1, r, perCell);
    }
  }

  /** `buildStrip`. */
  method BuildStrip(total: Option<real>, done: Option<real>, running: bool, resumedFrom: Option<real>)
    returns (cells: seq<Cell>, perCell: nat, resumeCell: Option<nat>)
    ensures Total(total) == 0 ==> cells == [] && perCell == 1 && resumeCell == None
    ensures var t := Total(total);
            t > 0 ==>
              && |cells| <= 400 && LeastBucket(perCell, t) && Tiles(|cells|, perCell, t)
              && cells == Shown(|cells|, perCell, t, DoneOf(done, t), running)
    ensures var (t, r) := (Total(total), Whole(resumedFrom));
            t > 0 ==>
              && (resumeCell.Some? <==> 0 < r <= DoneOf(done, t))
              && (resumeCell.Some? ==>
                    && resumeCell.value < |cells|
                    && (if r < t then InCell(resumeCell.value, perCell, r) else resumeCell.value == |cells| - 1))
  {
    var t := Total(total);
    if t == 0 { return [], 1, None; }
    var count;
    perCell, count := Buckets(t);
    cells := FillCells(count, perCell, t, DoneOf(done, t), running);
    resumeCell := ResumeCell(Whole(resumedFrom), DoneOf(done, t), t, perCell, count);
  }

  /** A running transfer shows the cell of the next segment in flight until it is finished, a stopped one none. */
  lemma OneInflight(count: nat, perCell: nat, total: nat, done: nat, running: bool)
    requires perCell > 0 && done <= total && Tiles(count, perCell, total)
    ensures forall i :: 0 <= i < count ==>
              (Shown(count, perCell, total, done, running)[i] == Inflight <==> running && done < total && InCell(i, perCell, done))
    ensures running && done < total ==> Inflight in Shown(count, perCell, total, done, running)
  {
    forall i | 0 <= i < count ensures InCell(i, perCell, done) <==> i == done / perCell { CellOf(i, perCell, done); }
    if done < total {
      NextIsShown(count, perCell, total, done);
      if running { assert Shown(count, perCell, total, done, running)[done / perCell] == Inflight; }
    }
  }

  /** A cell is done exactly when every segment in it is, and pending when it is neither done nor in flight. */
  lemma DoneExactlyWhen(count: nat, perCell: nat, total: nat, done: nat, running: bool)
    requires perCell > 0 && done <= total && Tiles(count, perCell, total)
    ensures forall i :: 0 <= i < count ==>
              (Shown(count, perCell, total, done, running)[i] == Done <==> AllBelow(i, perCell, total, done))
  {
    forall i | 0 <= i < count ensures AllBelow(i, perCell, total, done) <==> i < (if done == total then count else done / perCell) {
      CellIs(i, count, perCell, total, done);
      CellIsBelow(i, count, perCell, total, done);
    }
  }

  /** Every segment in the cell is below `done`. */
  ghost predicate AllBelow(i: int, perCell: nat, total: nat, done: nat) {
    forall segment: nat :: InCell(i, perCell, segment) && segment < total ==> segment < done
  }

  lemma CellIsBelow(i: nat, count: nat, perCell: nat, total: nat, done: nat)
    requires perCell > 0 && i < count && done <= total && Tiles(count, perCell, total)
    ensures AllBelow(i, perCell, total, done) <==> (if (i + 1) * perCell < total then (i + 1) * perCell else total) <= done
  {
    var end := if (i + 1) * perCell < total then (i + 1) * perCell else total;
    MulMono(i, count - 1, perCell);
    MulSucc(i, perCell);
    assert i * perCell < total && i * perCell < end;
    if AllBelow(i, perCell, total, done) { assert InCell(i, perCell, end - 1); }
  }

  lemma CellOf(i: nat, perCell: nat, segment: nat)
    requires perCell > 0
    ensures InCell(i, perCell, segment) <==> i == segment / perCell
  {
    ReachesExactly(i, segment, perCell);
    ReachesExactly(i + 1, segment, perCell);
  }

  lemma NextIsShown(count: nat, perCell: nat, total: nat, done: nat)
    requires perCell > 0 && done < total && Tiles(count, perCell, total)
    ensures 0 <= done / perCell < count
  {
    ReachesExactly(count, done, perCell);
    ReachesExactly(0, done, perCell);
  }
}
