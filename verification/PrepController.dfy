/** jcprepct.c in context mode: colour-converted rows go round a buffer of three
    row groups, reached through a pointer list five row groups high. */
module PrepController {

  /** Position p of the pointer list, from one row group above the buffer to
      one below it, is entry p + v. */
  function Wrap(v: nat, k: nat): (q: nat)
    requires k < 5 * v
    ensures q < 3 * v
  {
    if k < v then k + 2 * v else if k < 4 * v then k - v else k - 4 * v
  }

  method CreateContextBuffer(v: nat) returns (list: array<nat>)
    requires v >= 1
    ensures fresh(list) && list.Length == 5 * v
    ensures forall k :: 0 <= k < 5 * v ==> list[k] == Wrap(v, k)
  {
    list := new nat[5 * v](k => 0);
    forall k | v <= k < 4 * v {
      list[k] := k - v;
    }
    var i := 0;
    while i < v
      invariant 0 <= i <= v
      invariant forall k :: v <= k < 4 * v ==> list[k] == k - v
      invariant forall k :: 0 <= k < i ==> list[k] == 2 * v + k
      invariant forall k :: 4 * v <= k < 4 * v + i ==> list[k] == k - 4 * v
    {
      list[i] := list[v + 2 * v + i];
      list[4 * v + i] := list[v + i];
      i := i + 1;
    }
  }

  /** Row j of the image, first and last row repeated beyond its edges. */
  function RowAt(image: seq<int>, j: int): int
    requires |image| > 0
  {
    if j < 0 then image[0] else if j >= |image| then image[|image| - 1] else image[j]
  }

  /** Row group g of v rows, with a row group of context on either side. */
  function GroupWithContext(image: seq<int>, v: nat, g: nat): (rows: seq<int>)
    requires |image| > 0
    ensures |rows| == 3 * v
  {
    seq(3 * v, i requires 0 <= i < 3 * v => RowAt(image, g * v - v + i))
  }

  function GroupsUpto(image: seq<int>, v: nat, n: nat): (gs: seq<seq<int>>)
    requires |image| > 0
    ensures |gs| == n && forall g :: 0 <= g < n ==> gs[g] == GroupWithContext(image, v, g)
  {
    if n == 0 then [] else GroupsUpto(image, v, n - 1) + [GroupWithContext(image, v, n - 1)]
  }

  /** Row i of group g with its context: that row of the image, or the first or last one beyond
      its edges. */
  predicate RowRepeats(image: seq<int>, v: nat, g: nat, i: nat, x: int)
    requires |image| > 0
  {
    var j := g * v - v + i;
    && (0 <= j < |image| ==> x == image[j])
    && (j < 0 ==> x == image[0])
    && (j >= |image| ==> x == image[|image| - 1])
  }

  ghost predicate EdgesRepeat(image: seq<int>, v: nat, groups: seq<seq<int>>)
    requires |image| > 0
  {
    forall g, i :: 0 <= g < |groups| && 0 <= i < |groups[g]| ==> |groups[g]| == 3 * v && RowRepeats(image, v, g, i, groups[g][i])
  }

  lemma {:induction false} RowsOfGroups(image: seq<int>, v: nat, n: nat)
    requires |image| > 0
    ensures EdgesRepeat(image, v, GroupsUpto(image, v, n))
  {
    var gs := GroupsUpto(image, v, n);
    forall g, i | 0 <= g < n && 0 <= i < |gs[g]|
      ensures |gs[g]| == 3 * v && RowRepeats(image, v, g, i, gs[g][i])
    {
      assert gs[g] == GroupWithContext(image, v, g);
      RowOfGroup(image, v, g, i);
    }
  }

  lemma {:induction false} RowOfGroup(image: seq<int>, v: nat, g: nat, i: nat)
    requires |image| > 0 && i < 3 * v
    ensures RowRepeats(image, v, g, i, GroupWithContext(image, v, g)[i])
  {
    assert GroupWithContext(image, v, g)[i] == RowAt(image, g * v - v + i);
  }

  /** What a pointer list shows from entry at on: three row groups. */
  function Window(v: nat, list: seq<nat>, buf: seq<int>, at: nat): (rows: seq<int>)
    requires at + 3 * v <= |list|
    ensures |rows| == 3 * v
  {
    seq(3 * v, i requires 0 <= i < 3 * v => var q := list[at + i]; if q < |buf| then buf[q] else 0)
  }

  /** The image row last stored in buffer row q when base rows were stored in
      earlier turns and next in this one; negative for the padding above row 0. */
  function StoredRow(v: nat, base: int, next: nat, q: int): int {
    if q < next then base + q else base + q - 3 * v
  }

  /** How the three indices hang together with the number of rows done. */
  ghost predicate TurnOf(v: nat, this1: nat, next: nat, stop: nat, base: int, done: int) {
    && (this1 == 0 ==> stop == 2 * v && base == done)
    && (this1 == v ==> stop == 3 * v && base == done - v)
    && (this1 == 2 * v ==> stop == v && base == done + v)
    && (this1 == 0 || this1 == v || this1 == 2 * v)
    && (if done == 0 then this1 == 0 else stop - v <= next)
    && next <= stop && base >= 0
  }

  lemma {:induction false} TurnNext(v: nat, this1: nat, stop: nat, base: int, done: int)
    requires v >= 1 && TurnOf(v, this1, stop, stop, base, done)
    ensures var this2 := if this1 + v >= 3 * v then 0 else this1 + v;
            var next2 := if stop >= 3 * v then 0 else stop;
            var base2 := if stop >= 3 * v then base + 3 * v else base;
            TurnOf(v, this2, next2, next2 + v, base2, done + v)
  {
  }

  ghost predicate Holds(v: nat, image: seq<int>, buf: seq<int>, base: int, next: nat) {
    && |image| > 0 && |buf| == 3 * v
    && (base + next > 0 ==>
          forall q :: 0 <= q < 3 * v && StoredRow(v, base, next, q) + v >= 0 ==> buf[q] == RowAt(image, StoredRow(v, base, next, q)))
  }

  lemma {:induction false} HoldsMore(v: nat, image: seq<int>, b0: seq<int>, b1: seq<int>, base: int, next: nat, n: nat)
    requires Holds(v, image, b0, base, next) && base >= 0 && base + next > 0
    requires |b1| == 3 * v && next + n <= 3 * v
    requires forall q :: 0 <= q < 3 * v ==> b1[q] == if next <= q < next + n then RowAt(image, base + q) else b0[q]
    ensures Holds(v, image, b1, base, next + n)
  {
    forall q | 0 <= q < 3 * v && StoredRow(v, base, next + n, q) + v >= 0
      ensures b1[q] == RowAt(image, StoredRow(v, base, next + n, q))
    {
      assert q < next || q >= next + n ==> StoredRow(v, base, next, q) == StoredRow(v, base, next + n, q);
    }
  }

  lemma {:induction false} HoldsFirst(v: nat, image: seq<int>, b: seq<int>, n: nat)
    requires |image| > 0 && |b| == 3 * v && n <= 2 * v
    requires forall q :: 0 <= q < 3 * v && q < n ==> b[q] == RowAt(image, q)
    requires forall q :: 2 * v <= q < 3 * v ==> b[q] == image[0]
    ensures Holds(v, image, b, 0, n)
  {
  }

  lemma {:induction false} HoldsTurn(v: nat, image: seq<int>, b: seq<int>, base: int)
    requires Holds(v, image, b, base, 3 * v)
    ensures Holds(v, image, b, base + 3 * v, 0)
  {
    forall q | 0 <= q < 3 * v && StoredRow(v, base + 3 * v, 0, q) + v >= 0
      ensures base + 3 * v > 0 ==> b[q] == RowAt(image, StoredRow(v, base + 3 * v, 0, q))
    {
      assert StoredRow(v, base + 3 * v, 0, q) == StoredRow(v, base, 3 * v, q);
    }
  }

  /** The rows input[at..] are those of the image from done on. */
  ghost predicate Follows(input: seq<int>, at: nat, image: seq<int>, done: int) {
    && at <= |input| && 0 <= done && done + (|input| - at) <= |image|
    && (forall j :: at <= j < |input| ==> input[j] == image[done + (j - at)])
  }

  lemma {:induction false} OneMore(image: seq<int>, v: nat, g: nat)
    requires |image| > 0
    ensures GroupsUpto(image, v, g + 1) == GroupsUpto(image, v, g) + [GroupWithContext(image, v, g)]
    ensures (g + 1) * v == g * v + v
  {
  }

  class Prep {
    const v: nat                    // max_v_samp_factor
    const imageHeight: nat
    const buf: array<int>           // the true buffer, one value per row
    const list: array<nat>          // color_buf: pointers into it, one row group early
    var rowsToGo: nat
    var nextBufRow: nat
    var thisRowGroup: nat
    var nextBufStop: nat
    ghost const image: seq<int>     // the whole source image
    ghost var base: int             // rows stored before the current turn of the buffer
    ghost var seen: seq<seq<int>>   // what each downsample call was given

    ghost predicate Shape()
      reads list
    {
      && v >= 1 && |image| > 0 && imageHeight == |image| && buf.Length == 3 * v && list.Length == 5 * v
      && (forall k :: 0 <= k < 5 * v ==> list[k] == Wrap(v, k))
    }

    ghost predicate Turn(done: int)
      reads this
    {
      TurnOf(v, thisRowGroup, nextBufRow, nextBufStop, base, done)
    }

    ghost predicate Contents()
      reads this, buf
    {
      Holds(v, image, buf[..], base, nextBufRow)
    }

    ghost predicate Progress()
      reads this
    {
      && rowsToGo <= |image|
      && (if rowsToGo > 0 then base + nextBufRow == |image| - rowsToGo else base + nextBufRow >= |image|)
    }

    /** Between calls, and between turns of the loop. */
    ghost predicate Valid()
      reads this, buf, list
    {
      && Shape() && Turn(|seen| * v) && nextBufRow < nextBufStop && Contents() && Progress()
      && seen == GroupsUpto(image, v, |seen|)
    }

    constructor (v: nat, ghost image: seq<int>, height: nat)
      requires v >= 1 && height == |image| > 0
      ensures Valid() && this.image == image && this.v == v && seen == [] && rowsToGo == height && fresh(buf)
    {
      this.v, this.image, imageHeight := v, image, height;
      buf := new int[3 * v](i => 0);
      var l := CreateContextBuffer(v);
      list := l;
      rowsToGo, nextBufRow, thisRowGroup, nextBufStop := height, 0, 0, 2 * v;
      base, seen := 0, [];
    }

    /** color_convert: n rows of input from position at on. */
    method ColorConvert(input: seq<int>, at: nat, n: nat)
      requires Shape() && nextBufRow + n <= 3 * v && at + n <= |input|
      modifies buf
      ensures forall q :: 0 <= q < 3 * v ==>
                buf[q] == if nextBufRow <= q < nextBufRow + n then input[at + q - nextBufRow] else old(buf[q])
    {
      var i := 0;
      while i < n
        invariant 0 <= i <= n
        invariant forall q :: 0 <= q < 3 * v ==>
                    buf[q] == if nextBufRow <= q < nextBufRow + i then input[at + q - nextBufRow] else old(buf[q])
      {
        buf[list[nextBufRow + i + v]] := input[at + i];
        i := i + 1;
      }
    }

    /** Pad at the top of the image with copies of row 0. */
    method PadTop()
      requires Shape()
      modifies buf
      ensures forall q :: 0 <= q < 3 * v ==> buf[q] == if q >= 2 * v then old(buf[0]) else old(buf[q])
    {
      var row := 1;
      while row <= v
        invariant 1 <= row <= v + 1
        invariant forall q :: 0 <= q < 3 * v ==> buf[q] == if q >= 3 * v - row + 1 then old(buf[0]) else old(buf[q])
      {
        buf[list[v - row]] := buf[list[v]];
        row := row + 1;
      }
    }

    /** expand_bottom_edge: repeat the row before inputRows up to outputRows. */
    method ExpandBottomEdge(inputRows: nat, outputRows: nat)
      requires Shape() && inputRows <= outputRows <= 3 * v
      modifies buf
      ensures var last := if inputRows == 0 then 3 * v - 1 else inputRows - 1;
              forall q :: 0 <= q < 3 * v ==> buf[q] == if inputRows <= q < outputRows then old(buf[last]) else old(buf[q])
    {
      ghost var last := if inputRows == 0 then 3 * v - 1 else inputRows - 1;
      var row := inputRows;
      while row < outputRows
        invariant inputRows <= row <= outputRows
        invariant forall q :: 0 <= q < 3 * v ==> buf[q] == if inputRows <= q < row then old(buf[last]) else old(buf[q])
      {
        buf[list[row + v]] := buf[list[inputRows + v - 1]];
        row := row + 1;
      }
    }

    /** With the buffer filled up to the stop, the window is the next row group
        and its neighbours. */
    lemma {:induction false} WindowIsGroup(g: nat)
      requires Shape() && Turn(g * v) && nextBufRow == nextBufStop && Contents()
      ensures thisRowGroup <= 2 * v && Window(v, list[..], buf[..], thisRowGroup) == GroupWithContext(image, v, g)
    {
      var rows, group := Window(v, list[..], buf[..], thisRowGroup), GroupWithContext(image, v, g);
      var top := g * v;
      assert top >= 0 && base + nextBufRow > 0;
      forall i | 0 <= i < 3 * v
        ensures rows[i] == group[i]
      {
        var q := Wrap(v, thisRowGroup + i);
        assert StoredRow(v, base, nextBufRow, q) == top - v + i;
        assert rows[i] == buf[..][q];
        assert group[i] == RowAt(image, top - v + i);
      }
    }

    /** Take in rows of the image, padding above row 0 the first time. */
    method TakeRows(input: seq<int>, at: nat) returns (n: nat)
      requires Valid() && at < |input| && Follows(input, at, image, |image| - rowsToGo)
      modifies `rowsToGo, `nextBufRow, buf
      ensures n > 0 && at + n <= |input| && rowsToGo == old(rowsToGo) - n && nextBufRow == old(nextBufRow) + n
      ensures at + n == |input| || nextBufRow == nextBufStop
      ensures Shape() && Turn(|seen| * v) && Contents() && Progress()
      ensures Follows(input, at + n, image, |image| - rowsToGo)
    {
      hide Holds, GroupsUpto;
      ghost var b0 := buf[..];
      n := nextBufStop - nextBufRow;
      if |input| - at < n {
        n := |input| - at;
      }
      ColorConvert(input, at, n);
      if rowsToGo == imageHeight {
        PadTop();
        HoldsFirst(v, image, buf[..], n);
      } else {
        HoldsMore(v, image, b0, buf[..], base, nextBufRow, n);
      }
      rowsToGo := rowsToGo - n;
      nextBufRow := nextBufRow + n;
    }

    /** Downsample the row group and advance, with wraparound as necessary. */
    method Downsample()
      requires Shape() && Turn(|seen| * v) && Contents() && Progress() && nextBufRow == nextBufStop
      requires seen == GroupsUpto(image, v, |seen|)
      modifies `thisRowGroup, `nextBufRow, `nextBufStop, `base, `seen
      ensures Valid() && old(seen) <= seen && |seen| == |old(seen)| + 1
    {
      ghost var g := |seen|;
      WindowIsGroup(g);
      TurnNext(v, thisRowGroup, nextBufStop, base, g * v);
      OneMore(image, v, g);
      ghost var rows := Window(v, list[..], buf[..], thisRowGroup);
      hide *;
      seen := seen + [rows];
      thisRowGroup := thisRowGroup + v;
      if thisRowGroup >= 3 * v {
        thisRowGroup := 0;
      }
      if nextBufRow >= 3 * v {
        HoldsTurn(v, image, buf[..], base);
        nextBufRow := 0;
        base := base + 3 * v;
      }
      nextBufStop := nextBufRow + v;
    }

    /** At the bottom of the image: repeat its last row up to the stop. */
    method PadBottom()
      requires Valid() && rowsToGo == 0
      modifies `nextBufRow, buf
      ensures Shape() && Turn(|seen| * v) && Contents() && Progress() && nextBufRow == nextBufStop
    {
      ghost var b0 := buf[..];
      LastRow(v, image, b0, base, nextBufRow);
      ExpandBottomEdge(nextBufRow, nextBufStop);
      HoldsMore(v, image, b0, buf[..], base, nextBufRow, nextBufStop - nextBufRow);
      nextBufRow := nextBufStop;
    }

    /** pre_process_context. Image rows come in as input[inCtr..], row groups go
        out until outAvail is reached. */
    method PreProcessContext(input: seq<int>, inCtr0: nat, outCtr0: nat, outAvail: nat) returns (inCtr: nat, outCtr: nat)
      requires Valid() && outCtr0 <= outAvail && Follows(input, inCtr0, image, |image| - rowsToGo)
      modifies this, buf
      ensures Valid() && old(seen) <= seen
      ensures inCtr0 <= inCtr <= |input| && rowsToGo == old(rowsToGo) - (inCtr - inCtr0)
      ensures outCtr0 <= outCtr <= outAvail && |seen| == |old(seen)| + (outCtr - outCtr0)
      ensures outCtr == outAvail || (inCtr == |input| && rowsToGo > 0)
      ensures inCtr0 < |input| && outCtr0 < outAvail ==> inCtr > inCtr0
      ensures EdgesRepeat(image, v, seen)
    {
      hide EdgesRepeat;
      inCtr, outCtr := inCtr0, outCtr0;
      while outCtr < outAvail
        invariant Valid() && old(seen) <= seen
        invariant inCtr0 <= inCtr <= |input| && rowsToGo == old(rowsToGo) - (inCtr - inCtr0)
        invariant Follows(input, inCtr, image, |image| - rowsToGo)
        invariant inCtr0 < |input| && inCtr == inCtr0 ==> outCtr == outCtr0
        invariant outCtr0 <= outCtr <= outAvail && |seen| == |old(seen)| + (outCtr - outCtr0)
        decreases outAvail - outCtr, |input| - inCtr
      {
        hide TurnOf, Prep.Contents, Prep.Progress;
        if inCtr < |input| {
          var n := TakeRows(input, inCtr);
          inCtr := inCtr + n;
        } else {
          if rowsToGo != 0 {
            break;
          }
          if nextBufRow < nextBufStop {
            PadBottom();
          }
        }
        if nextBufRow == nextBufStop {
          Downsample();
          outCtr := outCtr + 1;
        }
      }
      RowsOfGroups(image, v, |seen|);
    }
  }

  /** Below the image, the row just above the next one is a copy of the last. */
  lemma {:induction false} LastRow(v: nat, image: seq<int>, b: seq<int>, base: int, next: nat)
    requires Holds(v, image, b, base, next) && v >= 1 && next <= 3 * v && base + next >= |image|
    ensures b[if next == 0 then 3 * v - 1 else next - 1] == image[|image| - 1]
  {
    var q := if next == 0 then 3 * v - 1 else next - 1;
    assert StoredRow(v, base, next, q) == base + next - 1;
  }
}
