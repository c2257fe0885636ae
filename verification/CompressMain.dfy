/** jcmainct.c: feeding iMCU rows from the preprocessor to the coefficient
    controller, and what the application is told when the latter suspends. */
module CompressMain {
  import opened JpegLimits
  import opened PrepController

  class MainCtl {
    const prep: Prep
    const totalImcuRows: nat
    var curImcuRow: nat
    var rowgroupCtr: nat
    var suspended: bool
    ghost var acked: nat                        // rows the application believes consumed (next_scanline)
    ghost var given: seq<seq<seq<int>>>         // iMCU rows the coefficient controller has completed

    /** Row groups of iMCU row i, with their context. */
    ghost function ImcuRow(i: nat): seq<seq<int>>
      requires |prep.image| > 0
    {
      GroupsUpto(prep.image, prep.v, DCTSIZE * i + DCTSIZE)[DCTSIZE * i..]
    }

    ghost predicate RowsRight()
      reads `given
    {
      |prep.image| > 0 && forall i :: 0 <= i < |given| ==> given[i] == ImcuRow(i)
    }

    ghost predicate Valid()
      reads this, prep, prep.buf, prep.list
    {
      && prep.Valid() && curImcuRow <= totalImcuRows && rowgroupCtr <= DCTSIZE
      && |prep.seen| == DCTSIZE * curImcuRow + rowgroupCtr
      && |given| == curImcuRow && RowsRight()
      && (if suspended then rowgroupCtr == DCTSIZE && curImcuRow < totalImcuRows
          else rowgroupCtr < DCTSIZE)
      && Acknowledged()
      && (acked == |prep.image| ==> curImcuRow == totalImcuRows)
    }

    /** The application is told of every consumed row, but for the last one
        while a completed iMCU row waits for the compressor. */
    ghost predicate Acknowledged()
      reads this, prep
    {
      prep.rowsToGo <= |prep.image| && acked + (if suspended then 1 else 0) == |prep.image| - prep.rowsToGo
    }

    constructor (prep: Prep, totalImcuRows: nat)
      requires prep.Valid() && prep.seen == [] && prep.rowsToGo == |prep.image| && totalImcuRows > 0
      ensures Valid() && this.prep == prep && this.totalImcuRows == totalImcuRows && acked == 0
    {
      this.prep, this.totalImcuRows := prep, totalImcuRows;
      curImcuRow, rowgroupCtr, suspended := 0, 0, false;
      acked, given := 0, [];
    }

    /** process_data_simple_main, for input rows that continue what the
        application knows to be consumed. The compressor completes `accept`
        iMCU rows before it suspends. inRowCtr of the rows count as consumed:
        the image is fully acknowledged only when all of it is compressed. */
    method ProcessDataSimpleMain(input: seq<int>, accept: nat) returns (inRowCtr: nat)
      requires Valid() && |input| > 0 && Follows(input, 0, prep.image, acked)
      modifies this, prep, prep.buf
      ensures Valid() && inRowCtr <= |input| && acked == old(acked) + inRowCtr
      ensures old(given) <= given && |given| <= |old(given)| + accept
      ensures inRowCtr == |input| || suspended || curImcuRow == totalImcuRows
    {
      hide Prep.Valid, MainCtl.RowsRight, GroupsUpto, Follows;
      var taken: nat := 0;
      inRowCtr := 0;
      ghost var acked0 := acked;
      while curImcuRow < totalImcuRows
        invariant prep.Valid() && curImcuRow <= totalImcuRows && rowgroupCtr <= DCTSIZE
        invariant |prep.seen| == DCTSIZE * curImcuRow + rowgroupCtr
        invariant |given| == curImcuRow && RowsRight()
        invariant suspended ==> rowgroupCtr == DCTSIZE && inRowCtr == 0 && curImcuRow < totalImcuRows
        invariant !suspended ==> rowgroupCtr < DCTSIZE
        invariant inRowCtr <= |input| && acked == acked0 + inRowCtr && Acknowledged()
        invariant Follows(input, inRowCtr, prep.image, acked)
        invariant old(given) <= given && |given| == |old(given)| + taken && taken <= accept
        invariant taken > 0 ==> inRowCtr > 0
        decreases totalImcuRows - curImcuRow
      {
        if rowgroupCtr < DCTSIZE {
          inRowCtr := FillBuffer(input, inRowCtr);
        }
        if rowgroupCtr != DCTSIZE {
          return;
        }
        if taken == accept {   // compress_data refuses
          if !suspended {
            inRowCtr := inRowCtr - 1;
            acked := acked - 1;
            suspended := true;
          }
          return;
        }
        if suspended {
          SkipOne(input, prep.image, acked);
          inRowCtr := inRowCtr + 1;
          acked := acked + 1;
          suspended := false;
        }
        RowCompleted();
        taken := taken + 1;
      }
    }

    /** Ask the preprocessor for the rest of the iMCU row. */
    method FillBuffer(input: seq<int>, inRowCtr0: nat) returns (inRowCtr: nat)
      requires prep.Valid() && rowgroupCtr < DCTSIZE && !suspended && Acknowledged() && inRowCtr0 <= |input|
      requires Follows(input, inRowCtr0, prep.image, acked) && |prep.seen| == DCTSIZE * curImcuRow + rowgroupCtr
      modifies `rowgroupCtr, `acked, prep, prep.buf
      ensures prep.Valid() && rowgroupCtr <= DCTSIZE && |prep.seen| == DCTSIZE * curImcuRow + rowgroupCtr
      ensures inRowCtr0 <= inRowCtr <= |input| && acked == old(acked) + (inRowCtr - inRowCtr0) && Acknowledged()
      ensures Follows(input, inRowCtr, prep.image, acked)
      ensures rowgroupCtr == DCTSIZE || (inRowCtr == |input| && prep.rowsToGo > 0)
      ensures inRowCtr0 < |input| ==> inRowCtr > inRowCtr0
    {
      hide Prep.Valid, GroupsUpto;
      var outCtr;
      inRowCtr, outCtr := prep.PreProcessContext(input, inRowCtr0, rowgroupCtr, DCTSIZE);
      acked := acked + (inRowCtr - inRowCtr0);
      rowgroupCtr := outCtr;
    }

    /** The compressor has finished the iMCU row. */
    method RowCompleted()
      requires prep.Valid() && rowgroupCtr == DCTSIZE && |prep.seen| == DCTSIZE * curImcuRow + rowgroupCtr
      requires |given| == curImcuRow && RowsRight()
      modifies `given, `rowgroupCtr, `curImcuRow
      ensures rowgroupCtr == 0 && curImcuRow == old(curImcuRow) + 1 && |prep.seen| == DCTSIZE * curImcuRow
      ensures |given| == curImcuRow && RowsRight() && old(given) <= given
    {
      Completed();
      hide Prep.Valid, GroupsUpto;
      given := given + [prep.seen[DCTSIZE * curImcuRow..]];
      rowgroupCtr := 0;
      curImcuRow := curImcuRow + 1;
    }

    lemma {:induction false} Completed()
      requires prep.Valid() && |prep.seen| == DCTSIZE * curImcuRow + DCTSIZE
      ensures prep.seen[DCTSIZE * curImcuRow..] == ImcuRow(curImcuRow)
    {
    }
  }

  lemma {:induction false} SkipOne(input: seq<int>, image: seq<int>, done: int)
    requires Follows(input, 0, image, done) && |input| > 0
    ensures Follows(input, 1, image, done + 1)
  {
  }
}
