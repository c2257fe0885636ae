/** jdmainct.c in context mode: one component's sample rows pass through a
    workspace of M+2 row groups with two lists of pointers into it. */
module MainController {
  import opened Rounding

  /** What the controller knows of the component: rows in a row group, row
      groups in an iMCU row (min_DCT_scaled_size), and downsampled_height. */
  datatype Strip = Strip(rgroup: nat, M: nat, height: nat) {
    predicate Valid() {
      rgroup >= 1 && M >= 2 && height >= 1
    }

    /** Sample rows in an iMCU row. */
    function Rows(): (r: nat)
      requires Valid()
      ensures r >= 2 * rgroup
    {
      TwoGroups(rgroup, M);
      rgroup * M
    }

    function TotalImcuRows(): nat
      requires Valid()
    {
      (height + Rows() - 1) / Rows()
    }

    /** Real sample rows of the last iMCU row. */
    function RowsLeft(): nat
      requires Valid()
    {
      LastPart(height, Rows())
    }

    /** Real row groups of the last iMCU row, and of the image. */
    function LastGroups(): nat
      requires Valid()
    {
      (RowsLeft() - 1) / rgroup + 1
    }

    function Groups(): int
      requires Valid()
    {
      (TotalImcuRows() - 1) * M + LastGroups()
    }
  }

  lemma {:induction false} TwoGroups(r: nat, m: nat)
    requires m >= 2
    ensures r * m >= 2 * r
  {
    assert r * m == r * (m - 2) + 2 * r;
    assert r * (m - 2) >= 0;
  }

  lemma {:induction false} HeightSplit(s: Strip)
    requires s.Valid()
    ensures s.TotalImcuRows() >= 1 && 1 <= s.RowsLeft() <= s.Rows()
    ensures s.height == (s.TotalImcuRows() - 1) * s.Rows() + s.RowsLeft()
  {
    CeilParts(s.height, s.Rows());
  }

  // ----- the lists of row pointers; entry k of a list is its position k - rgroup

  /** The workspace row at position p of list w: in list 1 the last four row
      groups are swapped. */
  function Ptr(s: Strip, w: nat, p: nat): (q: nat)
    requires s.Valid()
    ensures p < s.Rows() + 2 * s.rgroup ==> q < s.Rows() + 2 * s.rgroup
  {
    if w == 0 || p < s.Rows() - 2 * s.rgroup then p
    else if p < s.Rows() then p + 2 * s.rgroup
    else p - 2 * s.rgroup
  }

  /** Entry k: one row group of wraparound pointers at either end; before they
      are set, those above repeat the first row. */
  function Entry(s: Strip, w: nat, wrapped: bool, k: nat): nat
    requires s.Valid()
  {
    var r, rm := s.rgroup, s.Rows();
    if k < r then (if wrapped then Ptr(s, w, rm + r + k) else 0)
    else if k < rm + 3 * r then Ptr(s, w, k - r)
    else Ptr(s, w, k - rm - 3 * r)
  }

  function ListLength(s: Strip): nat
    requires s.Valid()
  {
    s.Rows() + 4 * s.rgroup
  }

  /** Before the wraparound, the entries above list 1 and below both lists are
      not set. */
  predicate Defined(s: Strip, w: nat, wrapped: bool, k: nat)
    requires s.Valid()
  {
    k < ListLength(s) && (wrapped || ((w == 0 || k >= s.rgroup) && k < s.Rows() + 3 * s.rgroup))
  }

  ghost predicate NormalList(s: Strip, x: seq<nat>, w: nat, wrapped: bool)
    requires s.Valid()
  {
    && |x| == ListLength(s)
    && (forall k :: 0 <= k < |x| && Defined(s, w, wrapped, k) ==> x[k] == Entry(s, w, wrapped, k))
  }

  /** The last real row and what repeats it, two row groups of it. */
  ghost predicate BottomList(s: Strip, x: seq<nat>, w: nat, wrapped: bool)
    requires s.Valid()
  {
    var r, left := s.rgroup, s.RowsLeft();
    && |x| == ListLength(s) && left <= s.Rows()
    && (forall k :: 0 <= k < left + r && Defined(s, w, wrapped, k) ==> x[k] == Entry(s, w, wrapped, k))
    && (forall k :: left + r <= k < left + 3 * r ==> x[k] == Entry(s, w, wrapped, left - 1 + r))
  }

  /** First copy the workspace pointers as they are. */
  method CopyPointers(s: Strip, x: array<nat>)
    requires s.Valid() && x.Length == ListLength(s)
    modifies x
    ensures forall k :: s.rgroup <= k < s.Rows() + 3 * s.rgroup ==> x[k] == k - s.rgroup
  {
    var r, rm := s.rgroup, s.Rows();
    var i := 0;
    while i < rm + 2 * r
      invariant 0 <= i <= rm + 2 * r
      invariant forall k :: r <= k < i + r ==> x[k] == k - r
    {
      x[i + r] := i;
      i := i + 1;
    }
  }

  /** In the second list, put the last four row groups in swapped order. */
  method SwapGroups(s: Strip, x: array<nat>)
    requires s.Valid() && x.Length == ListLength(s)
    requires forall k :: s.rgroup <= k < s.Rows() + 3 * s.rgroup ==> x[k] == k - s.rgroup
    modifies x
    ensures forall k :: s.rgroup <= k < s.Rows() + 3 * s.rgroup ==> x[k] == Ptr(s, 1, k - s.rgroup)
  {
    var r, rm := s.rgroup, s.Rows();
    hide Strip.Rows;
    var i := 0;
    while i < 2 * r
      invariant 0 <= i <= 2 * r
      invariant forall k :: r <= k < rm + 3 * r ==>
        x[k] == if rm - r <= k < rm - r + i then k + r else if rm + r <= k < rm + r + i then k - 3 * r else k - r
    {
      x[rm - 2 * r + i + r] := rm + i;
      x[rm + i + r] := rm - 2 * r + i;
      i := i + 1;
    }
  }

  method MakeFunnyPointers(s: Strip, x0: array<nat>, x1: array<nat>)
    requires s.Valid() && x0.Length == x1.Length == ListLength(s) && x0 != x1
    modifies x0, x1
    ensures NormalList(s, x0[..], 0, false) && NormalList(s, x1[..], 1, false)
  {
    var r, rm := s.rgroup, s.Rows();
    CopyPointers(s, x0);
    CopyPointers(s, x1);
    SwapGroups(s, x1);
    hide Strip.Rows;
    var i := 0;
    while i < r
      invariant 0 <= i <= r
      invariant forall k :: r <= k < rm + 3 * r ==> x0[k] == k - r
      invariant forall k :: r <= k < rm + 3 * r ==> x1[k] == Ptr(s, 1, k - r)
      invariant forall k :: 0 <= k < i ==> x0[k] == 0
    {
      x0[i] := x0[r];
      i := i + 1;
    }
  }

  /** A list with the wraparound pointers set, nothing else changed. */
  ghost predicate Wrapped(s: Strip, x: seq<nat>, y: seq<nat>)
    requires s.Valid()
  {
    var r, rm := s.rgroup, s.Rows();
    && |x| == |y| == ListLength(s)
    && (forall k :: 0 <= k < r ==> y[k] == x[rm + 2 * r + k])
    && (forall k :: r <= k < rm + 3 * r ==> y[k] == x[k])
    && (forall k :: rm + 3 * r <= k < rm + 4 * r ==> y[k] == x[k - rm - 2 * r])
  }

  method SetWraparoundPointers(s: Strip, x: array<nat>)
    requires s.Valid() && x.Length == ListLength(s)
    modifies x
    ensures Wrapped(s, old(x[..]), x[..])
  {
    var r, rm := s.rgroup, s.Rows();
    hide Strip.Rows;
    ghost var x0 := x[..];
    var i := 0;
    while i < r
      invariant 0 <= i <= r && x.Length == |x0|
      invariant forall k :: r <= k < rm + 3 * r ==> x[k] == x0[k]
      invariant forall k :: 0 <= k < i ==> x[k] == x0[rm + 2 * r + k]
      invariant forall k :: rm + 3 * r <= k < rm + 3 * r + i ==> x[k] == x0[k - rm - 2 * r]
    {
      x[i] := x[rm + r + i + r];
      x[rm + 2 * r + i + r] := x[i + r];
      i := i + 1;
    }
  }

  lemma {:induction false} WrappedNormal(s: Strip, x: seq<nat>, y: seq<nat>, w: nat)
    requires s.Valid() && NormalList(s, x, w, false) && Wrapped(s, x, y)
    ensures NormalList(s, y, w, true)
  {
    var r, rm := s.rgroup, s.Rows();
    hide Strip.Rows;
    forall k | r <= k < rm + 3 * r
      ensures x[k] == Ptr(s, w, k - r)
    {
      assert Defined(s, w, false, k);
    }
  }

  method SetBottomPointers(s: Strip, x: array<nat>, ghost w: nat, ghost wrapped: bool) returns (rowgroupsAvail: nat)
    requires s.Valid() && NormalList(s, x[..], w, wrapped)
    modifies x
    ensures BottomList(s, x[..], w, wrapped) && rowgroupsAvail == s.LastGroups()
  {
    HeightSplit(s);
    var r, rm := s.rgroup, s.Rows();
    var rowsLeft := s.height % rm;
    if rowsLeft == 0 {
      rowsLeft := rm;
    }
    rowgroupsAvail := (rowsLeft - 1) / r + 1;
    ghost var x0 := x[..];
    assert rowsLeft == s.RowsLeft();
    hide Strip.RowsLeft, Strip.Rows, Ptr;
    var i := 0;
    while i < 2 * r
      invariant 0 <= i <= 2 * r && x.Length == |x0|
      invariant forall k :: 0 <= k < |x0| ==>
        x[k] == if rowsLeft + r <= k < rowsLeft + r + i then x0[rowsLeft - 1 + r] else x0[k]
    {
      x[rowsLeft + i + r] := x[rowsLeft - 1 + r];
      i := i + 1;
    }
    assert Defined(s, w, wrapped, rowsLeft - 1 + r);
  }

  // ----- what the workspace holds, and what the postprocessor sees of it

  /** Sample rows are numbered from the top; numbers from height on are padding
      rows of the last iMCU row. After n iMCU rows the list that received the
      last one shows it, and behind it the last two row groups before it. */
  ghost predicate Content(s: Strip, buf: seq<int>, n: nat)
    requires s.Valid() && n >= 1
  {
    var rm, w := s.Rows(), (n - 1) % 2;
    && |buf| == rm + 2 * s.rgroup
    && (forall p :: 0 <= p < rm ==> buf[Ptr(s, w, p)] == Top(s, n) + p)
    && (n >= 2 ==> forall p :: rm <= p < rm + 2 * s.rgroup ==> buf[Ptr(s, w, p)] == Top(s, n) - 2 * s.rgroup + (p - rm))
  }

  /** The first row of the n-th iMCU row. */
  function Top(s: Strip, n: nat): int
    requires s.Valid()
  {
    (n - 1) * s.Rows()
  }

  lemma {:induction false} TopFacts(s: Strip, n: nat)
    requires s.Valid() && n >= 1
    ensures Top(s, n + 1) == Top(s, n) + s.Rows() && (n == 1 ==> Top(s, n) == 0) && (n >= 2 ==> Top(s, n) >= s.Rows())
    ensures Top(s, n) >= 0
  {
    if n >= 2 {
      MulLe(1, n - 1, s.Rows());
    }
  }

  /** The rows at and around row group c of a list. */
  function View(s: Strip, x: seq<nat>, buf: seq<int>, c: nat): (v: seq<int>)
    requires s.Valid() && (c + 3) * s.rgroup <= |x|
    ensures |v| == 3 * s.rgroup
  {
    GroupEnd(s.rgroup, c);
    seq(3 * s.rgroup, i requires 0 <= i < 3 * s.rgroup =>
      var q := x[c * s.rgroup + i]; if q < |buf| then buf[q] else 0)
  }

  lemma {:induction false} GroupEnd(r: nat, c: nat)
    ensures (c + 3) * r == c * r + 3 * r && c * r >= 0
  {
  }

  /** Row j of an image whose edges repeat. */
  function Clamp(s: Strip, j: int): int {
    if j < 0 then 0 else if j >= s.height then s.height - 1 else j
  }

  /** The last row group before the final iMCU row is fed before the bottom
      pointers are set. */
  predicate Late(s: Strip, g: nat)
    requires s.Valid()
  {
    s.TotalImcuRows() >= 2 && g == (s.TotalImcuRows() - 1) * s.M - 1
  }

  /** Row group g with its neighbours above and below, as delivered. */
  function Delivered(s: Strip, g: nat): (v: seq<int>)
    requires s.Valid()
    ensures |v| == 3 * s.rgroup
  {
    seq(3 * s.rgroup, i requires 0 <= i < 3 * s.rgroup =>
      var j := g * s.rgroup - s.rgroup + i; if Late(s, g) then j else Clamp(s, j))
  }

  function AllDelivered(s: Strip, k: nat): (vs: seq<seq<int>>)
    requires s.Valid()
    ensures |vs| == k && forall g :: 0 <= g < k ==> vs[g] == Delivered(s, g)
  {
    if k == 0 then [] else AllDelivered(s, k - 1) + [Delivered(s, k - 1)]
  }

  lemma {:induction false} DeliveredNext(s: Strip, k: nat)
    requires s.Valid()
    ensures AllDelivered(s, k + 1) == AllDelivered(s, k) + [Delivered(s, k)]
  {
  }

  lemma {:induction false} RowOfGroup(s: Strip, n: nat, c: int)
    requires s.Valid() && n >= 1
    ensures ((n - 1) * s.M + c) * s.rgroup == (n - 1) * s.Rows() + c * s.rgroup
  {
    var a, m, r := n - 1, s.M, s.rgroup;
    assert (a * m) * r == a * (r * m) by { Assoc(a, m, r); }
    assert (a * m + c) * r == (a * m) * r + c * r;
  }

  lemma {:induction false} Assoc(a: int, m: int, r: int)
    ensures (a * m) * r == a * (r * m)
  {
  }

  /** All rows before the last iMCU row are real, and so is its first. */
  lemma {:induction false} RealRows(s: Strip, n: nat)
    requires s.Valid() && 1 <= n < s.TotalImcuRows()
    ensures n * s.Rows() < s.height && n * s.Rows() == (n - 1) * s.Rows() + s.Rows()
  {
    HeightSplit(s);
    MulLe(n, s.TotalImcuRows() - 1, s.Rows());
  }

  /** Row groups 0..M-2 of an iMCU row that is not the last. */
  lemma {:induction false} ViewNormal(s: Strip, x: seq<nat>, buf: seq<int>, n: nat, c: nat)
    requires s.Valid() && 1 <= n < s.TotalImcuRows() && c + 1 < s.M
    requires NormalList(s, x, (n - 1) % 2, n >= 2) && Content(s, buf, n)
    ensures (c + 3) * s.rgroup <= |x| && View(s, x, buf, c) == Delivered(s, (n - 1) * s.M + c)
  {
    NormalRows(s, n, c);
    NotLate(s, n, c);
    NormalLength(s, x, (n - 1) % 2, n >= 2);
    hide NormalList, Content, Late, Strip.Rows, Strip.TotalImcuRows, Top;
    var r, g: nat := s.rgroup, (n - 1) * s.M + c;
    var v, d := View(s, x, buf, c), Delivered(s, g);
    forall i | 0 <= i < 3 * r
      ensures v[i] == d[i]
    {
      RowNormal(s, x, buf, n, c * r + i);
      NormalClamp(s, n, c * r + i);
      assert v[i] == buf[x[c * r + i]];
      assert d[i] == Clamp(s, g * r - r + i);
    }
  }

  lemma {:induction false} NormalRows(s: Strip, n: nat, c: nat)
    requires s.Valid() && n >= 1 && c + 1 < s.M
    ensures (c + 3) * s.rgroup == c * s.rgroup + 3 * s.rgroup <= s.Rows() + s.rgroup && c * s.rgroup >= 0
    ensures ((n - 1) * s.M + c) * s.rgroup == Top(s, n) + c * s.rgroup && (n - 1) * s.M + c >= 0
  {
    var r := s.rgroup;
    RowOfGroup(s, n, c);
    MulLe(c + 3, s.M + 1, r);
    MulLe(0, n - 1, s.M);
    assert (s.M + 1) * r == s.Rows() + r;
  }

  lemma {:induction false} NormalClamp(s: Strip, n: nat, k: nat)
    requires s.Valid() && 1 <= n < s.TotalImcuRows() && k < s.Rows() + s.rgroup
    ensures Clamp(s, Top(s, n) + k - s.rgroup) == if n == 1 && k < s.rgroup then 0 else Top(s, n) + k - s.rgroup
  {
    RealRows(s, n);
    TopFacts(s, n);
  }

  lemma {:induction false} NotLate(s: Strip, n: nat, c: nat)
    requires s.Valid() && 1 <= n < s.TotalImcuRows() && c + 1 < s.M
    ensures !Late(s, (n - 1) * s.M + c)
  {
    MulLe(n, s.TotalImcuRows() - 1, s.M);
    assert n * s.M == (n - 1) * s.M + s.M;
  }

  /** The row behind entry k among the first M+1 row groups of a list. */
  lemma {:induction false} RowNormal(s: Strip, x: seq<nat>, buf: seq<int>, n: nat, k: nat)
    requires s.Valid() && n >= 1 && NormalList(s, x, (n - 1) % 2, n >= 2) && Content(s, buf, n)
    requires k < s.Rows() + s.rgroup
    ensures x[k] < |buf| && buf[x[k]] == if n == 1 && k < s.rgroup then 0 else Top(s, n) + k - s.rgroup
  {
    var r, rm, w := s.rgroup, s.Rows(), (n - 1) % 2;
    TopFacts(s, n);
    hide Strip.Rows, Top;
    assert Defined(s, w, n >= 2, k);
    if k < r {
      if n == 1 {
        assert Ptr(s, w, 0) == 0;
      } else {
        assert buf[Ptr(s, w, rm + r + k)] == Top(s, n) - 2 * r + (r + k);
      }
    } else {
      assert buf[Ptr(s, w, k - r)] == Top(s, n) + (k - r);
    }
  }

  /** The row groups of the last iMCU row. */
  lemma {:induction false} ViewBottom(s: Strip, x: seq<nat>, buf: seq<int>, c: nat, g: nat)
    requires s.Valid() && c < s.LastGroups() && s.TotalImcuRows() >= 1
    requires BottomList(s, x, (s.TotalImcuRows() - 1) % 2, s.TotalImcuRows() >= 2) && Content(s, buf, s.TotalImcuRows())
    requires g == (s.TotalImcuRows() - 1) * s.M + c
    ensures (c + 3) * s.rgroup <= |x| && View(s, x, buf, c) == Delivered(s, g)
  {
    BottomRows(s, c);
    hide BottomList, Content, Late, Strip.Rows, Strip.TotalImcuRows, Strip.RowsLeft, Strip.LastGroups, Top;
    var n, r := s.TotalImcuRows(), s.rgroup;
    var v, d := View(s, x, buf, c), Delivered(s, g);
    forall i | 0 <= i < 3 * r
      ensures v[i] == d[i]
    {
      RowBottom(s, x, buf, c * r + i);
      assert v[i] == buf[x[c * r + i]];
      assert d[i] == Clamp(s, g * r - r + i);
    }
  }

  lemma {:induction false} BottomRows(s: Strip, c: nat)
    requires s.Valid() && c < s.LastGroups() && s.TotalImcuRows() >= 1
    ensures var n := s.TotalImcuRows(); var g := (n - 1) * s.M + c;
            && g >= 0 && !Late(s, g) && g * s.rgroup == Top(s, n) + c * s.rgroup
            && (c + 3) * s.rgroup == c * s.rgroup + 3 * s.rgroup <= ListLength(s) && c * s.rgroup >= 0
            && c * s.rgroup < s.RowsLeft()
  {
    var n := s.TotalImcuRows();
    HeightSplit(s);
    RowOfGroup(s, n, c);
    LastEnds(s.RowsLeft(), s.rgroup, c);
    MulLe(0, n - 1, s.M);
  }

  lemma {:induction false} LastEnds(left: nat, r: nat, c: nat)
    requires left >= 1 && r >= 1 && c < (left - 1) / r + 1
    ensures c * r < left && c * r >= 0 && (c + 3) * r == c * r + 3 * r
  {
    var q := (left - 1) / r;
    MulLe(c, q, r);
    assert q * r <= left - 1;
  }

  lemma {:induction false} RowBottom(s: Strip, x: seq<nat>, buf: seq<int>, k: nat)
    requires s.Valid() && k < s.RowsLeft() + 3 * s.rgroup && s.TotalImcuRows() >= 1
    requires BottomList(s, x, (s.TotalImcuRows() - 1) % 2, s.TotalImcuRows() >= 2) && Content(s, buf, s.TotalImcuRows())
    ensures k < |x| && x[k] < |buf| && buf[x[k]] == Clamp(s, Top(s, s.TotalImcuRows()) + k - s.rgroup)
  {
    HeightSplit(s);
    var n, r, rm, left := s.TotalImcuRows(), s.rgroup, s.Rows(), s.RowsLeft();
    var w := (n - 1) % 2;
    TopFacts(s, n);
    assert s.height == Top(s, n) + left;
    hide Strip.Rows, Strip.RowsLeft, Strip.TotalImcuRows, Top;
    if k < r {
      assert Defined(s, w, n >= 2, k);
      if n == 1 {
        assert buf[Ptr(s, w, 0)] == Top(s, n) + 0;
        assert Ptr(s, w, 0) == 0;
      } else {
        assert buf[Ptr(s, w, rm + r + k)] == Top(s, n) - 2 * r + (r + k);
      }
    } else if k < left + r {
      assert Defined(s, w, n >= 2, k);
      assert buf[Ptr(s, w, k - r)] == Top(s, n) + (k - r);
    } else {
      assert x[k] == Entry(s, w, n >= 2, left - 1 + r);
      assert buf[Ptr(s, w, left - 1)] == Top(s, n) + (left - 1);
    }
  }

  /** The postponed row group, seen through the list that has received the
      next iMCU row, at index M+1. */
  lemma {:induction false} ViewPostponed(s: Strip, x: seq<nat>, buf: seq<int>, n: nat)
    requires s.Valid() && 2 <= n <= s.TotalImcuRows()
    requires NormalList(s, x, (n - 1) % 2, true) && Content(s, buf, n)
    ensures (s.M + 4) * s.rgroup <= |x| && View(s, x, buf, s.M + 1) == Delivered(s, (n - 1) * s.M - 1)
  {
    PostponedRows(s, n);
    LateIff(s, n);
    hide NormalList, Content, Late, Strip.Rows, Strip.TotalImcuRows;
    var r, c, g: nat := s.rgroup, s.M + 1, (n - 1) * s.M - 1;
    assert ListLength(s) == s.Rows() + 4 * r;
    assert |x| == ListLength(s) by { NormalLength(s, x, (n - 1) % 2, true); }
    var v, d := View(s, x, buf, c), Delivered(s, g);
    forall i | 0 <= i < 3 * r
      ensures v[i] == d[i]
    {
      RowPostponed(s, x, buf, n, i);
      assert v[i] == buf[x[c * r + i]];
      var j := g * r - r + i;
      PostponedClamp(s, n, i);
      assert d[i] == if Late(s, g) then j else Clamp(s, j);
    }
  }

  lemma {:induction false} NormalLength(s: Strip, x: seq<nat>, w: nat, wrapped: bool)
    requires s.Valid() && NormalList(s, x, w, wrapped)
    ensures |x| == ListLength(s)
  {
  }

  lemma {:induction false} PostponedRows(s: Strip, n: nat)
    requires s.Valid() && n >= 2
    ensures (n - 1) * s.M - 1 >= 1
    ensures (s.M + 1) * s.rgroup == s.Rows() + s.rgroup && (s.M + 4) * s.rgroup == s.Rows() + 4 * s.rgroup
    ensures ((n - 1) * s.M - 1) * s.rgroup == (n - 1) * s.Rows() - s.rgroup && (n - 1) * s.Rows() >= s.Rows()
  {
    RowOfGroup(s, n, -1);
    MulLe(1, n - 1, s.M);
    MulLe(1, n - 1, s.Rows());
  }

  lemma {:induction false} PostponedClamp(s: Strip, n: nat, i: nat)
    requires s.Valid() && n >= 2 && i < 3 * s.rgroup
    ensures n < s.TotalImcuRows() ==>
              Clamp(s, (n - 1) * s.Rows() - 2 * s.rgroup + i) == (n - 1) * s.Rows() - 2 * s.rgroup + i
  {
    if n < s.TotalImcuRows() {
      RealRows(s, n);
      MulLe(1, n - 1, s.Rows());
    }
  }

  lemma {:induction false} LateIff(s: Strip, n: nat)
    requires s.Valid() && 2 <= n <= s.TotalImcuRows() && (n - 1) * s.M >= 1
    ensures Late(s, (n - 1) * s.M - 1) <==> n == s.TotalImcuRows()
  {
    if n < s.TotalImcuRows() {
      MulLe(n, s.TotalImcuRows() - 1, s.M);
      assert n * s.M == (n - 1) * s.M + s.M;
    }
  }

  lemma {:induction false} RowPostponed(s: Strip, x: seq<nat>, buf: seq<int>, n: nat, i: nat)
    requires s.Valid() && n >= 2 && i < 3 * s.rgroup
    requires NormalList(s, x, (n - 1) % 2, true) && Content(s, buf, n)
    ensures var k := s.Rows() + s.rgroup + i;
            k < |x| && x[k] < |buf| && buf[x[k]] == Top(s, n) - 2 * s.rgroup + i
  {
    var r, rm, w := s.rgroup, s.Rows(), (n - 1) % 2;
    hide Strip.Rows, Top;
    var k := rm + r + i;
    assert Defined(s, w, true, k);
    if i < 2 * r {
      assert buf[Ptr(s, w, rm + i)] == Top(s, n) - 2 * r + i;
    } else {
      assert buf[Ptr(s, w, i - 2 * r)] == Top(s, n) + (i - 2 * r);
    }
  }

  // ----- where the delivered context is the clamped image

  /** Row group g comes with its true neighbours, edges repeated. */
  ghost predicate Faithful(s: Strip, g: nat)
    requires s.Valid()
  {
    forall i :: 0 <= i < 3 * s.rgroup ==> Delivered(s, g)[i] == Clamp(s, g * s.rgroup - s.rgroup + i)
  }

  lemma {:induction false} FaithfulUnlessLate(s: Strip, g: nat)
    requires s.Valid()
    ensures !Late(s, g) ==> Faithful(s, g)
    ensures Late(s, g) ==> (Faithful(s, g) <==> s.RowsLeft() >= s.rgroup)
    ensures Delivered(s, g)[2 * s.rgroup] == Clamp(s, g * s.rgroup + s.rgroup)
  {
    var r := s.rgroup;
    var d := Delivered(s, g);
    if Late(s, g) {
      LateRows(s);
      assert forall i :: 0 <= i < 3 * r ==> d[i] == g * r - r + i;
      if s.RowsLeft() < r {
        var i := 2 * r + s.RowsLeft();
        assert d[i] == s.height && Clamp(s, g * r - r + i) == s.height - 1;
      }
    } else {
      assert forall i :: 0 <= i < 3 * r ==> d[i] == Clamp(s, g * r - r + i);
    }
  }

  /** Every group is delivered faithfully exactly when there is only one iMCU
      row or the last one fills a row group; a group that is not still has the
      right first row below it. */
  lemma {:induction false} ContextIsClamped(s: Strip)
    requires s.Valid()
    ensures (forall g :: 0 <= g < s.Groups() ==> Faithful(s, g)) <==> s.TotalImcuRows() == 1 || s.RowsLeft() >= s.rgroup
    ensures forall g :: 0 <= g < s.Groups() && !Late(s, g) ==> Faithful(s, g)
    ensures forall g :: 0 <= g < s.Groups() ==> Delivered(s, g)[2 * s.rgroup] == Clamp(s, g * s.rgroup + s.rgroup)
  {
    HeightSplit(s);
    forall g: nat
      ensures !Late(s, g) ==> Faithful(s, g)
      ensures Late(s, g) ==> (Faithful(s, g) <==> s.RowsLeft() >= s.rgroup)
      ensures Delivered(s, g)[2 * s.rgroup] == Clamp(s, g * s.rgroup + s.rgroup)
    {
      FaithfulUnlessLate(s, g);
    }
    if s.TotalImcuRows() >= 2 {
      LateRows(s);
      var g: nat := (s.TotalImcuRows() - 1) * s.M - 1;
      assert Late(s, g) && g < s.Groups();
    }
  }

  /** The late group asks for rows up to the first group of the last iMCU row. */
  lemma {:induction false} LateRows(s: Strip)
    requires s.Valid() && s.TotalImcuRows() >= 2
    ensures var g := (s.TotalImcuRows() - 1) * s.M - 1;
            g >= 1 && g * s.rgroup == s.height - s.RowsLeft() - s.rgroup && g * s.rgroup >= s.rgroup
  {
    HeightSplit(s);
    var n := s.TotalImcuRows();
    RowOfGroup(s, n, -1);
    MulLe(1, n - 1, s.M);
    MulLe(1, (n - 1) * s.M - 1, s.rgroup);
  }

  /** A 17-row component with two-row row groups, eight to an iMCU row: row
      group 7 is followed by a row that is not in the image. */
  lemma {:induction false} UnclampedContext()
    ensures var s := Strip(2, 8, 17);
            s.Valid() && s.Groups() == 9 && Delivered(s, 7)[5] == 17 && Clamp(s, 7 * 2 - 2 + 5) == 16
  {
    var s := Strip(2, 8, 17);
    assert s.Rows() == 16 && s.TotalImcuRows() == 2;
    assert Late(s, 7);
    assert Delivered(s, 7)[5] == 7 * 2 - 2 + 5;
  }

  // ----- the controller

  /** The workspace rows that a list names first never hold the two row groups
      kept from the other list. */
  lemma {:induction false} PtrDistinct(s: Strip, w: nat, p: nat, q: nat)
    requires s.Valid() && w < 2 && p < q < s.Rows() + 2 * s.rgroup
    ensures Ptr(s, w, p) != Ptr(s, w, q)
  {
    hide Strip.Rows;
  }

  lemma {:induction false} PtrKept(s: Strip, w: nat, p: nat)
    requires s.Valid() && w < 2 && s.Rows() <= p < s.Rows() + 2 * s.rgroup
    ensures Ptr(s, w, p) == Ptr(s, 1 - w, p - 2 * s.rgroup)
  {
    hide Strip.Rows;
  }

  /** The coefficient controller delivers iMCU row n through list x. */
  method DecompressData(s: Strip, x: array<nat>, buffer: array<int>, ghost w: nat, ghost wrapped: bool, ghost n: nat, top: nat)
    requires s.Valid() && w == n % 2 && NormalList(s, x[..], w, wrapped) && buffer.Length == s.Rows() + 2 * s.rgroup
    requires top == Top(s, n + 1) && (n >= 1 ==> Content(s, buffer[..], n))
    modifies buffer
    ensures Content(s, buffer[..], n + 1)
  {
    var r, rm := s.rgroup, s.Rows();
    ghost var old0 := buffer[..];
    KeptRows(s, old0, n);
    hide Strip.Rows, Content, Top;
    var p := 0;
    while p < rm
      invariant 0 <= p <= rm
      invariant forall q :: 0 <= q < p ==> Ptr(s, w, q) < buffer.Length && buffer[Ptr(s, w, q)] == top + q
      invariant n >= 1 ==> forall q :: rm <= q < rm + 2 * r ==>
                  Ptr(s, w, q) < buffer.Length && buffer[Ptr(s, w, q)] == top - 2 * r + (q - rm)
    {
      assert Defined(s, w, wrapped, p + r);
      assert x[p + r] == Ptr(s, w, p);
      forall q | p < q < rm + 2 * r { PtrDistinct(s, w, p, q); }
      forall q | 0 <= q < p { PtrDistinct(s, w, q, p); }
      buffer[x[p + r]] := top + p;
      p := p + 1;
    }
    NewContent(s, buffer[..], n);
  }

  lemma {:induction false} KeptRows(s: Strip, buf: seq<int>, n: nat)
    requires s.Valid() && |buf| == s.Rows() + 2 * s.rgroup && (n >= 1 ==> Content(s, buf, n))
    ensures n >= 1 ==> forall q :: s.Rows() <= q < s.Rows() + 2 * s.rgroup ==>
              Ptr(s, n % 2, q) < |buf| && buf[Ptr(s, n % 2, q)] == Top(s, n + 1) - 2 * s.rgroup + (q - s.Rows())
  {
    if n >= 1 {
      forall q | s.Rows() <= q < s.Rows() + 2 * s.rgroup
        ensures Ptr(s, n % 2, q) < |buf| && buf[Ptr(s, n % 2, q)] == Top(s, n + 1) - 2 * s.rgroup + (q - s.Rows())
      {
        hide *;
        KeptRow(s, buf, n, q);
      }
    }
  }

  lemma {:induction false} KeptRow(s: Strip, buf: seq<int>, n: nat, q: nat)
    requires s.Valid() && |buf| == s.Rows() + 2 * s.rgroup && n >= 1 && Content(s, buf, n)
    requires s.Rows() <= q < s.Rows() + 2 * s.rgroup
    ensures Ptr(s, n % 2, q) < |buf| && buf[Ptr(s, n % 2, q)] == Top(s, n + 1) - 2 * s.rgroup + (q - s.Rows())
  {
    TopFacts(s, n);
    hide Strip.Rows, Top, Ptr;
    PtrKept(s, n % 2, q);
    assert 1 - n % 2 == (n - 1) % 2;
    assert buf[Ptr(s, (n - 1) % 2, q - 2 * s.rgroup)] == Top(s, n) + (q - 2 * s.rgroup);
  }

  lemma {:induction false} NewContent(s: Strip, buf: seq<int>, n: nat)
    requires s.Valid() && |buf| == s.Rows() + 2 * s.rgroup
    requires forall q :: 0 <= q < s.Rows() ==> Ptr(s, n % 2, q) < |buf| && buf[Ptr(s, n % 2, q)] == Top(s, n + 1) + q
    requires n >= 1 ==> forall q :: s.Rows() <= q < s.Rows() + 2 * s.rgroup ==>
               Ptr(s, n % 2, q) < |buf| && buf[Ptr(s, n % 2, q)] == Top(s, n + 1) - 2 * s.rgroup + (q - s.Rows())
    ensures Content(s, buf, n + 1)
  {
    hide Strip.Rows, Ptr, Top;
  }

  datatype CtxState = PrepareForImcu | ProcessImcu | PostponedRow

  class Controller {
    const s: Strip
    const buffer: array<int>      // workspace, one row number per sample row
    const x0: array<nat>          // xbuffer[0] and xbuffer[1]
    const x1: array<nat>
    var bufferFull: bool
    var rowgroupCtr: nat
    var rowgroupsAvail: nat
    var whichptr: nat
    var contextState: CtxState
    var imcuRowCtr: nat
    ghost var seen: seq<seq<int>>   // every row group the postprocessor took, with its context

    ghost predicate Shape()
    {
      && s.Valid() && x0 != x1 && x0.Length == x1.Length == ListLength(s)
      && buffer.Length == s.Rows() + 2 * s.rgroup
    }

    ghost predicate Lists(wrapped: bool)
      requires s.Valid()
      reads x0, x1
    {
      NormalList(s, x0[..], 0, wrapped) && NormalList(s, x1[..], 1, wrapped)
    }

    ghost function Current(): seq<nat>
      reads `whichptr, x0, x1
    {
      if whichptr == 0 then x0[..] else x1[..]
    }

    /** How far each state has come. */
    ghost predicate Valid()
      reads this, buffer, x0, x1
    {
      && Shape() && seen == AllDelivered(s, |seen|) && whichptr < 2
      && var n, total := imcuRowCtr, s.TotalImcuRows();
      && n <= total && (n >= 1 ==> Content(s, buffer[..], n))
      && (contextState == PrepareForImcu && n == 0 ==>
            !bufferFull && whichptr == 0 && |seen| == 0 && Lists(false))
      && (contextState == PrepareForImcu && n > 0 ==> n >= 2 && Ready(n))
      && (contextState == ProcessImcu ==> n >= 1 && Feeding(n, total))
      && (contextState == PostponedRow && !bufferFull ==>
            n >= 1 && (n == total ==> |seen| == s.Groups()) && (n < total ==> Waiting(n)))
      && (contextState == PostponedRow && bufferFull ==> n >= 2 && Postponed(n))
    }

    /** Between calls an iMCU row in progress, or a postponed row group, has something left to feed. */
    ghost predicate Idle()
      reads this, buffer, x0, x1
    {
      Valid() && (contextState == ProcessImcu || (contextState == PostponedRow && bufferFull) ==> rowgroupCtr < rowgroupsAvail)
    }

    ghost predicate Ready(n: nat)
      requires s.Valid() && n >= 1
      reads this, x0, x1
    {
      bufferFull && whichptr == (n - 1) % 2 && |seen| == (n - 1) * s.M && Lists(n >= 2)
    }

    ghost predicate Feeding(n: nat, total: nat)
      requires s.Valid() && n >= 1
      reads this, x0, x1
    {
      && bufferFull && whichptr == (n - 1) % 2 && |seen| == (n - 1) * s.M + rowgroupCtr && rowgroupCtr <= rowgroupsAvail
      && (n == total ==> rowgroupsAvail == s.LastGroups() && BottomList(s, Current(), whichptr, n >= 2))
      && (n < total ==> rowgroupsAvail == s.M - 1 && Lists(n >= 2))
    }

    ghost predicate Waiting(n: nat)
      requires s.Valid() && n >= 1
      reads this, x0, x1
    {
      whichptr == n % 2 && rowgroupCtr == s.M + 1 && rowgroupsAvail == s.M + 2 && |seen| == n * s.M - 1 && Lists(true)
    }

    ghost predicate Postponed(n: nat)
      requires s.Valid() && n >= 1
      reads this, x0, x1
    {
      && whichptr == (n - 1) % 2 && rowgroupsAvail == s.M + 2 && s.M + 1 <= rowgroupCtr <= s.M + 2
      && |seen| == (n - 1) * s.M - 1 + (rowgroupCtr - s.M - 1) && Lists(true)
    }

    /** start_pass_main. */
    constructor (s: Strip)
      requires s.Valid()
      ensures Idle() && this.s == s && seen == [] && fresh(buffer) && fresh(x0) && fresh(x1)
    {
      this.s := s;
      buffer := new int[s.Rows() + 2 * s.rgroup](i => 0);
      x0 := new nat[ListLength(s)](i => 0);
      x1 := new nat[ListLength(s)](i => 0);
      bufferFull, rowgroupCtr, rowgroupsAvail, whichptr := false, 0, 0, 0;
      contextState, imcuRowCtr, seen := PrepareForImcu, 0, [];
      new;
      hide Strip.Rows, Strip.TotalImcuRows;
      MakeFunnyPointers(s, x0, x1);
    }

    /** post_process_data: it takes up to `take` row groups of those available. */
    method PostProcess(take: nat)
      requires Valid() && (contextState == ProcessImcu || (contextState == PostponedRow && bufferFull))
      modifies `rowgroupCtr, `seen
      ensures Valid()
      ensures rowgroupCtr == if old(rowgroupCtr) + take <= rowgroupsAvail then old(rowgroupCtr) + take else rowgroupsAvail
      ensures |seen| == |old(seen)| + (rowgroupCtr - old(rowgroupCtr)) && old(seen) <= seen
    {
      assert rowgroupCtr <= rowgroupsAvail;
      hide Controller.Valid;
      ghost var ctr0, seen0 := rowgroupCtr, seen;
      var taken := 0;
      while taken < take && rowgroupCtr < rowgroupsAvail
        invariant taken <= take && rowgroupCtr == ctr0 + taken && rowgroupCtr <= rowgroupsAvail
        invariant Valid() && |seen| == |seen0| + taken && seen0 <= seen
      {
        TakeOne();
        taken := taken + 1;
      }
    }

    method TakeOne()
      requires Valid() && rowgroupCtr < rowgroupsAvail
      requires contextState == ProcessImcu || (contextState == PostponedRow && bufferFull)
      modifies `rowgroupCtr, `seen
      ensures Valid() && rowgroupCtr == old(rowgroupCtr) + 1
      ensures |seen| == |old(seen)| + 1 && old(seen) <= seen
    {
      hide NormalList, BottomList, Content, Delivered, AllDelivered, View, Controller.Lists, Controller.Current,
        Strip.Rows, Strip.TotalImcuRows, Strip.LastGroups, Strip.Groups;
      ghost var view := NextView();
      DeliveredNext(s, |seen|);
      seen := seen + [view];
      rowgroupCtr := rowgroupCtr + 1;
    }

    ghost method NextView() returns (view: seq<int>)
      requires Valid() && rowgroupCtr < rowgroupsAvail
      requires contextState == ProcessImcu || (contextState == PostponedRow && bufferFull)
      ensures (rowgroupCtr + 3) * s.rgroup <= |Current()| && view == View(s, Current(), buffer[..], rowgroupCtr)
      ensures view == Delivered(s, |seen|)
    {
      hide NormalList, BottomList, Content, AllDelivered, Delivered, Strip.Rows, Strip.TotalImcuRows, Strip.LastGroups;
      var n := imcuRowCtr;
      var x, buf := Current(), buffer[..];
      if contextState == PostponedRow {
        ViewPostponed(s, x, buf, n);
      } else if n == s.TotalImcuRows() {
        ViewBottom(s, x, buf, rowgroupCtr, |seen|);
      } else {
        ViewNormal(s, x, buf, n, rowgroupCtr);
      }
      view := View(s, x, buf, rowgroupCtr);
    }

    /** An iMCU row has arrived and none of it has been fed yet. */
    ghost predicate Arrived()
      reads this, buffer, x0, x1
    {
      && Shape() && seen == AllDelivered(s, |seen|) && whichptr < 2
      && 1 <= imcuRowCtr <= s.TotalImcuRows() && Content(s, buffer[..], imcuRowCtr) && Ready(imcuRowCtr)
    }

    /** Read an iMCU row if the buffer is empty; false when the source suspends. */
    method FillBuffer(sourceReady: bool) returns (ok: bool)
      requires Valid() && |seen| < s.Groups()
      modifies `bufferFull, `imcuRowCtr, buffer
      ensures ok == (old(bufferFull) || sourceReady)
      ensures !ok ==> Valid() && unchanged(this) && unchanged(buffer)
      ensures ok ==> bufferFull && if contextState == PrepareForImcu then Arrived() else Valid()
      ensures contextState == PostponedRow && !old(bufferFull) ==> old(rowgroupCtr < rowgroupsAvail)
    {
      hide NormalList, BottomList, Content, AllDelivered, Delivered, Strip.Rows, Strip.TotalImcuRows, Strip.LastGroups;
      ok := true;
      if !bufferFull {
        if !sourceReady {
          return false;
        }
        ghost var n := imcuRowCtr;
        AtLeastOneRow(s);
        StartRow(s, n);
        DecompressData(s, if whichptr == 0 then x0 else x1, buffer, whichptr, contextState == PostponedRow, n, imcuRowCtr * s.Rows());
        bufferFull := true;
        imcuRowCtr := imcuRowCtr + 1;
      }
    }

    /** Feed the row group saved from the iMCU row before. */
    method FeedPostponed(take: nat) returns (done: bool)
      requires Valid() && contextState == PostponedRow && bufferFull
      modifies `rowgroupCtr, `contextState, `seen
      ensures Valid() && old(seen) <= seen && |seen| <= s.Groups()
      ensures done ==> contextState == PrepareForImcu && Arrived() && |seen| < s.Groups()
      ensures take > 0 ==> done
      ensures take > 0 && old(rowgroupCtr < rowgroupsAvail) ==> |seen| > |old(seen)|
      ensures !done ==> contextState == PostponedRow && rowgroupCtr < rowgroupsAvail
    {
      hide NormalList, BottomList, Content, AllDelivered, Delivered, Strip.Rows, Strip.TotalImcuRows, Strip.LastGroups, Strip.Groups;
      GroupsBound(s, imcuRowCtr);
      PostProcess(take);
      done := rowgroupCtr >= rowgroupsAvail;
      if done {
        contextState := PrepareForImcu;
      }
    }

    /** Feed the row groups of this iMCU row, and leave it when they are done. */
    method FeedImcu(take: nat)
      requires Valid() && contextState == ProcessImcu
      modifies `rowgroupCtr, `rowgroupsAvail, `contextState, `whichptr, `bufferFull, `seen, x0, x1
      ensures Idle() && old(seen) <= seen && |seen| <= s.Groups()
      ensures take > 0 && old(rowgroupCtr < rowgroupsAvail) ==> |seen| > |old(seen)|
    {
      hide NormalList, BottomList, Content, AllDelivered, Delivered, Strip.Rows, Strip.TotalImcuRows, Strip.LastGroups, Strip.Groups;
      GroupsBound(s, imcuRowCtr);
      PostProcess(take);
      if rowgroupCtr < rowgroupsAvail {
        return;
      }
      EndImcu();
    }

    /** Prepare for the first M-1 row groups of the iMCU row, or, at the bottom
        of the image, for all its real ones. */
    method StartImcu()
      requires Arrived()
      modifies `rowgroupCtr, `rowgroupsAvail, `contextState, x0, x1
      ensures Valid() && contextState == ProcessImcu && rowgroupCtr == 0 < rowgroupsAvail
    {
      hide Content, AllDelivered, Delivered, Strip.Rows, Strip.TotalImcuRows, NormalList, BottomList, Strip.LastGroups;
      GroupsBound(s, imcuRowCtr);
      rowgroupCtr := 0;
      rowgroupsAvail := s.M - 1;
      if imcuRowCtr == s.TotalImcuRows() {
        if whichptr == 0 {
          rowgroupsAvail := SetBottomPointers(s, x0, 0, imcuRowCtr >= 2);
        } else {
          rowgroupsAvail := SetBottomPointers(s, x1, 1, imcuRowCtr >= 2);
        }
      }
      contextState := ProcessImcu;
    }

    /** The iMCU row is used up: switch to the other list for the next one. */
    method EndImcu()
      requires Valid() && contextState == ProcessImcu && rowgroupCtr == rowgroupsAvail
      modifies `rowgroupCtr, `rowgroupsAvail, `contextState, `whichptr, `bufferFull, x0, x1
      ensures Valid() && contextState == PostponedRow && !bufferFull
    {
      hide Content, AllDelivered, Delivered, Strip.TotalImcuRows, Strip.Rows, NormalList, BottomList, Wrapped;
      if imcuRowCtr == 1 {
        ghost var y0, y1 := x0[..], x1[..];
        SetWraparoundPointers(s, x0);
        SetWraparoundPointers(s, x1);
        if imcuRowCtr < s.TotalImcuRows() {
          WrappedNormal(s, y0, x0[..], 0);
          WrappedNormal(s, y1, x1[..], 1);
        }
      }
      whichptr := 1 - whichptr;
      bufferFull := false;
      rowgroupCtr := s.M + 1;
      rowgroupsAvail := s.M + 2;
      contextState := PostponedRow;
      EndCounts(s, imcuRowCtr);
    }

    /** process_data_context_main. The caller's world is a source that is ready
        or not, how many row groups the postprocessor takes in each call, and
        whether the first call exactly filled the output buffer. */
    method ProcessDataContextMain(sourceReady: bool, take1: nat, filled: bool, take2: nat)
      requires Idle() && |seen| < s.Groups()
      modifies this, buffer, x0, x1
      ensures Idle() && old(seen) <= seen && |seen| <= s.Groups()
      ensures !old(bufferFull) && !sourceReady ==> seen == old(seen)
      ensures (old(bufferFull) || sourceReady) && take1 > 0 && take2 > 0 ==> |seen| > |old(seen)|
    {
      hide Controller.Valid, Controller.Arrived, Strip.Groups;
      var ok := FillBuffer(sourceReady);
      if !ok { return; }
      if contextState == PostponedRow {
        ok := FeedPostponed(take1);
        if !ok || filled {
          return;
        }
      }
      if contextState == PrepareForImcu {
        StartImcu();
      }
      FeedImcu(take2);
    }
  }

  lemma {:induction false} AtLeastOneRow(s: Strip)
    requires s.Valid()
    ensures s.TotalImcuRows() >= 1
  {
    HeightSplit(s);
  }

  /** While row groups are missing there is another iMCU row to read. */
  lemma {:induction false} StartRow(s: Strip, n: nat)
    requires s.Valid()
    ensures n * s.Rows() >= 0 && (n >= 1 ==> (n + 1 - 1) * s.M == n * s.M)
  {
  }

  lemma {:induction false} SomeLeft(s: Strip)
    requires s.Valid()
    ensures s.LastGroups() >= 1
  {
    HeightSplit(s);
    hide Strip.Rows, Strip.RowsLeft;
  }

  lemma {:induction false} GroupsBound(s: Strip, n: nat)
    requires s.Valid() && 1 <= n <= s.TotalImcuRows()
    ensures (n - 1) * s.M + 1 <= s.Groups() && s.LastGroups() >= 1
    ensures n == s.TotalImcuRows() ==> (n - 1) * s.M + s.LastGroups() == s.Groups()
    ensures n < s.TotalImcuRows() ==> n * s.M + 1 <= s.Groups() && n * s.M == (n - 1) * s.M + s.M
  {
    SomeLeft(s);
    var total := s.TotalImcuRows();
    assert s.Groups() == (total - 1) * s.M + s.LastGroups();
    hide Strip.Rows, Strip.TotalImcuRows, Strip.Groups, Strip.RowsLeft, Strip.LastGroups;
    MulLe(n - 1, total - 1, s.M);
    if n < total {
      MulLe(n, total - 1, s.M);
    }
  }

  lemma {:induction false} EndCounts(s: Strip, n: nat)
    requires s.Valid() && 1 <= n <= s.TotalImcuRows()
    ensures n * s.M == (n - 1) * s.M + s.M
    ensures n == s.TotalImcuRows() ==> (n - 1) * s.M + s.LastGroups() == s.Groups()
  {
  }

  /** One call of the driver loop. */
  datatype Call = Call(sourceReady: bool, take1: nat, filled: bool, take2: nat)

  /** The calls in which the source is ready and the postprocessor takes something. */
  function Productive(schedule: seq<Call>): nat {
    if schedule == [] then 0 else
    var k := schedule[|schedule| - 1];
    Productive(schedule[..|schedule| - 1]) + if k.sourceReady && k.take1 > 0 && k.take2 > 0 then 1 else 0
  }

  /** Any schedule of suspensions and output buffers, until the image is done
      or the schedule ends. All row groups come, once each and in order, as soon as
      there are as many productive calls as row groups. */
  method RunPass(s: Strip, schedule: seq<Call>) returns (c: Controller)
    requires s.Valid()
    ensures c.Valid() && c.s == s
    ensures c.seen == AllDelivered(s, |c.seen|) && |c.seen| <= s.Groups()
    ensures Productive(schedule) >= s.Groups() ==> c.seen == AllDelivered(s, s.Groups())
    ensures EdgesRepeat(s, c.seen)
  {
    hide EdgesRepeat, Delivered;
    c := new Controller(s);
    FirstGroup(s);
    var i := 0;
    while i < |schedule| && !(c.imcuRowCtr == s.TotalImcuRows() && c.contextState == PostponedRow && !c.bufferFull)
      invariant 0 <= i <= |schedule| && c.Idle() && c.s == s && |c.seen| <= s.Groups()
      invariant |c.seen| >= Productive(schedule[..i])
      invariant fresh(c) && fresh(c.buffer) && fresh(c.x0) && fresh(c.x1)
    {
      hide Controller.Idle, Controller.Valid, Strip.Groups, Strip.TotalImcuRows;
      Unfinished(c);
      assert schedule[..i + 1][..i] == schedule[..i];
      var k := schedule[i];
      c.ProcessDataContextMain(k.sourceReady, k.take1, k.filled, k.take2);
      i := i + 1;
    }
    hide Strip.Groups, Strip.TotalImcuRows;
    Finished(c);
    assert schedule[..|schedule|] == schedule;
    RowsDelivered(s, |c.seen|);
  }

  /** Row i of group g with its context: that row of the image, or the first or last one beyond
      its edges; the late group excepted. */
  ghost predicate RowRepeats(s: Strip, g: nat, i: nat, x: int)
    requires s.Valid()
  {
    var j := g * s.rgroup - s.rgroup + i;
    && (0 <= j < s.height ==> x == j)
    && (j < 0 ==> x == 0)
    && (j >= s.height && !Late(s, g) ==> x == s.height - 1)
  }

  ghost predicate EdgesRepeat(s: Strip, groups: seq<seq<int>>)
    requires s.Valid()
  {
    forall g, i :: 0 <= g < |groups| && 0 <= i < |groups[g]| ==> |groups[g]| == 3 * s.rgroup && RowRepeats(s, g, i, groups[g][i])
  }

  lemma {:induction false} RowsDelivered(s: Strip, k: nat)
    requires s.Valid()
    ensures EdgesRepeat(s, AllDelivered(s, k))
  {
    var seen := AllDelivered(s, k);
    forall g, i | 0 <= g < k && 0 <= i < |seen[g]|
      ensures |seen[g]| == 3 * s.rgroup && RowRepeats(s, g, i, seen[g][i])
    {
      RowDelivered(s, g, i);
      assert seen[g] == Delivered(s, g);
    }
  }

  lemma {:induction false} RowDelivered(s: Strip, g: nat, i: nat)
    requires s.Valid() && i < 3 * s.rgroup
    ensures RowRepeats(s, g, i, Delivered(s, g)[i])
  {
    hide Late;
    var j := g * s.rgroup - s.rgroup + i;
    assert Delivered(s, g)[i] == if Late(s, g) then j else Clamp(s, j);
    assert Late(s, g) ==> j >= 0 by { LateIsLow(s, g); }
  }

  lemma {:induction false} LateIsLow(s: Strip, g: nat)
    requires s.Valid()
    ensures Late(s, g) ==> g * s.rgroup >= s.rgroup
  {
    if Late(s, g) {
      LateRows(s);
    }
  }

  /** Once the last iMCU row is used up every row group has been fed. */
  lemma {:induction false} Finished(c: Controller)
    requires c.Valid()
    ensures c.imcuRowCtr == c.s.TotalImcuRows() && c.contextState == PostponedRow && !c.bufferFull ==> |c.seen| == c.s.Groups()
  {
  }

  lemma {:induction false} FirstGroup(s: Strip)
    requires s.Valid()
    ensures s.Groups() >= 1
  {
    HeightSplit(s);
    GroupsBound(s, 1);
  }

  /** Unless the last iMCU row has been used up, row groups are missing. */
  lemma {:induction false} Unfinished(c: Controller)
    requires c.Idle() && !(c.imcuRowCtr == c.s.TotalImcuRows() && c.contextState == PostponedRow && !c.bufferFull)
    ensures |c.seen| < c.s.Groups()
  {
    hide NormalList, BottomList, Content, AllDelivered, Delivered, Strip.Rows, Strip.TotalImcuRows, Strip.LastGroups, Strip.Groups;
    AtLeastOneRow(c.s);
    if c.imcuRowCtr >= 1 {
      GroupsBound(c.s, c.imcuRowCtr);
    } else {
      FirstGroup(c.s);
    }
  }

  /** The row groups delivered are just enough to cover the component. */
  lemma {:induction false} GroupsCover(s: Strip)
    requires s.Valid()
    ensures (s.Groups() - 1) * s.rgroup < s.height <= s.Groups() * s.rgroup
  {
    HeightSplit(s);
    var n, r, left := s.TotalImcuRows(), s.rgroup, s.RowsLeft();
    var q := (left - 1) / r;
    assert s.Groups() == (n - 1) * s.M + (q + 1);
    hide Strip.Rows, Strip.TotalImcuRows, Strip.Groups, Strip.RowsLeft, Strip.LastGroups;
    RowOfGroup(s, n, q);
    RowOfGroup(s, n, q + 1);
    assert q * r <= left - 1 < q * r + r && (q + 1) * r == q * r + r;
  }
}
