/**
 * The greedy matcher of item_tracking/tracker.py (`matchingDistanceDecider`), on values.
 *
 * Rows of the distance matrix are this cycle's observations (`newItems`), columns the items
 * tracked so far. The matcher repeatedly takes the smallest entry that is not NaN; while it is
 * below the threshold the pair is accepted and its row and column are overwritten with NaN.
 * The pick is the first minimum in row-major order among the entries that are not NaN.
 */
module Matching {
  import opened Optional
  import opened Cells

  type Matrix = seq<seq<Cell>>

  /** Every row has `cols` entries. */
  predicate Rect(M: Matrix, cols: nat) {
    forall j :: 0 <= j < |M| ==> |M[j]| == cols
  }

  /** A position of the matrix: `row` indexes the observations, `col` the tracked items. */
  datatype Index = Index(row: nat, col: nat)

  /** Entry (j, i) comes before `at` in row-major order, the order in which `argmin` scans. */
  predicate Precedes(j: int, i: int, at: Index) {
    j < at.row || (j == at.row && i < at.col)
  }

  /** The first smallest entry of `row` that is not NaN, from column `i` on. */
  function RowArgMin(row: seq<Cell>, i: nat): (r: Option<nat>)
    requires i <= |row|
    decreases |row| - i
    ensures r.None? <==> forall k :: i <= k < |row| ==> row[k].NaN?
    ensures r.Some? ==> i <= r.value < |row| && row[r.value].Finite?
  {
    if i == |row| then None
    else
      var rest := RowArgMin(row, i + 1);
      if row[i].NaN? then rest
      else if rest.None? || row[i].value <= row[rest.value].value then Some(i)
      else rest
  }

  /** `RowArgMin` finds a smallest entry, and every entry before it is strictly larger. */
  lemma {:induction false} RowArgMinIsFirstMin(row: seq<Cell>, i: nat)
    requires i <= |row| && RowArgMin(row, i).Some?
    decreases |row| - i
    ensures var a := RowArgMin(row, i).value;
      && (forall k :: i <= k < |row| && row[k].Finite? ==> row[a].value <= row[k].value)
      && (forall k :: i <= k < a && row[k].Finite? ==> row[a].value < row[k].value)
  {
    if RowArgMin(row, i + 1).Some? {
      RowArgMinIsFirstMin(row, i + 1);
    }
  }

  /** The first smallest entry that is not NaN, in row-major order, from row `l` on. */
  function ArgMinFrom(M: Matrix, l: nat): (r: Option<Index>)
    requires l <= |M|
    decreases |M| - l
    ensures r.None? <==> forall j, i :: l <= j < |M| && 0 <= i < |M[j]| ==> M[j][i].NaN?
    ensures r.Some? ==> l <= r.value.row < |M| && r.value.col < |M[r.value.row]|
    ensures r.Some? ==> M[r.value.row][r.value.col].Finite?
  {
    if l == |M| then None
    else
      var rest := ArgMinFrom(M, l + 1);
      var a := RowArgMin(M[l], 0);
      if a.None? then rest
      else if rest.None? || M[l][a.value].value <= M[rest.value.row][rest.value.col].value then Some(Index(l, a.value))
      else rest
  }

  /** `ArgMinFrom` finds a smallest entry, and every entry before it in row-major order is strictly larger. */
  lemma {:induction false} ArgMinFromIsFirstMin(M: Matrix, l: nat)
    requires l <= |M| && ArgMinFrom(M, l).Some?
    decreases |M| - l
    ensures var at := ArgMinFrom(M, l).value; var m := M[at.row][at.col].value;
      && (forall j, i :: l <= j < |M| && 0 <= i < |M[j]| && M[j][i].Finite? ==> m <= M[j][i].value)
      && (forall j, i :: l <= j < |M| && 0 <= i < |M[j]| && Precedes(j, i, at) && M[j][i].Finite? ==> m < M[j][i].value)
  {
    if ArgMinFrom(M, l + 1).Some? {
      ArgMinFromIsFirstMin(M, l + 1);
    }
    if RowArgMin(M[l], 0).Some? {
      RowArgMinIsFirstMin(M[l], 0);
    }
  }

  /** `np.argmin`, restricted to the entries that are not NaN. */
  function ArgMin(M: Matrix): (r: Option<Index>)
    ensures r.None? <==> forall j, i :: 0 <= j < |M| && 0 <= i < |M[j]| ==> M[j][i].NaN?
    ensures r.Some? ==> r.value.row < |M| && r.value.col < |M[r.value.row]| && M[r.value.row][r.value.col].Finite?
  {
    ArgMinFrom(M, 0)
  }

  /** `np.nanmin`: the smallest entry that is not NaN, or NaN when every entry is. */
  function NanMin(M: Matrix): (m: Cell)
    ensures m.NaN? <==> ArgMin(M).None?
  {
    match ArgMin(M)
    case None => NaN
    case Some(at) => M[at.row][at.col]
  }

  // ---------------------------------------------------------------------------------------
  // Accepted pairs

  /** An entry `[c, l]` of `toUpdate`: tracked item `track` = c matched with observation `obs` = l. */
  datatype Pair = Pair(track: nat, obs: nat)

  /** `checked[0]`, the tracked items already matched. */
  function Olds(ps: seq<Pair>): (r: seq<nat>)
    ensures |r| == |ps| && forall k :: 0 <= k < |ps| ==> r[k] == ps[k].track
  {
    seq(|ps|, k requires 0 <= k < |ps| => ps[k].track)
  }

  /** `checked[1]`, the observations already matched. */
  function News(ps: seq<Pair>): (r: seq<nat>)
    ensures |r| == |ps| && forall k :: 0 <= k < |ps| ==> r[k] == ps[k].obs
  {
    seq(|ps|, k requires 0 <= k < |ps| => ps[k].obs)
  }

  /** Accepting one more pair appends its two sides to the two lists of sides. */
  lemma AppendPair(ps: seq<Pair>, p: Pair)
    ensures Olds(ps + [p]) == Olds(ps) + [p.track] && News(ps + [p]) == News(ps) + [p.obs]
  {
    assert Olds(ps + [p]) == Olds(ps) + [p.track];
    assert News(ps + [p]) == News(ps) + [p.obs];
  }

  predicate Distinct(s: seq<nat>) {
    forall i, j :: 0 <= i < j < |s| ==> s[i] != s[j]
  }

  /** Pairs within a `rows` x `cols` matrix that use no row and no column twice. */
  predicate Injective(ps: seq<Pair>, rows: nat, cols: nat) {
    && (forall k :: 0 <= k < |ps| ==> ps[k].obs < rows && ps[k].track < cols)
    && Distinct(Olds(ps))
    && Distinct(News(ps))
  }

  /** The matrix after the rows and columns of the pairs `used` have been overwritten with NaN. */
  function Masked(D: Matrix, used: seq<Pair>): (M: Matrix)
    ensures |M| == |D| && forall j :: 0 <= j < |D| ==> |M[j]| == |D[j]|
  {
    seq(|D|, j requires 0 <= j < |D| =>
      seq(|D[j]|, i requires 0 <= i < |D[j]| =>
        if j in News(used) || i in Olds(used) then NaN else D[j][i]))
  }

  /** An entry of the masked matrix is NaN on a used row or column and the original elsewhere. */
  lemma MaskedAt(D: Matrix, used: seq<Pair>, j: nat, i: nat)
    requires j < |D| && i < |D[j]|
    ensures Masked(D, used)[j][i] == if j in News(used) || i in Olds(used) then NaN else D[j][i]
  {
  }

  /** The matrix with row `l` overwritten with NaN. */
  function NanRow(M: Matrix, l: nat): (r: Matrix)
    requires l < |M|
    ensures |r| == |M| && forall j :: 0 <= j < |M| ==> |r[j]| == |M[j]|
  {
    M[l := seq(|M[l]|, i => NaN)]
  }

  /** The matrix with column `c` of every row overwritten with NaN. */
  function NanColumn(M: Matrix, c: nat): (r: Matrix)
    requires forall j :: 0 <= j < |M| ==> c < |M[j]|
    ensures |r| == |M| && forall j :: 0 <= j < |M| ==> |r[j]| == |M[j]|
  {
    seq(|M|, j requires 0 <= j < |M| => M[j][c := NaN])
  }

  /** Before any pair is accepted nothing is masked. */
  lemma MaskedNothing(D: Matrix)
    ensures Masked(D, []) == D
  {
    forall j | 0 <= j < |D| ensures Masked(D, [])[j] == D[j] {
      forall i | 0 <= i < |D[j]| ensures Masked(D, [])[j][i] == D[j][i] {
        MaskedAt(D, [], j, i);
      }
    }
  }

  /**
   * Accepting the pair `p` and overwriting its row and its column with NaN masks exactly
   * what masking by the longer list of pairs does.
   */
  lemma MaskedExtend(D: Matrix, used: seq<Pair>, p: Pair, cols: nat)
    requires Rect(D, cols) && p.obs < |D| && p.track < cols
    ensures Masked(D, used + [p]) == NanColumn(NanRow(Masked(D, used), p.obs), p.track)
  {
    var ext := used + [p];
    assert News(ext) == News(used) + [p.obs];
    assert Olds(ext) == Olds(used) + [p.track];
    var L, R := Masked(D, ext), NanColumn(NanRow(Masked(D, used), p.obs), p.track);
    forall j | 0 <= j < |D| ensures L[j] == R[j] {
      forall i | 0 <= i < |D[j]| ensures L[j][i] == R[j][i] {
        MaskedAt(D, ext, j, i);
        MaskedAt(D, used, j, i);
      }
    }
  }

  // ---------------------------------------------------------------------------------------
  // Counting

  function Elems(s: seq<nat>): set<nat> {
    set x | x in s
  }

  /** A set of numbers below `n` has at most `n` elements. */
  lemma {:induction false} SetBelow(S: set<nat>, n: nat)
    requires forall x :: x in S ==> x < n
    ensures |S| <= n
  {
    if n > 0 {
      var S' := S - {n - 1};
      SetBelow(S', n - 1);
      assert S <= S' + {n - 1};
    } else {
      assert S == {};
    }
  }

  lemma {:induction false} DistinctSize(s: seq<nat>)
    requires Distinct(s)
    ensures |Elems(s)| == |s|
  {
    if s != [] {
      var init, last := s[..|s| - 1], s[|s| - 1];
      assert s == init + [last];
      DistinctSize(init);
      assert Elems(s) == Elems(init) + {last};
      assert last !in Elems(init);
    }
  }

  /** A repetition-free sequence of numbers below `n` has at most `n` elements. */
  lemma DistinctBelow(s: seq<nat>, n: nat)
    requires Distinct(s) && forall k :: 0 <= k < |s| ==> s[k] < n
    ensures |s| <= n
  {
    DistinctSize(s);
    SetBelow(Elems(s), n);
  }

  // ---------------------------------------------------------------------------------------
  // The greedy loop

  /** An entry left unmasked belongs to a row and a column no pair uses yet. */
  lemma PickIsFree(D: Matrix, used: seq<Pair>, at: Index)
    requires at.row < |D| && at.col < |D[at.row]|
    requires Masked(D, used)[at.row][at.col].Finite?
    ensures at.row !in News(used) && at.col !in Olds(used)
    ensures Masked(D, used)[at.row][at.col] == D[at.row][at.col]
  {
    MaskedAt(D, used, at.row, at.col);
  }

  lemma ExtendInjective(used: seq<Pair>, p: Pair, rows: nat, cols: nat)
    requires Injective(used, rows, cols)
    requires p.obs < rows && p.track < cols && p.obs !in News(used) && p.track !in Olds(used)
    ensures Injective(used + [p], rows, cols)
    ensures |used| < rows && |used| < cols
  {
    var ext := used + [p];
    assert Olds(ext) == Olds(used) + [p.track];
    assert News(ext) == News(used) + [p.obs];
    DistinctBelow(News(ext), rows);
    DistinctBelow(Olds(ext), cols);
  }

  /** The pair `[c, l]` read off the position `np.argmin` returns. */
  function Pick(M: Matrix): Pair
    requires ArgMin(M).Some?
  {
    Pair(ArgMin(M).value.col, ArgMin(M).value.row)
  }

  /**
   * The `while mini < thresholdDist` loop from the point where the pairs `used` have been
   * accepted and their rows and columns masked.
   */
  function GreedyFrom(D: Matrix, cols: nat, threshold: real, used: seq<Pair>): (r: seq<Pair>)
    requires Rect(D, cols) && Injective(used, |D|, cols)
    decreases |D| - |used|
    ensures Injective(r, |D|, cols) && |used| <= |r| && r[..|used|] == used
    ensures var M := Masked(D, used);
      if Below(NanMin(M), threshold) then |used| < |r| && r[|used|] == Pick(M) else r == used
  {
    var M := Masked(D, used);
    if Below(NanMin(M), threshold) then
      var p := Pick(M);
      GreedyStep(D, cols, threshold, used);
      var r := GreedyFrom(D, cols, threshold, used + [p]);
      PrefixOfExtension(r, used, p);
      r
    else used
  }

  /** A pick below the threshold extends the accepted pairs without reusing a row or a column. */
  lemma GreedyStep(D: Matrix, cols: nat, threshold: real, used: seq<Pair>)
    requires Rect(D, cols) && Injective(used, |D|, cols)
    requires Below(NanMin(Masked(D, used)), threshold)
    ensures Injective(used + [Pick(Masked(D, used))], |D|, cols) && |used| < |D|
  {
    var M := Masked(D, used);
    PickIsFree(D, used, ArgMin(M).value);
    ExtendInjective(used, Pick(M), |D|, cols);
  }

  lemma PrefixOfExtension(r: seq<Pair>, used: seq<Pair>, p: Pair)
    requires |used| < |r| && r[..|used| + 1] == used + [p]
    ensures r[..|used|] == used && r[|used|] == p
  {
    assert r[..|used|] == r[..|used| + 1][..|used|];
    assert r[|used|] == r[..|used| + 1][|used|];
  }

  /**
   * One turn of the `while` loop: with the smallest remaining entry below the threshold, its
   * pair is accepted, the loop goes on from the longer list, and the matrix is masked by
   * overwriting the pair's row and column.
   */
  lemma GreedyAccept(D: Matrix, cols: nat, threshold: real, used: seq<Pair>)
    requires Rect(D, cols) && Injective(used, |D|, cols)
    requires Below(NanMin(Masked(D, used)), threshold)
    ensures var p := Pick(Masked(D, used));
      && p.obs < |D| && p.track < cols && |used| < |D|
      && Injective(used + [p], |D|, cols)
      && GreedyFrom(D, cols, threshold, used + [p]) == GreedyFrom(D, cols, threshold, used)
      && Masked(D, used + [p]) == NanColumn(NanRow(Masked(D, used), p.obs), p.track)
      && Rect(Masked(D, used), cols) && Rect(NanRow(Masked(D, used), p.obs), cols)
      && Olds(used + [p]) == Olds(used) + [p.track] && News(used + [p]) == News(used) + [p.obs]
  {
    var p := Pick(Masked(D, used));
    GreedyStep(D, cols, threshold, used);
    MaskedExtend(D, used, p, cols);
    AppendPair(used, p);
  }

  /** The loop stops once the smallest remaining entry is NaN or not below the threshold. */
  lemma GreedyStops(D: Matrix, cols: nat, threshold: real, used: seq<Pair>)
    requires Rect(D, cols) && Injective(used, |D|, cols)
    requires !Below(NanMin(Masked(D, used)), threshold)
    ensures GreedyFrom(D, cols, threshold, used) == used
  {
  }

  /** The accepted pairs `toUpdate` of one cycle; nothing is matched when either side is empty. */
  function Greedy(D: Matrix, cols: nat, threshold: real): (r: seq<Pair>)
    requires Rect(D, cols)
    ensures Injective(r, |D|, cols)
    ensures |D| == 0 || cols == 0 ==> r == []
  {
    if |D| == 0 || cols == 0 then [] else GreedyFrom(D, cols, threshold, [])
  }

  /** Pair `k` is the first row-major minimum of the matrix masked by the pairs before it. */
  predicate PickedAt(D: Matrix, threshold: real, r: seq<Pair>, k: nat)
    requires k < |r|
  {
    var M := Masked(D, r[..k]);
    Below(NanMin(M), threshold) && r[k] == Pick(M)
  }

  /** The loop has stopped: the smallest remaining entry is NaN or not below the threshold. */
  predicate Stopped(D: Matrix, threshold: real, r: seq<Pair>) {
    !Below(NanMin(Masked(D, r)), threshold)
  }

  lemma {:induction false} GreedyFromSteps(D: Matrix, cols: nat, threshold: real, used: seq<Pair>)
    requires Rect(D, cols) && Injective(used, |D|, cols)
    decreases |D| - |used|
    ensures var r := GreedyFrom(D, cols, threshold, used);
      (forall k :: |used| <= k < |r| ==> PickedAt(D, threshold, r, k)) && Stopped(D, threshold, r)
  {
    var M := Masked(D, used);
    if Below(NanMin(M), threshold) {
      var p := Pick(M);
      GreedyStep(D, cols, threshold, used);
      GreedyFromSteps(D, cols, threshold, used + [p]);
      var r := GreedyFrom(D, cols, threshold, used);
      assert r == GreedyFrom(D, cols, threshold, used + [p]);
      assert r[..|used|] == used;
      assert PickedAt(D, threshold, r, |used|);
    }
  }

  /** Every step of `Greedy` is a pick of the loop, and the loop has stopped at the end. */
  lemma GreedySteps(D: Matrix, cols: nat, threshold: real)
    requires Rect(D, cols)
    ensures var r := Greedy(D, cols, threshold);
      (forall k :: 0 <= k < |r| ==> PickedAt(D, threshold, r, k)) && (|D| > 0 && cols > 0 ==> Stopped(D, threshold, r))
  {
    if |D| > 0 && cols > 0 {
      GreedyFromSteps(D, cols, threshold, []);
    }
  }

  /** A row and a column no pair in `ps` uses. */
  predicate Free(ps: seq<Pair>, j: nat, i: nat) {
    j !in News(ps) && i !in Olds(ps)
  }

  /** What is free after `k'` steps was free after `k <= k'` steps. */
  lemma FreeEarlier(r: seq<Pair>, k: nat, k': nat, j: nat, i: nat)
    requires k <= k' <= |r| && Free(r[..k'], j, i)
    ensures Free(r[..k], j, i)
  {
    forall x | 0 <= x < k ensures News(r[..k])[x] != j && Olds(r[..k])[x] != i {
      assert News(r[..k])[x] == News(r[..k'])[x];
      assert Olds(r[..k])[x] == Olds(r[..k'])[x];
    }
  }

  /** The position `argmin` picks is no larger than any free entry that is not NaN, and smaller than the earlier ones. */
  lemma PickIsSmallest(D: Matrix, used: seq<Pair>, j: nat, i: nat)
    requires ArgMin(Masked(D, used)).Some?
    requires j < |D| && i < |D[j]| && Free(used, j, i) && D[j][i].Finite?
    ensures var M := Masked(D, used); var at := ArgMin(M).value;
      && M[at.row][at.col].value <= D[j][i].value
      && (Precedes(j, i, at) ==> M[at.row][at.col].value < D[j][i].value)
  {
    MaskedAt(D, used, j, i);
    ArgMinFromIsFirstMin(Masked(D, used), 0);
  }

  /** The entry picked at step `k`: it was free, and in the original matrix it is a number below the threshold. */
  lemma PickedEntry(D: Matrix, cols: nat, threshold: real, r: seq<Pair>, k: nat)
    requires Rect(D, cols) && Injective(r, |D|, cols) && k < |r| && PickedAt(D, threshold, r, k)
    ensures Free(r[..k], r[k].obs, r[k].track)
    ensures ArgMin(Masked(D, r[..k])) == Some(Index(r[k].obs, r[k].track))
    ensures Masked(D, r[..k])[r[k].obs][r[k].track] == D[r[k].obs][r[k].track]
    ensures D[r[k].obs][r[k].track].Finite? && D[r[k].obs][r[k].track].value < threshold
  {
    var at := Index(r[k].obs, r[k].track);
    assert ArgMin(Masked(D, r[..k])).value == at;
    PickIsFree(D, r[..k], at);
  }

  /** Every accepted pair's distance is a number below the threshold. */
  lemma GreedyBelowThreshold(D: Matrix, cols: nat, threshold: real)
    requires Rect(D, cols)
    ensures var r := Greedy(D, cols, threshold);
      forall k :: 0 <= k < |r| ==> Below(D[r[k].obs][r[k].track], threshold)
  {
    var r := Greedy(D, cols, threshold);
    GreedySteps(D, cols, threshold);
    forall k | 0 <= k < |r| ensures Below(D[r[k].obs][r[k].track], threshold) {
      PickedEntry(D, cols, threshold, r, k);
    }
  }

  /** Pairs are accepted in non-decreasing order of distance. */
  lemma GreedyNonDecreasing(D: Matrix, cols: nat, threshold: real)
    requires Rect(D, cols)
    ensures var r := Greedy(D, cols, threshold);
      forall k, k' :: 0 <= k < k' < |r| ==>
        var m, m' := D[r[k].obs][r[k].track], D[r[k'].obs][r[k'].track];
        m.Finite? && m'.Finite? && m.value <= m'.value
  {
    var r := Greedy(D, cols, threshold);
    GreedySteps(D, cols, threshold);
    forall k, k' | 0 <= k < k' < |r|
      ensures var m, m' := D[r[k].obs][r[k].track], D[r[k'].obs][r[k'].track]; m.Finite? && m'.Finite? && m.value <= m'.value
    {
      PickedEntry(D, cols, threshold, r, k);
      PickedEntry(D, cols, threshold, r, k');
      FreeEarlier(r, k, k', r[k'].obs, r[k'].track);
      PickIsSmallest(D, r[..k], r[k'].obs, r[k'].track);
    }
  }

  /**
   * Each pair is the greedy choice: among the entries whose row and column are still free, it
   * is a smallest one that is not NaN, and every such entry before it in row-major order is
   * strictly larger, so ties go to the first row-major minimum.
   */
  lemma GreedyPicksFirstMinimum(D: Matrix, cols: nat, threshold: real, k: nat)
    requires Rect(D, cols)
    requires k < |Greedy(D, cols, threshold)|
    ensures var r := Greedy(D, cols, threshold); var m := D[r[k].obs][r[k].track];
      && Free(r[..k], r[k].obs, r[k].track) && m.Finite?
      && (forall j: nat, i: nat :: j < |D| && i < cols && Free(r[..k], j, i) && D[j][i].Finite? ==> m.value <= D[j][i].value)
      && (forall j: nat, i: nat :: j < |D| && i < cols && Free(r[..k], j, i) && D[j][i].Finite? && Precedes(j, i, Index(r[k].obs, r[k].track)) ==>
            m.value < D[j][i].value)
  {
    var r := Greedy(D, cols, threshold);
    GreedySteps(D, cols, threshold);
    PickedEntry(D, cols, threshold, r, k);
    forall j: nat, i: nat | j < |D| && i < cols && Free(r[..k], j, i) && D[j][i].Finite?
      ensures D[r[k].obs][r[k].track].value <= D[j][i].value
      ensures Precedes(j, i, Index(r[k].obs, r[k].track)) ==> D[r[k].obs][r[k].track].value < D[j][i].value
    {
      PickIsSmallest(D, r[..k], j, i);
    }
  }

  /** When the loop stops, no free row and free column meet in an entry below the threshold. */
  lemma GreedyMaximal(D: Matrix, cols: nat, threshold: real)
    requires Rect(D, cols)
    ensures var r := Greedy(D, cols, threshold);
      forall j: nat, i: nat :: j < |D| && i < cols && Free(r, j, i) ==> !Below(D[j][i], threshold)
  {
    var r := Greedy(D, cols, threshold);
    GreedySteps(D, cols, threshold);
    var M: Matrix := Masked(D, r);
    forall j: nat, i: nat | j < |D| && i < cols && Free(r, j, i) ensures !Below(D[j][i], threshold) {
      if D[j][i].Finite? {
        MaskedAt(D, r, j, i);
        assert M[j][i].Finite?;
        PickIsSmallest(D, r, j, i);
      }
    }
  }

  /** The loop runs at most min(lSize, cSize) times. */
  lemma GreedyBound(D: Matrix, cols: nat, threshold: real)
    requires Rect(D, cols)
    ensures |Greedy(D, cols, threshold)| <= |D| && |Greedy(D, cols, threshold)| <= cols
  {
    var r := Greedy(D, cols, threshold);
    DistinctBelow(News(r), |D|);
    DistinctBelow(Olds(r), cols);
  }

  // ---------------------------------------------------------------------------------------
  // The partition into toAdd, toUpdate and toDelete

  /** The indices below `n` that `checked` does not hold, in increasing order. */
  function Unmatched(n: nat, checked: seq<nat>): (r: seq<nat>)
    ensures forall k: nat :: k in r <==> k < n && k !in checked
    ensures forall i :: 0 <= i < |r| ==> r[i] < n && r[i] !in checked
    ensures forall i, j :: 0 <= i < j < |r| ==> r[i] < r[j]
  {
    if n == 0 then []
    else
      var rest := Unmatched(n - 1, checked);
      assert forall i :: 0 <= i < |rest| ==> rest[i] in rest && rest[i] < n - 1;
      rest + (if n - 1 in checked then [] else [n - 1])
  }

  /** The matched indices below `n`. */
  function MatchedBelow(checked: seq<nat>, n: nat): set<nat> {
    set x | x in checked && x < n
  }

  /** Index `n - 1` is listed as unmatched exactly when it is not matched. */
  lemma UnmatchedStep(n: nat, checked: seq<nat>)
    requires n > 0
    ensures |Unmatched(n, checked)| == |Unmatched(n - 1, checked)| + if n - 1 in checked then 0 else 1
  {
  }

  /** Index `n - 1` is among the matched indices below `n` exactly when it is matched. */
  lemma MatchedBelowStep(checked: seq<nat>, n: nat)
    requires n > 0
    ensures |MatchedBelow(checked, n)| == |MatchedBelow(checked, n - 1)| + if n - 1 in checked then 1 else 0
  {
    var below := MatchedBelow(checked, n - 1);
    if n - 1 in checked {
      assert MatchedBelow(checked, n) == below + {n - 1};
    } else {
      assert MatchedBelow(checked, n) == below;
    }
  }

  lemma {:induction false} UnmatchedCount(n: nat, checked: seq<nat>)
    ensures |Unmatched(n, checked)| + |MatchedBelow(checked, n)| == n
  {
    if n > 0 {
      UnmatchedCount(n - 1, checked);
      UnmatchedStep(n, checked);
      MatchedBelowStep(checked, n);
    }
  }

  /**
   * The unmatched indices and the matched ones split `0 .. n - 1` exactly: every index is in
   * one of the two, none is in both, and together they have `n` elements.
   */
  lemma UnmatchedPartition(n: nat, checked: seq<nat>)
    requires Distinct(checked) && forall k :: 0 <= k < |checked| ==> checked[k] < n
    ensures var r := Unmatched(n, checked);
      && (forall k: nat :: k < n ==> (k in r) != (k in checked))
      && |r| + |checked| == n
  {
    UnmatchedCount(n, checked);
    DistinctSize(checked);
    assert MatchedBelow(checked, n) == Elems(checked);
  }

  // ---------------------------------------------------------------------------------------
  // The pick as `np.argmin` computes it

  /** The first NaN entry of `row`, from column `i` on. */
  function RowFirstNaN(row: seq<Cell>, i: nat): (r: Option<nat>)
    requires i <= |row|
    decreases |row| - i
    ensures r.Some? ==> i <= r.value < |row| && row[r.value].NaN?
    ensures r.Some? ==> forall k :: i <= k < r.value ==> row[k].Finite?
    ensures r.None? <==> forall k :: i <= k < |row| ==> row[k].Finite?
  {
    if i == |row| then None
    else if row[i].NaN? then Some(i)
    else RowFirstNaN(row, i + 1)
  }

  /** The first NaN entry in row-major order, from row `l` on. */
  function FirstNaNFrom(M: Matrix, l: nat): (r: Option<Index>)
    requires l <= |M|
    decreases |M| - l
    ensures r.Some? ==> l <= r.value.row < |M| && r.value.col < |M[r.value.row]| && M[r.value.row][r.value.col].NaN?
    ensures r.Some? ==> forall j, i :: l <= j < |M| && 0 <= i < |M[j]| && Precedes(j, i, r.value) ==> M[j][i].Finite?
    ensures r.None? <==> forall j, i :: l <= j < |M| && 0 <= i < |M[j]| ==> M[j][i].Finite?
  {
    if l == |M| then None
    else
      match RowFirstNaN(M[l], 0)
      case Some(i) => Some(Index(l, i))
      case None => FirstNaNFrom(M, l + 1)
  }

  /**
   * `np.argmin` as numpy computes it: NaN propagates through the comparison, so the position of
   * the first NaN in row-major order is returned whenever there is one.
   */
  function NumpyArgMin(M: Matrix): (r: Option<Index>)
    ensures r.Some? ==> r.value.row < |M| && r.value.col < |M[r.value.row]|
    ensures (exists j, i :: 0 <= j < |M| && 0 <= i < |M[j]| && M[j][i].NaN?) ==> r.Some? && M[r.value.row][r.value.col].NaN?
    ensures r.None? ==> forall j, i :: 0 <= j < |M| && 0 <= i < |M[j]| ==> M[j][i].NaN?
    ensures r.Some? && M[r.value.row][r.value.col].NaN? ==>
      forall j, i :: 0 <= j < |M| && 0 <= i < |M[j]| && Precedes(j, i, r.value) ==> M[j][i].Finite?
    ensures (forall j, i :: 0 <= j < |M| && 0 <= i < |M[j]| ==> M[j][i].Finite?) ==> r == ArgMin(M)
  {
    var n := FirstNaNFrom(M, 0);
    if n.Some? then n else ArgMin(M)
  }

  /**
   * One turn of the `while` loop as written, on the matrix: the row and the column of the
   * position `np.argmin` returns are overwritten with NaN.
   */
  function MaskAsWritten(M: Matrix, cols: nat): (r: Matrix)
    requires Rect(M, cols) && NumpyArgMin(M).Some?
    ensures |r| == |M| && Rect(r, cols)
  {
    var at := NumpyArgMin(M).value;
    NanColumn(NanRow(M, at.row), at.col)
  }

  /**
   * With the pick as written, a NaN is accepted on the very first turn. `__eq__` gives NaN to
   * every pair with no shared part, so an observation beside one unrelated track and one it
   * resembles gives [[NaN, 0.2]]: `np.nanmin` is 0.2, below the threshold 1.0, yet
   * `np.argmin` returns the NaN at (0, 0) and the loop pairs the observation with the wrong track.
   */
  lemma AsWrittenFirstTurnNaN()
    ensures var D: Matrix := [[NaN, Finite(0.2)]];
      && Below(NanMin(D), 1.0)
      && NumpyArgMin(D) == Some(Index(0, 0))
      && ArgMin(D) == Some(Index(0, 1))
  {
    var D: Matrix := [[NaN, Finite(0.2)]];
    assert RowFirstNaN(D[0], 0) == Some(0);
    assert RowArgMin(D[0], 0) == Some(1);
  }

  /**
   * With the pick as written, a second match reuses an observation. In
   * [[0.5, 0.2], [0.3, 0.9]] under threshold 1.0 the first pick is observation 0 with track 1;
   * once its row and column are NaN, `np.argmin` returns the NaN at (0, 0) while `np.nanmin`
   * is still 0.3, so the loop accepts observation 0 a second time, with track 0, and never
   * matches observation 1.
   */
  lemma AsWrittenReusesRow()
    ensures var D: Matrix := [[Finite(0.5), Finite(0.2)], [Finite(0.3), Finite(0.9)]];
      && NumpyArgMin(D) == Some(Index(0, 1))
      && var M := MaskAsWritten(D, 2);
        && M == [[NaN, NaN], [Finite(0.3), NaN]]
        && Below(NanMin(M), 1.0)
        && NumpyArgMin(M) == Some(Index(0, 0))
  {
    var D: Matrix := [[Finite(0.5), Finite(0.2)], [Finite(0.3), Finite(0.9)]];
    assert RowFirstNaN(D[1], 0) == None && RowFirstNaN(D[0], 0) == None;
    assert ArgMin(D) == Some(Index(0, 1));
    var R := NanRow(D, 0);
    assert R[0] == [NaN, NaN];
    assert R == [[NaN, NaN], D[1]];
    var M := MaskAsWritten(D, 2);
    assert M[0] == [NaN, NaN] && M[1] == [Finite(0.3), NaN];
    assert M == [[NaN, NaN], [Finite(0.3), NaN]];
    assert FirstNaNFrom(M, 0) == Some(Index(0, 0));
    assert RowArgMin(M[1], 0) == Some(0);
    assert ArgMin(M) == Some(Index(1, 0));
  }

  /**
   * With the pick as written, the loop need not end. In [[0.2, 0.5], [0.5, 0.9]] under
   * threshold 1.0 the first pick masks row 0 and column 0; from then on `np.argmin` returns the
   * NaN at (0, 0), masking it changes nothing, and `np.nanmin` stays 0.9, below the threshold.
   */
  lemma AsWrittenLoopsForever()
    ensures var D: Matrix := [[Finite(0.2), Finite(0.5)], [Finite(0.5), Finite(0.9)]];
      && NumpyArgMin(D) == Some(Index(0, 0))
      && var M := MaskAsWritten(D, 2);
        && M == [[NaN, NaN], [NaN, Finite(0.9)]]
        && Below(NanMin(M), 1.0)
        && NumpyArgMin(M) == Some(Index(0, 0))
        && MaskAsWritten(M, 2) == M
  {
    var D: Matrix := [[Finite(0.2), Finite(0.5)], [Finite(0.5), Finite(0.9)]];
    assert RowFirstNaN(D[1], 0) == None && RowFirstNaN(D[0], 0) == None;
    assert ArgMin(D) == Some(Index(0, 0));
    var R := NanRow(D, 0);
    assert R[0] == [NaN, NaN];
    assert R == [[NaN, NaN], D[1]];
    var M := MaskAsWritten(D, 2);
    assert M[0] == [NaN, NaN] && M[1] == [NaN, Finite(0.9)];
    assert M == [[NaN, NaN], [NaN, Finite(0.9)]];
    assert FirstNaNFrom(M, 0) == Some(Index(0, 0));
    assert RowArgMin(M[1], 0) == Some(1);
    assert ArgMin(M) == Some(Index(1, 1));
    var R' := NanRow(M, 0);
    assert R'[0] == [NaN, NaN];
    assert R' == M;
    var M' := MaskAsWritten(M, 2);
    assert M'[0] == M[0] && M'[1] == M[1];
  }

  /** The threshold is strict: a distance equal to it is never matched. */
  lemma ThresholdIsStrict(d: real)
    ensures Greedy([[Finite(d)]], 1, d) == []
  {
    assert RowArgMin([Finite(d)], 0) == Some(0);
    MaskedNothing([[Finite(d)]]);
  }
}
