/**
 * The search side's bookkeeping (`Search` and `CfgHeuristicSearch`): the
 * branch table and the maps built from it, coverage, the prediction check,
 * the solving step with the solver left abstract, the reverse-BFS branch
 * distances, the call/return-scoped walks along a path, and the scores that
 * order the constraints to negate.
 */
module Search {
  import opened Wrappers
  import opened BasicTypes
  import opened Exprs
  import PW = PathWriter

  type BranchId = PW.BranchId

  /** `numeric_limits<size_t>::max()`. */
  const SIZE_MAX: nat := 0xFFFF_FFFF_FFFF_FFFF

  // ------------------------------------------------------------ branch table

  /**
   * The branch table as read: for each function in file order, its pairs of
   * sibling branch ids (the `then` and `else` of one condition).
   */
  type Table = seq<seq<(BranchId, BranchId)>>

  predicate TableOk(table: Table) {
    forall f, k | 0 <= f < |table| && 0 <= k < |table[f]| :: table[f][k].0 >= 0 && table[f][k].1 >= 0
  }

  /** The ids of a list of pairs, each pair's two ids in turn. */
  function Pairs(ps: seq<(BranchId, BranchId)>): (bs: seq<BranchId>)
    ensures |bs| == 2 * |ps|
    ensures forall k | 0 <= k < |ps| :: bs[2 * k] == ps[k].0 && bs[2 * k + 1] == ps[k].1
  {
    if |ps| == 0 then [] else Pairs(ps[..|ps| - 1]) + [ps[|ps| - 1].0, ps[|ps| - 1].1]
  }

  /** `branches_` before sorting: every function's ids, in file order. */
  function Flatten(table: Table): (bs: seq<BranchId>)
    ensures |bs| % 2 == 0
  {
    if |table| == 0 then [] else Flatten(table[..|table| - 1]) + Pairs(table[|table| - 1])
  }

  /**
   * Reading the table (the constructor's first loop): each function adds
   * twice its pair count to `branch_count_`, after a leading 0, and its ids
   * to `branches_`; `max_branch_` ends one past the largest id, 1 when there
   * is none.
   */
  method ReadTable(table: Table) returns (branches: seq<BranchId>, counts: seq<nat>, maxBranch: nat)
    requires TableOk(table)
    ensures branches == Flatten(table)
    ensures |counts| == |table| + 1 && counts[0] == 0
    ensures forall f | 0 <= f < |table| :: counts[f + 1] == 2 * |table[f]|
    ensures forall b | b in branches :: 0 <= b < maxBranch
    ensures |branches| == 0 ==> maxBranch == 1
    ensures |branches| > 0 ==> maxBranch - 1 in branches
    ensures |Owners(counts)| == |branches|
    ensures IdsBelow(branches, maxBranch)
  {
    var top: nat := 0;
    branches, counts := [], [0];
    for f := 0 to |table|
      invariant TableRead(table, f, branches, counts, top)
    {
      branches, counts, top := ReadFunction(table, f, branches, counts, top);
    }
    assert table[..|table|] == table;
    maxBranch := top + 1;
    assert forall x | 0 <= x < |branches| :: branches[x] in branches;
  }

  /** `ReadTable`'s loop invariant: the first `f` functions of the table have been read. */
  predicate TableRead(table: Table, f: nat, branches: seq<BranchId>, counts: seq<nat>, top: nat) {
    && TableOk(table) && f <= |table|
    && branches == Flatten(table[..f])
    && |counts| == f + 1 && counts[0] == 0
    && (forall g | 0 <= g < f :: counts[g + 1] == 2 * |table[g]|)
    && (forall b | b in branches :: 0 <= b <= top)
    && (|branches| == 0 ==> top == 0)
    && (|branches| > 0 ==> top in branches)
    && |Owners(counts)| == |branches|
  }

  /** The loop body: read function `f`'s pair count and pairs. */
  method ReadFunction(table: Table, f: nat, branches: seq<BranchId>, counts: seq<nat>, top: nat)
    returns (branches': seq<BranchId>, counts': seq<nat>, top': nat)
    requires TableRead(table, f, branches, counts, top) && f < |table|
    ensures TableRead(table, f + 1, branches', counts', top')
  {
    assert (counts + [2 * |table[f]|])[..|counts|] == counts;
    counts' := counts + [2 * |table[f]|];
    assert forall k | 0 <= k < |table[f]| :: table[f][k].0 >= 0 && table[f][k].1 >= 0;
    branches', top' := ReadPairs(table[f], branches, top);
    assert table[..f + 1][..f] == table[..f];
  }

  /** One function's pairs: their ids are appended and the largest id so far kept in `top`. */
  method ReadPairs(ps: seq<(BranchId, BranchId)>, bs: seq<BranchId>, top: nat) returns (bs': seq<BranchId>, top': nat)
    requires forall k | 0 <= k < |ps| :: ps[k].0 >= 0 && ps[k].1 >= 0
    requires forall b | b in bs :: 0 <= b <= top
    requires |bs| == 0 ==> top == 0
    requires |bs| > 0 ==> top in bs
    ensures bs' == bs + Pairs(ps)
    ensures forall b | b in bs' :: 0 <= b <= top'
    ensures |bs'| == 0 ==> top' == 0
    ensures |bs'| > 0 ==> top' in bs'
  {
    bs', top' := bs, top;
    for k := 0 to |ps|
      invariant bs' == bs + Pairs(ps[..k])
      invariant forall b | b in bs' :: 0 <= b <= top'
      invariant |bs'| == 0 ==> top' == 0
      invariant |bs'| > 0 ==> top' in bs'
    {
      assert ps[..k + 1][..k] == ps[..k];
      bs' := bs' + [ps[k].0, ps[k].1];
      top' := if top' < ps[k].0 then ps[k].0 else top';
      top' := if top' < ps[k].1 then ps[k].1 else top';
    }
    assert ps[..|ps|] == ps;
  }

  // -------------------------------------------------------------- pairing

  /** No id occurs twice. */
  predicate Distinct(bs: seq<BranchId>) {
    forall x, y | 0 <= x < y < |bs| :: bs[x] != bs[y]
  }

  predicate IdsBelow(bs: seq<BranchId>, n: nat) {
    forall x | 0 <= x < |bs| :: 0 <= bs[x] < n
  }

  /** `paired_branch_` after the pairs of `bs` were written in order, later writes winning. */
  function Paired(bs: seq<BranchId>, n: nat): (p: seq<BranchId>)
    requires |bs| % 2 == 0 && IdsBelow(bs, n)
    ensures |p| == n
    ensures forall x | 0 <= x < n :: p[x] == 0 || p[x] in bs
  {
    if |bs| == 0 then seq(n, _ => 0)
    else
      var m := |bs|;
      Paired(bs[..m - 2], n)[bs[m - 2] := bs[m - 1]][bs[m - 1] := bs[m - 2]]
  }

  /** The constructor's second loop: the pairing map. */
  method PairBranches(bs: seq<BranchId>, n: nat) returns (paired: seq<BranchId>)
    requires |bs| % 2 == 0 && IdsBelow(bs, n)
    ensures paired == Paired(bs, n)
  {
    paired := seq(n, _ => 0);
    var i := 0;
    while i < |bs|
      invariant 0 <= i <= |bs| && i % 2 == 0
      invariant paired == Paired(bs[..i], n)
    {
      assert bs[..i + 2][..i] == bs[..i];
      paired := paired[bs[i] := bs[i + 1]];
      paired := paired[bs[i + 1] := bs[i]];
      i := i + 2;
    }
    assert bs[..i] == bs;
  }

  /**
   * When no id occurs twice, the pairing is symmetric: each id of a pair
   * is paired with the other.
   */
  lemma {:induction false} PairedSymmetric(bs: seq<BranchId>, n: nat)
    requires |bs| % 2 == 0 && IdsBelow(bs, n) && Distinct(bs)
    ensures forall k | 0 <= k < |bs| / 2 ::
      Paired(bs, n)[bs[2 * k]] == bs[2 * k + 1] && Paired(bs, n)[bs[2 * k + 1]] == bs[2 * k]
  {
    if |bs| > 0 {
      var m := |bs|;
      var init := bs[..m - 2];
      var x, y := bs[m - 2], bs[m - 1];
      DistinctInit(bs);
      PairedSymmetric(init, n);
      var p0 := Paired(init, n);
      var p := Paired(bs, n);
      assert p == p0[x := y][y := x];
      forall k | 0 <= k < m / 2
        ensures p[bs[2 * k]] == bs[2 * k + 1] && p[bs[2 * k + 1]] == bs[2 * k]
      {
        var i := 2 * k;
        if i < m - 2 {
          assert i + 1 < m - 2;
          assert init[i] == bs[i] && init[i + 1] == bs[i + 1];
          PairedKeep(p0, x, y, bs[i], bs[i + 1]);
          PairedKeep(p0, x, y, bs[i + 1], bs[i]);
        }
      }
    }
  }

  /** The last pair of a list with no repeated id leaves the others distinct and apart from it. */
  lemma DistinctInit(bs: seq<BranchId>)
    requires |bs| >= 2 && Distinct(bs)
    ensures Distinct(bs[..|bs| - 2])
    ensures forall j | 0 <= j < |bs| - 2 :: bs[j] != bs[|bs| - 2] && bs[j] != bs[|bs| - 1]
  {
  }

  /** Writing a pair elsewhere leaves an entry alone. */
  lemma PairedKeep(p0: seq<BranchId>, x: BranchId, y: BranchId, a: BranchId, b: BranchId)
    requires 0 <= x < |p0| && 0 <= y < |p0| && 0 <= a < |p0| && p0[a] == b && a != x && a != y
    ensures p0[x := y][y := x][a] == b
  {
  }

  /** An id that is in no pair is paired with 0. */
  lemma {:induction false} PairedUnpaired(bs: seq<BranchId>, n: nat)
    requires |bs| % 2 == 0 && IdsBelow(bs, n)
    ensures forall b | 0 <= b < n && b !in bs :: Paired(bs, n)[b] == 0
  {
    if |bs| > 0 {
      var m := |bs|;
      var init := bs[..m - 2];
      assert forall j | 0 <= j < m - 2 :: init[j] == bs[j];
      PairedUnpaired(init, n);
      forall b | 0 <= b < n && b !in bs ensures Paired(bs, n)[b] == 0 {
        assert b !in init && b != bs[m - 2] && b != bs[m - 1];
      }
    }
  }

  // --------------------------------------------------- branch-to-function map

  /** The function of each position of `branches_`: `counts[f]` positions for each `f` in turn. */
  function Owners(counts: seq<nat>): (os: seq<nat>)
    ensures forall p | 0 <= p < |os| :: os[p] < |counts|
  {
    if |counts| == 0 then [] else Owners(counts[..|counts| - 1]) + seq(counts[|counts| - 1], _ => |counts| - 1)
  }

  /** `branch_function_` after the positions of `bs` were written in order, later writes winning. */
  function Functions(bs: seq<BranchId>, os: seq<nat>, n: nat): (bf: seq<nat>)
    requires |bs| == |os| && IdsBelow(bs, n)
    ensures |bf| == n
    ensures forall x | 0 <= x < n :: bf[x] == 0 || bf[x] in os
  {
    if |bs| == 0 then seq(n, _ => 0)
    else Functions(bs[..|bs| - 1], os[..|os| - 1], n)[bs[|bs| - 1] := os[|os| - 1]]
  }

  /** The constructor's third loop: the branch-to-function map. */
  method MapFunctions(bs: seq<BranchId>, counts: seq<nat>, n: nat) returns (bf: seq<nat>)
    requires IdsBelow(bs, n) && |Owners(counts)| == |bs|
    ensures bf == Functions(bs, Owners(counts), n)
  {
    ghost var os := Owners(counts);
    bf := seq(n, _ => 0);
    var i := 0;
    for j := 0 to |counts|
      invariant i == |Owners(counts[..j])| <= |bs|
      invariant IdsBelow(bs[..i], n)
      invariant bf == Functions(bs[..i], os[..i], n)
    {
      OwnersPrefix(counts, j + 1);
      OwnersLast(counts, j);
      ghost var start := i;
      for k := 0 to counts[j]
        invariant i == start + k <= |bs|
        invariant IdsBelow(bs[..i], n)
        invariant bf == Functions(bs[..i], os[..i], n)
      {
        OwnersAt(counts, j, k);
        FunctionsStep(bs, os, n, i);
        bf := bf[bs[i] := j];
        i := i + 1;
      }
    }
    assert counts[..|counts|] == counts;
    assert bs[..i] == bs && os[..i] == os;
  }

  lemma OwnersLast(counts: seq<nat>, j: nat)
    requires j < |counts|
    ensures Owners(counts[..j + 1]) == Owners(counts[..j]) + seq(counts[j], _ => j)
  {
    assert counts[..j + 1][..j] == counts[..j];
  }

  lemma OwnersAt(counts: seq<nat>, j: nat, k: nat)
    requires j < |counts| && k < counts[j]
    ensures |Owners(counts[..j])| + k < |Owners(counts)|
    ensures Owners(counts)[|Owners(counts[..j])| + k] == j
  {
    OwnersPrefix(counts, j + 1);
    OwnersLast(counts, j);
  }

  lemma FunctionsStep(bs: seq<BranchId>, os: seq<nat>, n: nat, i: nat)
    requires |bs| == |os| && IdsBelow(bs, n) && i < |bs|
    ensures IdsBelow(bs[..i], n) && IdsBelow(bs[..i + 1], n)
    ensures Functions(bs[..i + 1], os[..i + 1], n) == Functions(bs[..i], os[..i], n)[bs[i] := os[i]]
  {
    assert bs[..i + 1][..i] == bs[..i] && os[..i + 1][..i] == os[..i];
  }

  lemma {:induction false} OwnersPrefix(counts: seq<nat>, j: nat)
    requires j <= |counts|
    ensures Owners(counts[..j]) <= Owners(counts)
    decreases |counts| - j
  {
    if j < |counts| {
      OwnersPrefix(counts, j + 1);
      assert counts[..j + 1][..j] == counts[..j];
    } else {
      assert counts[..j] == counts;
    }
  }

  /**
   * When no id occurs twice, each id maps to the function that lists it:
   * position `p` of the table belongs to function `Owners(counts)[p]`.
   */
  lemma {:induction false} FunctionsOfDistinct(bs: seq<BranchId>, os: seq<nat>, n: nat)
    requires |bs| == |os| && IdsBelow(bs, n) && Distinct(bs)
    ensures forall p | 0 <= p < |bs| :: Functions(bs, os, n)[bs[p]] == os[p]
  {
    if |bs| > 0 {
      var m := |bs|;
      FunctionsOfDistinct(bs[..m - 1], os[..m - 1], n);
      forall p | 0 <= p < m ensures Functions(bs, os, n)[bs[p]] == os[p] {
        if p < m - 1 {
          assert bs[..m - 1][p] == bs[p] && os[..m - 1][p] == os[p];
        }
      }
    }
  }

  // ------------------------------------------------------------------ sorting

  predicate SortedIds(s: seq<BranchId>) {
    forall x, y | 0 <= x < y < |s| :: s[x] <= s[y]
  }

  /** Places `b` before the first id that is not smaller. */
  function InsertId(b: BranchId, s: seq<BranchId>): (r: seq<BranchId>)
    ensures |r| == |s| + 1 && multiset(r) == multiset(s) + multiset{b}
  {
    if |s| == 0 || b <= s[0] then [b] + s
    else
      assert s == [s[0]] + s[1..];
      [s[0]] + InsertId(b, s[1..])
  }

  /** Inserting into a sorted sequence keeps it sorted. */
  lemma {:induction false} InsertIdSorted(b: BranchId, s: seq<BranchId>)
    requires SortedIds(s)
    ensures SortedIds(InsertId(b, s))
  {
    if |s| > 0 && b > s[0] {
      var t := InsertId(b, s[1..]);
      InsertIdSorted(b, s[1..]);
      forall y | 0 <= y < |t| ensures s[0] <= t[y] {
        assert t[y] in multiset(s[1..]) + multiset{b};
      }
    }
  }

  /** `sort(branches_)`: the ids in increasing order, each as often as before. */
  function SortIds(s: seq<BranchId>): (r: seq<BranchId>)
    ensures SortedIds(r) && multiset(r) == multiset(s)
  {
    if |s| == 0 then []
    else
      assert s == s[..|s| - 1] + [s[|s| - 1]];
      var init := SortIds(s[..|s| - 1]);
      InsertIdSorted(s[|s| - 1], init);
      InsertId(s[|s| - 1], init)
  }

  // ----------------------------------------------------------------- coverage

  /** How many entries are set. */
  function CountTrue(s: seq<bool>): (c: nat)
    ensures c <= |s|
    ensures c == 0 <==> forall x | 0 <= x < |s| :: !s[x]
  {
    if |s| == 0 then 0 else CountTrue(s[..|s| - 1]) + (if s[|s| - 1] then 1 else 0)
  }

  /** Setting an unset entry adds one to the count. */
  lemma {:induction false} CountTrueSet(s: seq<bool>, x: nat)
    requires x < |s| && !s[x]
    ensures CountTrue(s[x := true]) == CountTrue(s) + 1
  {
    var m := |s| - 1;
    if x < m {
      CountTrueSet(s[..m], x);
      assert s[x := true][..m] == s[..m][x := true];
    } else {
      assert s[x := true][..m] == s[..m];
    }
  }

  /** A vector with no entry set. */
  function Unset(n: nat): (r: seq<bool>)
    ensures |r| == n && CountTrue(r) == 0
  {
    seq(n, _ => false)
  }

  /** The sum of `w[f]` over the entries `f` that are set. */
  function Weighted(r: seq<bool>, w: seq<nat>): (t: nat)
    requires |r| == |w|
    ensures (forall f | 0 <= f < |r| :: !r[f]) ==> t == 0
  {
    if |r| == 0 then 0 else Weighted(r[..|r| - 1], w[..|w| - 1]) + (if r[|r| - 1] then w[|w| - 1] else 0)
  }

  /** Setting an unset entry adds its weight to the sum. */
  lemma {:induction false} WeightedSet(r: seq<bool>, w: seq<nat>, f: nat)
    requires |r| == |w| && f < |r| && !r[f]
    ensures Weighted(r[f := true], w) == Weighted(r, w) + w[f]
  {
    var m := |r| - 1;
    if f < m {
      WeightedSet(r[..m], w[..m], f);
      assert r[f := true][..m] == r[..m][f := true];
    } else {
      assert r[f := true][..m] == r[..m];
    }
  }

  /** The constructor's reading of the branch table into the search's maps. */
  method ReadMaps(table: Table) returns (sorted: seq<BranchId>, counts: seq<nat>, p: seq<BranchId>, bf: seq<nat>, top: nat)
    requires TableOk(table)
    ensures |counts| == |table| + 1 && counts[0] == 0
    ensures forall f | 0 <= f < |table| :: counts[f + 1] == 2 * |table[f]|
    ensures IdsBelow(Flatten(table), top) && |Owners(counts)| == |Flatten(table)|
    ensures sorted == SortIds(Flatten(table)) && IdsBelow(sorted, top)
    ensures p == Paired(Flatten(table), top) && IdsBelow(p, top)
    ensures bf == Functions(Flatten(table), Owners(counts), top)
    ensures |p| == |bf| == top && forall b | 0 <= b < top :: bf[b] < |counts|
  {
    var bs;
    bs, counts, top := ReadTable(table);
    p := PairBranches(bs, top);
    bf := MapFunctions(bs, counts, top);
    sorted := SortIds(bs);
    forall x | 0 <= x < |sorted| ensures 0 <= sorted[x] < top {
      assert sorted[x] in multiset(bs);
    }
    assert top >= 1;
    forall x | 0 <= x < |p| ensures 0 <= p[x] < top {
      if p[x] != 0 {
        assert p[x] in bs;
      }
    }
  }

  /**
   * The search's view of the program: the branch table and the maps built
   * from it, and the coverage so far. `covered` is the current run's
   * coverage, `totalCovered` the coverage over all runs, and `reached` marks
   * the functions with a covered branch; each counter is the number of set
   * entries it summarises.
   */
  class Search {
    const branches: seq<BranchId>
    const branchCount: seq<nat>
    const paired: seq<BranchId>
    const branchFunction: seq<nat>
    const maxBranch: nat
    const maxFunction: nat
    var covered: seq<bool>
    var totalCovered: seq<bool>
    var reached: seq<bool>
    var numCovered: nat
    var totalNumCovered: nat
    var reachableFunctions: nat
    var reachableBranches: nat

    ghost predicate Valid()
      reads this
    {
      Shape() && Linked() && CoverCounted() && ReachCounted() && TotalCounted()
    }

    /** The maps agree in size with the coverage vectors, and every branch belongs to a known function. */
    ghost predicate Shape()
      reads this
    {
      && |paired| == |branchFunction| == |covered| == |totalCovered| == maxBranch
      && |branchCount| == |reached| == maxFunction
      && (forall b | 0 <= b < maxBranch :: branchFunction[b] < maxFunction)
      && IdsBelow(branches, maxBranch) && IdsBelow(paired, maxBranch)
    }

    /** A covered branch's function is reached. */
    ghost predicate Linked()
      reads this
      requires Shape()
    {
      forall b | 0 <= b < maxBranch && covered[b] :: reached[branchFunction[b]]
    }

    /** `num_covered_` counts this run's covered branches. */
    ghost predicate CoverCounted()
      reads this
    {
      numCovered == CountTrue(covered)
    }

    /** The reached functions, and the branches they hold, are counted. */
    ghost predicate ReachCounted()
      reads this
    {
      && |reached| == |branchCount|
      && reachableFunctions == CountTrue(reached)
      && reachableBranches == Weighted(reached, branchCount)
    }

    /** `total_num_covered_` counts the branches covered over all runs. */
    ghost predicate TotalCounted()
      reads this
    {
      totalNumCovered == CountTrue(totalCovered)
    }

    /** Builds the maps from the branch table; nothing is covered or reached yet. */
    constructor (table: Table)
      requires TableOk(table)
      ensures Valid()
      ensures |branchCount| == |table| + 1 && branchCount[0] == 0
      ensures forall f | 0 <= f < |table| :: branchCount[f + 1] == 2 * |table[f]|
      ensures IdsBelow(Flatten(table), maxBranch) && |Owners(branchCount)| == |Flatten(table)|
      ensures branches == SortIds(Flatten(table))
      ensures paired == Paired(Flatten(table), maxBranch)
      ensures branchFunction == Functions(Flatten(table), Owners(branchCount), maxBranch)
      ensures covered == totalCovered == Unset(maxBranch)
      ensures reached == Unset(maxFunction)
    {
      var sorted, counts, p, bf, top := ReadMaps(table);
      branches := sorted;
      branchCount := counts;
      paired := p;
      branchFunction := bf;
      maxBranch := top;
      maxFunction := |counts|;
      covered := Unset(top);
      totalCovered := Unset(top);
      reached := Unset(|counts|);
      numCovered, totalNumCovered := 0, 0;
      reachableFunctions, reachableBranches := 0, 0;
    }

    /** One id of the path: the body of `UpdateCoverage`'s loop. */
    method Visit(b: BranchId) returns (isNew: bool)
      requires Valid() && b < maxBranch
      modifies this
      ensures Valid()
      ensures isNew == (b > 0 && !old(covered)[b])
      ensures covered == if b > 0 then old(covered)[b := true] else old(covered)
      ensures totalCovered == if b > 0 then old(totalCovered)[b := true] else old(totalCovered)
      ensures reached == if b > 0 then old(reached)[branchFunction[b] := true] else old(reached)
      ensures numCovered == old(numCovered) + (if isNew then 1 else 0)
    {
      isNew := false;
      if b > 0 {
        isNew := MarkCovered(b);
        MarkTotal(b);
      }
    }

    /** The first half of the loop body: this run's coverage and the functions reached. */
    method MarkCovered(b: BranchId) returns (isNew: bool)
      requires Shape() && Linked() && CoverCounted() && ReachCounted() && 0 < b < maxBranch
      modifies this`covered, this`numCovered, this`reached, this`reachableFunctions, this`reachableBranches
      ensures Shape() && Linked() && CoverCounted() && ReachCounted()
      ensures isNew == !old(covered)[b]
      ensures covered == old(covered)[b := true]
      ensures reached == old(reached)[branchFunction[b] := true]
      ensures numCovered == old(numCovered) + (if isNew then 1 else 0)
    {
      isNew := !covered[b];
      if isNew {
        CountTrueSet(covered, b);
        covered := covered[b := true];
        numCovered := numCovered + 1;
        ReachFunction(branchFunction[b]);
      } else {
        assert covered[b := true] == covered;
        assert reached[branchFunction[b] := true] == reached;
      }
    }

    /** Marks function `f` reached, counting it and its branches the first time. */
    method ReachFunction(f: nat)
      requires ReachCounted() && f < |reached|
      modifies this`reached, this`reachableFunctions, this`reachableBranches
      ensures ReachCounted()
      ensures reached == old(reached)[f := true]
    {
      if !reached[f] {
        CountTrueSet(reached, f);
        WeightedSet(reached, branchCount, f);
        reached := reached[f := true];
        reachableFunctions := reachableFunctions + 1;
        reachableBranches := reachableBranches + branchCount[f];
      } else {
        assert reached[f := true] == reached;
      }
    }

    /** The second half of the loop body: the coverage over all runs. */
    method MarkTotal(b: BranchId)
      requires TotalCounted() && 0 < b < |totalCovered|
      modifies this`totalCovered, this`totalNumCovered
      ensures TotalCounted()
      ensures totalCovered == old(totalCovered)[b := true]
    {
      if !totalCovered[b] {
        CountTrueSet(totalCovered, b);
        totalCovered := totalCovered[b := true];
        totalNumCovered := totalNumCovered + 1;
      } else {
        assert totalCovered[b := true] == totalCovered;
      }
    }

    /**
     * Records the coverage of one run's path: every positive id is marked
     * covered, in this run and overall, and its function reached; the result
     * says whether the run covered an id not covered before, and
     * `newBranches` holds those ids, each once.
     */
    method UpdateCoverage(path: seq<BranchId>) returns (found: bool, newBranches: set<BranchId>)
      requires Valid() && IdsFit(path, maxBranch)
      modifies this
      ensures Valid()
      ensures covered == Cover(old(covered), path)
      ensures totalCovered == Cover(old(totalCovered), path)
      ensures reached == Reach(old(reached), branchFunction, path)
      ensures newBranches == NewIds(old(covered), path)
      ensures found <==> newBranches != {}
      ensures numCovered == old(numCovered) + |newBranches|
    {
      ghost var c0, t0, r0 := covered, totalCovered, reached;
      var prev := numCovered;
      newBranches := {};
      for i := 0 to |path|
        invariant Progress(path, i, c0, t0, r0, newBranches, prev)
      {
        newBranches := Advance(path, i, c0, t0, r0, newBranches, prev);
      }
      assert path[..|path|] == path;
      found := numCovered > prev;
    }

    /** `UpdateCoverage`'s loop invariant: the first `i` ids of the path have been recorded. */
    ghost predicate Progress(path: seq<BranchId>, i: nat, c0: seq<bool>, t0: seq<bool>, r0: seq<bool>,
                             newBranches: set<BranchId>, prev: nat)
      reads this
    {
      && Valid() && i <= |path| && IdsFit(path, maxBranch)
      && |c0| == |t0| == maxBranch && |r0| == maxFunction
      && IdsFit(path[..i], maxBranch)
      && covered == Cover(c0, path[..i])
      && totalCovered == Cover(t0, path[..i])
      && reached == Reach(r0, branchFunction, path[..i])
      && newBranches == NewIds(c0, path[..i])
      && numCovered == prev + |newBranches|
    }

    /** The loop body: record id `i` of the path. */
    method Advance(path: seq<BranchId>, i: nat, ghost c0: seq<bool>, ghost t0: seq<bool>, ghost r0: seq<bool>,
                   newBranches: set<BranchId>, prev: nat) returns (newBranches': set<BranchId>)
      requires Progress(path, i, c0, t0, r0, newBranches, prev) && i < |path|
      modifies this
      ensures Progress(path, i + 1, c0, t0, r0, newBranches', prev)
    {
      PrefixStep(c0, path, i);
      PrefixStep(t0, path, i);
      ReachStep(r0, branchFunction, path, i);
      if path[i] > 0 {
        CoverNew(c0, path[..i], path[i]);
      }
      var isNew := Visit(path[i]);
      newBranches' := if isNew then newBranches + {path[i]} else newBranches;
    }
  }

  /** Every id of the path indexes a vector of length `n` (negative ids mark calls and returns). */
  predicate IdsFit(path: seq<BranchId>, n: nat) {
    forall k | 0 <= k < |path| :: path[k] < n
  }

  /** `cov` with every positive id of the path set. */
  function Cover(cov: seq<bool>, path: seq<BranchId>): (r: seq<bool>)
    requires IdsFit(path, |cov|)
    ensures |r| == |cov|
  {
    if |path| == 0 then cov
    else
      var b := path[|path| - 1];
      var r := Cover(cov, path[..|path| - 1]);
      if b > 0 then r[b := true] else r
  }

  /** The positive ids of the path not set in `cov`. */
  function NewIds(cov: seq<bool>, path: seq<BranchId>): (r: set<BranchId>)
    requires IdsFit(path, |cov|)
  {
    if |path| == 0 then {}
    else
      var b := path[|path| - 1];
      NewIds(cov, path[..|path| - 1]) + if b > 0 && !cov[b] then {b} else {}
  }

  /** `reached` with the function of every positive id of the path set. */
  function Reach(reached: seq<bool>, bf: seq<nat>, path: seq<BranchId>): (r: seq<bool>)
    requires IdsFit(path, |bf|) && forall b | 0 <= b < |bf| :: bf[b] < |reached|
    ensures |r| == |reached|
  {
    if |path| == 0 then reached
    else
      var b := path[|path| - 1];
      var r := Reach(reached, bf, path[..|path| - 1]);
      if b > 0 then r[bf[b] := true] else r
  }

  /** One more id of the path: how `Cover` and `NewIds` grow. */
  lemma PrefixStep(cov: seq<bool>, path: seq<BranchId>, i: nat)
    requires IdsFit(path, |cov|) && i < |path|
    ensures IdsFit(path[..i], |cov|) && IdsFit(path[..i + 1], |cov|)
    ensures Cover(cov, path[..i + 1]) == if path[i] > 0 then Cover(cov, path[..i])[path[i] := true] else Cover(cov, path[..i])
    ensures NewIds(cov, path[..i + 1]) == NewIds(cov, path[..i]) + if path[i] > 0 && !cov[path[i]] then {path[i]} else {}
  {
    var p := path[..i + 1];
    assert p[..|p| - 1] == path[..i] && p[|p| - 1] == path[i];
  }

  /** One more id of the path: how `Reach` grows. */
  lemma ReachStep(reached: seq<bool>, bf: seq<nat>, path: seq<BranchId>, i: nat)
    requires IdsFit(path, |bf|) && (forall b | 0 <= b < |bf| :: bf[b] < |reached|) && i < |path|
    ensures IdsFit(path[..i], |bf|) && IdsFit(path[..i + 1], |bf|)
    ensures Reach(reached, bf, path[..i + 1]) == if path[i] > 0 then Reach(reached, bf, path[..i])[bf[path[i]] := true] else Reach(reached, bf, path[..i])
  {
    assert path[..i + 1][..i] == path[..i];
  }

  /** An id is set after the path iff it was set before or is a positive id of the path. */
  lemma {:induction false} CoverSpec(cov: seq<bool>, path: seq<BranchId>)
    requires IdsFit(path, |cov|)
    ensures forall b | 0 <= b < |cov| :: Cover(cov, path)[b] == (cov[b] || (b > 0 && b in path))
  {
    if |path| > 0 {
      var init := path[..|path| - 1];
      CoverSpec(cov, init);
      assert path == init + [path[|path| - 1]];
    }
  }

  /** The new ids are exactly the positive ids of the path not set before. */
  lemma {:induction false} NewIdsSpec(cov: seq<bool>, path: seq<BranchId>)
    requires IdsFit(path, |cov|)
    ensures forall b :: b in NewIds(cov, path) <==> 0 < b < |cov| && b in path && !cov[b]
  {
    if |path| > 0 {
      var init := path[..|path| - 1];
      NewIdsSpec(cov, init);
      assert path == init + [path[|path| - 1]];
    }
  }

  /** Set after the path means set before or newly covered. */
  lemma CoverNew(cov: seq<bool>, path: seq<BranchId>, b: nat)
    requires IdsFit(path, |cov|) && 0 < b < |cov|
    ensures Cover(cov, path)[b] == (cov[b] || b in NewIds(cov, path))
  {
    CoverSpec(cov, path);
    NewIdsSpec(cov, path);
  }

  /**
   * A function is reached after the path iff it was before or holds a
   * positive id of the path.
   */
  lemma {:induction false} ReachSpec(reached: seq<bool>, bf: seq<nat>, path: seq<BranchId>)
    requires IdsFit(path, |bf|) && forall b | 0 <= b < |bf| :: bf[b] < |reached|
    ensures forall f | 0 <= f < |reached| ::
      Reach(reached, bf, path)[f] == (reached[f] || exists b | b in path :: 0 < b < |bf| && bf[b] == f)
  {
    if |path| > 0 {
      var init := path[..|path| - 1];
      ReachSpec(reached, bf, init);
      assert path == init + [path[|path| - 1]];
    }
  }

  // --------------------------------------------------------------- prediction

  /**
   * Whether the new run followed the old path up to `idx` and then took the
   * other way at `idx`; both paths must reach `idx`.
   */
  method CheckPrediction(oldPath: seq<BranchId>, newPath: seq<BranchId>, idx: nat) returns (r: bool)
    ensures r <==> idx < |oldPath| && idx < |newPath| && oldPath[..idx] == newPath[..idx] && newPath[idx] != oldPath[idx]
  {
    if |oldPath| <= idx || |newPath| <= idx {
      return false;
    }
    for j := 0 to idx
      invariant oldPath[..j] == newPath[..j]
    {
      if newPath[j] != oldPath[j] {
        assert oldPath[..idx][j] != newPath[..idx][j];
        return false;
      }
      assert oldPath[..j + 1] == oldPath[..j] + [oldPath[j]];
      assert newPath[..j + 1] == newPath[..j] + [newPath[j]];
    }
    r := newPath[idx] != oldPath[idx];
  }

  // ------------------------------------------------------------------ solving

  /**
   * The constraint handed to the solver in place of `c`: a LOGICAL_NOT node
   * over it, as wide as its type, whose recorded value is the opposite truth
   * value, and whose id is the next one.
   */
  function Negated(c: Expr, next: nat): (n: Expr)
    requires IsTypeTag(c.value.ty)
    ensures n.Unary? && n.child == c && n.un == LOGICAL_NOT && n.id == Fresh(next)
    ensures n.size == kSizeOfType[c.value.ty] && n.value.ty == c.value.ty
    ensures c.value.integral == 0 ==> n.value.integral == 1
    ensures c.value.integral == 1 ==> n.value.integral == 0
  {
    Unary(Value(ToInt64(1 - c.value.integral), c.value.floating, c.value.ty), kSizeOfType[c.value.ty], Fresh(next), LOGICAL_NOT, c)
  }

  /** The constraints up to `idx` with the one at `idx` negated. */
  function NegatedPrefix(cs: seq<Expr>, idx: nat, next: nat): (r: seq<Expr>)
    requires idx < |cs| && IsTypeTag(cs[idx].value.ty)
    ensures |r| == idx + 1 && r[..idx] == cs[..idx] && r[idx] == Negated(cs[idx], next)
  {
    cs[..idx] + [Negated(cs[idx], next)]
  }

  /** The previous inputs with the solver's values put over them. */
  method MergeSolution(inputs: seq<Value>, soln: map<nat, Value>) returns (input: seq<Value>)
    ensures |input| == |inputs|
    ensures forall x | 0 <= x < |inputs| :: input[x] == if x in soln then soln[x] else inputs[x]
  {
    input := inputs;
    var keys := soln.Keys;
    while keys != {}
      invariant keys <= soln.Keys && |input| == |inputs|
      invariant forall x | 0 <= x < |inputs| ::
        input[x] == if x in soln && x !in keys then soln[x] else inputs[x]
      decreases keys
    {
      var k :| k in keys;
      if k < |input| {
        input := input[k := soln[k]];
      }
      keys := keys - {k};
    }
  }

  /**
   * Asks `solve` for inputs that follow the path up to `idx` and then take
   * the other way at `idx`. On success the next input is the run's inputs
   * overlaid with the solution; otherwise `current` is left as it was. The
   * negation node takes the next id.
   */
  method SolveAtBranch(inputs: seq<Value>, constraints: seq<Expr>, idx: nat, next: nat,
                       solve: seq<Expr> -> Option<map<nat, Value>>, current: seq<Value>)
    returns (success: bool, input: seq<Value>, next': nat)
    requires idx < |constraints| && IsTypeTag(constraints[idx].value.ty)
    ensures next' == next + 1
    ensures success <==> solve(NegatedPrefix(constraints, idx, next)).Some?
    ensures !success ==> input == current
    ensures success ==> |input| == |inputs| && forall x | 0 <= x < |inputs| ::
      var soln := solve(NegatedPrefix(constraints, idx, next)).value;
      input[x] == if x in soln then soln[x] else inputs[x]
  {
    var cs := constraints[..idx] + [Negated(constraints[idx], next)];
    next' := next + 1;
    var soln := solve(cs);
    if soln.None? {
      return false, current, next';
    }
    success := true;
    input := MergeSolution(inputs, soln.value);
  }

  // ---------------------------------------------------------------------- CFG

  /** One record of the CFG file: a branch and the branches that can follow it. */
  datatype CfgRecord = CfgRecord(src: BranchId, targets: seq<BranchId>)

  predicate RecordsFit(records: seq<CfgRecord>, n: nat) {
    forall r | 0 <= r < |records| :: 0 <= records[r].src < n && IdsBelow(records[r].targets, n)
  }

  /** `cfg_` after the records were read in order: each record replaces its source's successors. */
  function CfgOf(records: seq<CfgRecord>, n: nat): (cfg: seq<seq<BranchId>>)
    requires RecordsFit(records, n)
    ensures |cfg| == n && forall i | 0 <= i < n :: IdsBelow(cfg[i], n)
  {
    if |records| == 0 then seq(n, _ => [])
    else
      var last := records[|records| - 1];
      CfgOf(records[..|records| - 1], n)[last.src := last.targets]
  }

  /**
   * A branch's successors are those of the last record naming it, and a
   * branch no record names has none.
   */
  lemma {:induction false} CfgOfLastRecord(records: seq<CfgRecord>, n: nat)
    requires RecordsFit(records, n)
    ensures forall r | 0 <= r < |records| && (forall r' | r < r' < |records| :: records[r'].src != records[r].src) ::
      CfgOf(records, n)[records[r].src] == records[r].targets
    ensures forall i | 0 <= i < n && (forall r | 0 <= r < |records| :: records[r].src != i) :: CfgOf(records, n)[i] == []
  {
    if |records| > 0 {
      var m := |records| - 1;
      var init, last := records[..m], records[m];
      assert forall r | 0 <= r < m :: init[r] == records[r];
      CfgOfLastRecord(init, n);
      var cfg0 := CfgOf(init, n);
      assert CfgOf(records, n) == cfg0[last.src := last.targets];
      forall r | 0 <= r < |records| && (forall r' | r < r' < |records| :: records[r'].src != records[r].src)
        ensures CfgOf(records, n)[records[r].src] == records[r].targets
      {
        if r < m {
          assert records[m].src != records[r].src;
          assert forall r' | r < r' < m :: init[r'].src != init[r].src;
          assert cfg0[init[r].src] == init[r].targets;
        }
      }
      forall i | 0 <= i < n && (forall r | 0 <= r < |records| :: records[r].src != i)
        ensures CfgOf(records, n)[i] == []
      {
        assert last.src != i;
        assert forall r | 0 <= r < m :: init[r].src != i;
        assert cfg0[i] == [];
      }
    }
  }

  /** Reading the CFG records. */
  method ReadCfg(records: seq<CfgRecord>, n: nat) returns (cfg: seq<seq<BranchId>>)
    requires RecordsFit(records, n)
    ensures cfg == CfgOf(records, n)
  {
    cfg := seq(n, _ => []);
    for r := 0 to |records|
      invariant cfg == CfgOf(records[..r], n)
    {
      assert records[..r + 1][..r] == records[..r];
      cfg := cfg[records[r].src := records[r].targets];
    }
    assert records[..|records|] == records;
  }

  /** `rev` with `i` appended to the predecessor list of each of `ts`, in order. */
  function AddPredecessor(rev: seq<seq<BranchId>>, i: BranchId, ts: seq<BranchId>): (r: seq<seq<BranchId>>)
    requires IdsBelow(ts, |rev|)
    ensures |r| == |rev|
  {
    if |ts| == 0 then rev
    else
      var t := ts[|ts| - 1];
      var r := AddPredecessor(rev, i, ts[..|ts| - 1]);
      r[t := r[t] + [i]]
  }

  /** `cfg_rev_`: each branch of `bs`, in order, is listed as a predecessor of each of its successors. */
  function Reversed(bs: seq<BranchId>, cfg: seq<seq<BranchId>>): (rev: seq<seq<BranchId>>)
    requires IdsBelow(bs, |cfg|) && forall i | 0 <= i < |cfg| :: IdsBelow(cfg[i], |cfg|)
    ensures |rev| == |cfg|
  {
    if |bs| == 0 then seq(|cfg|, _ => [])
    else
      var i := bs[|bs| - 1];
      AddPredecessor(Reversed(bs[..|bs| - 1], cfg), i, cfg[i])
  }

  lemma {:induction false} AddPredecessorSpec(rev: seq<seq<BranchId>>, i: BranchId, ts: seq<BranchId>)
    requires IdsBelow(ts, |rev|)
    ensures forall j, x | 0 <= j < |rev| :: x in AddPredecessor(rev, i, ts)[j] <==> x in rev[j] || (x == i && j in ts)
  {
    if |ts| > 0 {
      var init := ts[..|ts| - 1];
      AddPredecessorSpec(rev, i, init);
      assert ts == init + [ts[|ts| - 1]];
    }
  }

  /** `x` is listed as a predecessor of `j` iff `x` is a branch of `bs` that `j` follows. */
  lemma {:induction false} ReversedSpec(bs: seq<BranchId>, cfg: seq<seq<BranchId>>)
    requires IdsBelow(bs, |cfg|) && forall i | 0 <= i < |cfg| :: IdsBelow(cfg[i], |cfg|)
    ensures forall j, x | 0 <= j < |cfg| :: x in Reversed(bs, cfg)[j] <==> x in bs && j in cfg[x]
  {
    if |bs| > 0 {
      var init := bs[..|bs| - 1];
      var i := bs[|bs| - 1];
      ReversedSpec(init, cfg);
      AddPredecessorSpec(Reversed(init, cfg), i, cfg[i]);
      assert bs == init + [i];
      forall j, x | 0 <= j < |cfg| ensures x in Reversed(bs, cfg)[j] <==> x in bs && j in cfg[x] {
        if x in bs && x != i {
          assert x in init;
        }
      }
    }
  }

  /** The constructor's second loop: the reversed CFG. */
  method ReverseCfg(bs: seq<BranchId>, cfg: seq<seq<BranchId>>) returns (rev: seq<seq<BranchId>>)
    requires IdsBelow(bs, |cfg|) && forall i | 0 <= i < |cfg| :: IdsBelow(cfg[i], |cfg|)
    ensures rev == Reversed(bs, cfg)
  {
    rev := seq(|cfg|, _ => []);
    for k := 0 to |bs|
      invariant IdsBelow(bs[..k], |cfg|) && rev == Reversed(bs[..k], cfg)
    {
      assert bs[..k + 1][..k] == bs[..k];
      rev := AppendPredecessor(rev, bs[k], cfg[bs[k]]);
    }
    assert bs[..|bs|] == bs;
  }

  /** The inner loop: `i` joins the predecessors of each of its successors. */
  method AppendPredecessor(rev: seq<seq<BranchId>>, i: BranchId, ts: seq<BranchId>) returns (rev': seq<seq<BranchId>>)
    requires IdsBelow(ts, |rev|)
    ensures rev' == AddPredecessor(rev, i, ts)
  {
    rev' := rev;
    for l := 0 to |ts|
      invariant IdsBelow(ts[..l], |rev|) && rev' == AddPredecessor(rev, i, ts[..l])
    {
      assert ts[..l + 1][..l] == ts[..l];
      rev' := rev'[ts[l] := rev'[ts[l]] + [i]];
    }
    assert ts[..|ts|] == ts;
  }

  // ------------------------------------------------------------ BFS distances

  /** The sum of all distances: it falls whenever one of them does. */
  function Sum(d: seq<nat>): nat {
    if |d| == 0 then 0 else Sum(d[..|d| - 1]) + d[|d| - 1]
  }

  lemma {:induction false} SumLower(d: seq<nat>, j: nat, v: nat)
    requires j < |d| && v < d[j]
    ensures Sum(d[j := v]) < Sum(d)
  {
    var m := |d| - 1;
    if j < m {
      SumLower(d[..m], j, v);
      assert d[j := v][..m] == d[..m][j := v];
    } else {
      assert d[j := v][..m] == d[..m];
    }
  }

  /** The branches, the coverage and the reversed CFG agree in size, and every predecessor is a branch. */
  predicate CfgShape(bs: seq<BranchId>, covered: seq<bool>, rev: seq<seq<BranchId>>, n: nat) {
    && |covered| == |rev| == n && IdsBelow(bs, n)
    && forall i | 0 <= i < n :: IdsBelow(rev[i], n) && forall l | 0 <= l < |rev[i]| :: rev[i][l] in bs
  }

  /** Uncovered branches are at distance 0, and no branch is further than `inf`. */
  predicate Bounded(bs: seq<BranchId>, covered: seq<bool>, dist: seq<nat>, inf: nat)
    requires IdsBelow(bs, |dist|) && |covered| == |dist|
  {
    forall x | 0 <= x < |bs| :: dist[bs[x]] <= inf && (!covered[bs[x]] ==> dist[bs[x]] == 0)
  }

  /** Every predecessor of `i` is at most one step further from an uncovered branch than `i`. */
  predicate Settled(rev: seq<seq<BranchId>>, dist: seq<nat>, i: nat)
    requires |rev| == |dist| && i < |dist| && IdsBelow(rev[i], |dist|)
  {
    forall l | 0 <= l < |rev[i]| :: dist[rev[i][l]] <= dist[i] + 1
  }

  /** The BFS invariant: each branch is waiting in the queue or settled. */
  predicate QueuedOrSettled(bs: seq<BranchId>, covered: seq<bool>, rev: seq<seq<BranchId>>, dist: seq<nat>, q: seq<BranchId>)
    requires CfgShape(bs, covered, rev, |dist|)
  {
    forall x | 0 <= x < |bs| :: bs[x] in q || Settled(rev, dist, bs[x])
  }

  /** Each element of `w` is listed in `rev` as a predecessor of the next, which is a branch. */
  predicate Chain(bs: seq<BranchId>, rev: seq<seq<BranchId>>, w: seq<BranchId>)
    requires IdsBelow(w, |rev|)
  {
    |w| <= 1 || (w[1] in bs && w[0] in rev[w[1]] && Chain(bs, rev, w[1..]))
  }

  /**
   * What the distances promise: a chain of CFG edges `w[0]` → … → `w[k]`
   * ending at an uncovered branch bounds the distance of `w[0]` by `k`.
   */
  lemma {:induction false} DistanceBound(bs: seq<BranchId>, covered: seq<bool>, rev: seq<seq<BranchId>>,
                                         dist: seq<nat>, inf: nat, w: seq<BranchId>)
    requires CfgShape(bs, covered, rev, |dist|) && Bounded(bs, covered, dist, inf)
    requires forall x | 0 <= x < |bs| :: Settled(rev, dist, bs[x])
    requires |w| > 0 && IdsBelow(w, |dist|) && w[|w| - 1] in bs && !covered[w[|w| - 1]]
    requires Chain(bs, rev, w)
    ensures dist[w[0]] <= |w| - 1
  {
    if |w| == 1 {
      var x :| 0 <= x < |bs| && bs[x] == w[0];
    } else {
      var tail := w[1..];
      DistanceBound(bs, covered, rev, dist, inf, tail);
      var x :| 0 <= x < |bs| && bs[x] == w[1];
      assert Settled(rev, dist, w[1]);
      var l :| 0 <= l < |rev[w[1]]| && rev[w[1]][l] == w[0];
    }
  }

  // ------------------------------------------------------- walks along a path

  /**
   * `SkipUntilReturn` from `pos`: the position of the return that ends the
   * current call, skipping nested calls whole, or the path's end.
   */
  function Skip(p: seq<BranchId>, pos: nat): (r: nat)
    requires pos <= |p|
    ensures pos <= r <= |p| && (r == |p| || p[r] == PW.kReturnId)
    decreases |p| - pos
  {
    if pos == |p| || p[pos] == PW.kReturnId then pos
    else if p[pos] == PW.kCallId then
      var q := Skip(p, pos + 1);
      if q == |p| then q else Skip(p, q + 1)
    else Skip(p, pos + 1)
  }

  /**
   * `CollectNextBranches` from `pos`: the new position and the indices of
   * the branches that can come next, looking inside each call the path
   * makes first and past its return.
   */
  function Collect(p: seq<BranchId>, pos: nat): (r: (nat, seq<nat>))
    requires pos <= |p|
    ensures pos <= r.0 <= |p|
    ensures forall k | 0 <= k < |r.1| :: pos <= r.1[k] < r.0 && p[r.1[k]] >= 0
    decreases |p| - pos
  {
    if pos < |p| && p[pos] == PW.kCallId then
      var inner := Collect(p, pos + 1);
      var q := Skip(p, inner.0);
      if q == |p| then (q, inner.1)
      else
        var rest := Collect(p, q + 1);
        (rest.0, inner.1 + rest.1)
    else if pos < |p| && p[pos] >= 0 then (pos + 1, [pos])
    else (pos, [])
  }

  /** Advances `pos` past the current call, to its return or the path's end. */
  method SkipUntilReturn(path: seq<BranchId>, pos: nat) returns (pos': nat)
    requires pos <= |path|
    ensures pos' == Skip(path, pos)
    decreases |path| - pos
  {
    pos' := pos;
    while pos' < |path| && path[pos'] != PW.kReturnId
      invariant pos <= pos' <= |path| && Skip(path, pos') == Skip(path, pos)
      decreases |path| - pos'
    {
      if path[pos'] == PW.kCallId {
        pos' := SkipUntilReturn(path, pos' + 1);
        if pos' >= |path| {
          return;
        }
      }
      pos' := pos' + 1;
    }
  }

  /** Appends to `idxs` the branches that can follow, advancing `pos`. */
  method CollectNextBranches(path: seq<BranchId>, pos: nat, idxs: seq<nat>) returns (pos': nat, idxs': seq<nat>)
    requires pos <= |path|
    ensures (pos', idxs') == (Collect(path, pos).0, idxs + Collect(path, pos).1)
    decreases |path| - pos, 1
  {
    pos', idxs' := pos, idxs;
    while pos' < |path| && path[pos'] == PW.kCallId
      invariant pos <= pos' <= |path|
      invariant (Collect(path, pos).0, idxs + Collect(path, pos).1) == (Collect(path, pos').0, idxs' + Collect(path, pos').1)
      decreases |path| - pos'
    {
      var next;
      next, idxs' := CollectCall(path, pos', idxs');
      if next == |path| {
        pos' := next;
        return;
      }
      pos' := next + 1;
    }
    if pos' < |path| && path[pos'] >= 0 {
      assert Collect(path, pos') == (pos' + 1, [pos']);
      idxs' := idxs' + [pos'];
      pos' := pos' + 1;
    } else {
      assert Collect(path, pos') == (pos', []);
      assert idxs' + [] == idxs';
    }
  }

  /** One call of the loop in `CollectNextBranches`: its branches are collected and its body skipped. */
  method CollectCall(path: seq<BranchId>, pos: nat, idxs: seq<nat>) returns (next: nat, idxs': seq<nat>)
    requires pos < |path| && path[pos] == PW.kCallId
    ensures pos < next <= |path|
    ensures next == |path| ==> (Collect(path, pos).0, idxs + Collect(path, pos).1) == (next, idxs')
    ensures next < |path| ==>
      (Collect(path, pos).0, idxs + Collect(path, pos).1) == (Collect(path, next + 1).0, idxs' + Collect(path, next + 1).1)
    decreases |path| - pos, 0
  {
    ghost var inner := Collect(path, pos + 1);
    var mid;
    mid, idxs' := CollectNextBranches(path, pos + 1, idxs);
    next := SkipUntilReturn(path, mid);
    if next < |path| {
      ghost var rest := Collect(path, next + 1);
      assert Collect(path, pos) == (rest.0, inner.1 + rest.1);
      assert idxs + (inner.1 + rest.1) == idxs' + rest.1;
    }
  }

  /**
   * Whether a branch of `bs` can be reached from branch `i` of the path in
   * at most `d` steps, each step going to a branch that can come next.
   */
  function FindAlongCfg(p: seq<BranchId>, i: nat, d: nat, bs: set<BranchId>): (found: bool)
    ensures i < |p| && p[i] in bs ==> found
    ensures found ==> i < |p|
    decreases d
  {
    if i >= |p| then false
    else if p[i] in bs then true
    else if d == 0 then false
    else
      var idxs := Collect(p, i + 1).1;
      exists k | 0 <= k < |idxs| :: FindAlongCfg(p, idxs[k], d - 1, bs)
  }

  /** A larger budget finds at least what a smaller one does. */
  lemma {:induction false} FindMonotone(p: seq<BranchId>, i: nat, d: nat, e: nat, bs: set<BranchId>)
    requires d <= e && FindAlongCfg(p, i, d, bs)
    ensures FindAlongCfg(p, i, e, bs)
    decreases d
  {
    if p[i] !in bs {
      var idxs := Collect(p, i + 1).1;
      var k :| 0 <= k < |idxs| && FindAlongCfg(p, idxs[k], d - 1, bs);
      FindMonotone(p, idxs[k], d - 1, e - 1, bs);
    }
  }

  function Min(a: nat, b: nat): nat {
    if a <= b then a else b
  }

  /**
   * The rest of `MinCflDistance`'s walk from position `j`: `cur` is the
   * distance of the next branch, `stack` holds the distances saved at the
   * open calls and `best` the least distance found so far. A return with no
   * open call ends the walk; `None` stands for an id that is neither a
   * branch, a call nor a return, on which the program stops.
   */
  function CflWalk(p: seq<BranchId>, bs: set<BranchId>, j: nat, cur: nat, stack: seq<nat>, best: nat): (r: Option<nat>)
    requires j <= |p|
    ensures r.Some? ==> r.value <= best
    ensures r.Some? && best >= 1 && cur >= 1 && (forall k | 0 <= k < |stack| :: stack[k] >= 1) ==> r.value >= 1
    decreases |p| - j
  {
    if j == |p| then Some(best)
    else
      var best' := if p[j] in bs then Min(best, cur) else best;
      if p[j] >= 0 then CflWalk(p, bs, j + 1, cur + 1, stack, best')
      else if p[j] == PW.kCallId then CflWalk(p, bs, j + 1, cur, stack + [cur], best')
      else if p[j] == PW.kReturnId then
        if |stack| == 0 then Some(best')
        else CflWalk(p, bs, j + 1, stack[|stack| - 1], stack[..|stack| - 1], best')
      else None
  }

  /** Only branch, call and return ids. */
  predicate WellFormedPath(p: seq<BranchId>) {
    forall j | 0 <= j < |p| :: p[j] >= PW.kReturnId
  }

  /**
   * `MinCflDistance`: `SIZE_MAX` past the end of the path, 0 when branch
   * `i` is itself one of `bs`, and otherwise the least call/return-scoped
   * distance at which a branch of `bs` follows, at least 1.
   */
  function MinCfl(p: seq<BranchId>, i: nat, bs: set<BranchId>): (r: Option<nat>)
    ensures i >= |p| ==> r == Some(SIZE_MAX)
    ensures i < |p| ==> (r == Some(0) <==> p[i] in bs)
  {
    if i >= |p| then Some(SIZE_MAX)
    else if p[i] in bs then Some(0)
    else CflWalk(p, bs, i + 1, 1, [], SIZE_MAX)
  }

  /** On a well-formed path the walk always finishes. */
  lemma {:induction false} WalkDefined(p: seq<BranchId>, bs: set<BranchId>, j: nat, cur: nat, stack: seq<nat>, best: nat)
    requires j <= |p| && WellFormedPath(p)
    ensures CflWalk(p, bs, j, cur, stack, best).Some?
    decreases |p| - j
  {
    if j < |p| {
      var best' := if p[j] in bs then Min(best, cur) else best;
      if p[j] >= 0 {
        WalkDefined(p, bs, j + 1, cur + 1, stack, best');
      } else if p[j] == PW.kCallId {
        WalkDefined(p, bs, j + 1, cur, stack + [cur], best');
      } else if |stack| > 0 {
        WalkDefined(p, bs, j + 1, stack[|stack| - 1], stack[..|stack| - 1], best');
      }
    }
  }

  /** A branch of `bs` right after branch `i` is at distance 1. */
  lemma NextBranchAtOne(p: seq<BranchId>, i: nat, bs: set<BranchId>)
    requires WellFormedPath(p) && i + 1 < |p| && p[i] !in bs && p[i + 1] in bs
    ensures MinCfl(p, i, bs) == Some(1)
  {
    assert Min(SIZE_MAX, 1) == 1;
    if p[i + 1] >= 0 {
      WalkDefined(p, bs, i + 2, 2, [], 1);
      assert MinCfl(p, i, bs) == CflWalk(p, bs, i + 2, 2, [], 1);
    } else if p[i + 1] == PW.kCallId {
      var none: seq<nat> := [];
      assert none + [1] == [1];
      WalkDefined(p, bs, i + 2, 1, [1], 1);
      assert MinCfl(p, i, bs) == CflWalk(p, bs, i + 2, 1, none + [1], 1);
    }
  }

  /** Walks the path from `i + 1`, keeping the distances at open calls on a stack. */
  method MinCflDistance(p: seq<BranchId>, i: nat, bs: set<BranchId>) returns (r: Option<nat>)
    ensures r == MinCfl(p, i, bs)
  {
    if i >= |p| {
      return Some(SIZE_MAX);
    }
    if p[i] in bs {
      return Some(0);
    }
    var stack: seq<nat> := [];
    var best := SIZE_MAX;
    var cur := 1;
    var j := i + 1;
    while j < |p|
      invariant i + 1 <= j <= |p|
      invariant CflWalk(p, bs, j, cur, stack, best) == MinCfl(p, i, bs)
      decreases |p| - j
    {
      if p[j] in bs {
        best := Min(best, cur);
      }
      if p[j] >= 0 {
        cur := cur + 1;
      } else if p[j] == PW.kCallId {
        stack := stack + [cur];
      } else if p[j] == PW.kReturnId {
        if |stack| == 0 {
          return Some(best);
        }
        cur := stack[|stack| - 1];
        stack := stack[..|stack| - 1];
      } else {
        return None;
      }
      j := j + 1;
    }
    r := Some(best);
  }

  // ------------------------------------------------------------------ scoring

  /** How often `b` occurs in `s`. */
  function Occurrences(s: seq<BranchId>, b: BranchId): (c: nat)
    ensures c <= |s|
  {
    if |s| == 0 then 0 else Occurrences(s[..|s| - 1], b) + if s[|s| - 1] == b then 1 else 0
  }

  /** Every constraint's branch is a branch id the maps cover. */
  predicate Flippable(path: PW.Path, n: nat) {
    PW.Valid(path) && forall c | 0 <= c < |path.idx| :: 0 <= path.branches[path.idx[c]] < n
  }

  /** The branch that negating constraint `c` aims for: the sibling of the branch it took. */
  function Target(path: PW.Path, paired: seq<BranchId>, c: nat): (t: BranchId)
    requires Flippable(path, |paired|) && c < |path.idx|
  {
    paired[path.branches[path.idx[c]]]
  }

  /** The targets of the constraints in `order`. */
  function Targets(path: PW.Path, paired: seq<BranchId>, order: seq<nat>): (ts: seq<BranchId>)
    requires Flippable(path, |paired|) && forall k | 0 <= k < |order| :: order[k] < |path.idx|
    ensures |ts| == |order| && forall k | 0 <= k < |order| :: ts[k] == Target(path, paired, order[k])
  {
    if |order| == 0 then [] else Targets(path, paired, order[..|order| - 1]) + [Target(path, paired, order[|order| - 1])]
  }

  /** A constraint index with its score. */
  type Scored = (nat, nat)

  /** Sorted by increasing score. */
  predicate ScoreSorted(xs: seq<Scored>) {
    forall k, l | 0 <= k < l < |xs| :: xs[k].1 <= xs[l].1
  }

  /** The entries of `xs` with score `s`, in order. */
  function WithScore(xs: seq<Scored>, s: nat): (r: seq<Scored>)
    ensures forall k | 0 <= k < |r| :: r[k].1 == s
  {
    if |xs| == 0 then []
    else
      WithScore(xs[..|xs| - 1], s) + if xs[|xs| - 1].1 == s then [xs[|xs| - 1]] else []
  }

  /** Places `x` after every entry of `r` whose score is not larger. */
  function InsertScored(x: Scored, r: seq<Scored>): (r': seq<Scored>)
    ensures |r'| == |r| + 1 && multiset(r') == multiset(r) + multiset{x}
  {
    if |r| == 0 || r[|r| - 1].1 <= x.1 then r + [x]
    else
      assert r == r[..|r| - 1] + [r[|r| - 1]];
      InsertScored(x, r[..|r| - 1]) + [r[|r| - 1]]
  }

  /** Inserting into a sorted sequence keeps it sorted. */
  lemma {:induction false} InsertScoredSorted(x: Scored, r: seq<Scored>)
    requires ScoreSorted(r)
    ensures ScoreSorted(InsertScored(x, r))
    ensures |r| > 0 ==> InsertScored(x, r)[|r|] == x || InsertScored(x, r)[|r|] == r[|r| - 1]
  {
    if |r| > 0 && r[|r| - 1].1 > x.1 {
      var init := r[..|r| - 1];
      InsertScoredSorted(x, init);
      var i' := InsertScored(x, init);
      var r' := i' + [r[|r| - 1]];
      assert r' == InsertScored(x, r);
      forall k, l | 0 <= k < l < |r'| ensures r'[k].1 <= r'[l].1 {
        if l == |r'| - 1 && k < |init| {
          if |init| > 0 {
            assert i'[|init|] == x || i'[|init|] == init[|init| - 1];
          }
          assert i'[k] in multiset(init) + multiset{x};
        }
      }
    }
  }

  /** `stable_sort` by score: sorted and a permutation; `SortByScoreStable` shows equal scores keep their order. */
  function SortByScore(xs: seq<Scored>): (r: seq<Scored>)
    ensures ScoreSorted(r) && multiset(r) == multiset(xs)
  {
    if |xs| == 0 then []
    else
      assert xs == xs[..|xs| - 1] + [xs[|xs| - 1]];
      var init := SortByScore(xs[..|xs| - 1]);
      InsertScoredSorted(xs[|xs| - 1], init);
      InsertScored(xs[|xs| - 1], init)
  }

  lemma {:induction false} WithScoreAppend(a: seq<Scored>, b: seq<Scored>, s: nat)
    ensures WithScore(a + b, s) == WithScore(a, s) + WithScore(b, s)
    decreases |b|
  {
    if |b| > 0 {
      var m := |b| - 1;
      assert (a + b)[..|a + b| - 1] == a + b[..m];
      WithScoreAppend(a, b[..m], s);
    } else {
      assert a + b == a;
    }
  }

  /** A single entry is kept exactly when it has score `s`. */
  lemma WithScoreSingle(y: Scored, s: nat)
    ensures WithScore([y], s) == if y.1 == s then [y] else []
  {
    var none: seq<Scored> := [];
    assert [y][..0] == none;
  }

  lemma {:induction false} InsertScoredStable(x: Scored, r: seq<Scored>, s: nat)
    ensures WithScore(InsertScored(x, r), s) == WithScore(r, s) + if x.1 == s then [x] else []
  {
    WithScoreSingle(x, s);
    if |r| == 0 || r[|r| - 1].1 <= x.1 {
      WithScoreAppend(r, [x], s);
    } else {
      var init, last := r[..|r| - 1], r[|r| - 1];
      var i' := InsertScored(x, init);
      assert InsertScored(x, r) == i' + [last];
      assert r == init + [last];
      InsertScoredStable(x, init, s);
      StableStep(x, init, last, i', s);
    }
  }

  /** `x` goes before an entry that outscores it, and at most one of the two has score `s`. */
  lemma StableStep(x: Scored, init: seq<Scored>, last: Scored, i': seq<Scored>, s: nat)
    requires last.1 > x.1
    requires WithScore(i', s) == WithScore(init, s) + if x.1 == s then [x] else []
    ensures WithScore(i' + [last], s) == WithScore(init + [last], s) + if x.1 == s then [x] else []
  {
    WithScoreSingle(last, s);
    WithScoreAppend(i', [last], s);
    WithScoreAppend(init, [last], s);
  }

  /** Sorting is stable: the entries of each score keep their relative order. */
  lemma {:induction false} SortByScoreStable(xs: seq<Scored>, s: nat)
    ensures WithScore(SortByScore(xs), s) == WithScore(xs, s)
  {
    if |xs| > 0 {
      var init := xs[..|xs| - 1];
      SortByScoreStable(init, s);
      InsertScoredStable(xs[|xs| - 1], SortByScore(init), s);
    }
  }

  /**
   * The search over a control-flow graph: `cfg` lists the branches that can
   * follow each branch, `cfgRev` the branches each one can follow, and
   * `dist` each branch's distance, along `cfgRev`, from an uncovered branch.
   */
  class CfgHeuristicSearch {
    const search: Search
    const cfg: seq<seq<BranchId>>
    const cfgRev: seq<seq<BranchId>>
    const infinite: nat
    var dist: seq<nat>

    ghost predicate Valid()
      reads this, search
    {
      && search.Valid()
      && |cfg| == |dist| == search.maxBranch
      && CfgShape(search.branches, search.covered, cfgRev, search.maxBranch)
    }

    /** Reads the CFG records, one per branch, and reverses the graph. */
    constructor (s: Search, records: seq<CfgRecord>, inf: nat)
      requires s.Valid() && |records| == |s.branches| && RecordsFit(records, s.maxBranch)
      ensures Valid() && search == s && infinite == inf
      ensures cfg == CfgOf(records, s.maxBranch) && cfgRev == Reversed(s.branches, cfg)
      ensures dist == seq(s.maxBranch, _ => 0)
    {
      var g := ReadCfg(records, s.maxBranch);
      var rev := ReverseCfg(s.branches, g);
      ReversedSpec(s.branches, g);
      forall i, l | 0 <= i < |rev| && 0 <= l < |rev[i]|
        ensures rev[i][l] in s.branches && 0 <= rev[i][l] < s.maxBranch
      {
        assert rev[i][l] in rev[i];
      }
      search := s;
      cfg := g;
      cfgRev := rev;
      infinite := inf;
      dist := seq(s.maxBranch, _ => 0);
    }

    /** The start of each round of `Run`: this run's coverage is forgotten. */
    method StartRound()
      requires Valid()
      modifies search`covered, search`numCovered
      ensures Valid()
      ensures search.covered == Unset(search.maxBranch) && search.numCovered == 0
    {
      search.covered := Unset(search.maxBranch);
      search.numCovered := 0;
    }

    /**
     * A backward BFS from all uncovered branches at once: afterwards every
     * uncovered branch is at distance 0, no branch is further than
     * `infinite`, and every branch is at most one step further than each
     * branch it can be followed by.
     */
    method UpdateBranchDistances()
      requires Valid()
      modifies this`dist
      ensures Valid()
      ensures Bounded(search.branches, search.covered, dist, infinite)
      ensures forall x | 0 <= x < |search.branches| :: Settled(cfgRev, dist, search.branches[x])
    {
      var q := SeedDistances();
      while q != []
        invariant Valid() && IdsBelow(q, |dist|)
        invariant Bounded(search.branches, search.covered, dist, infinite)
        invariant QueuedOrSettled(search.branches, search.covered, cfgRev, dist, q)
        decreases Sum(dist), |q|
      {
        var i := q[0];
        q := q[1..];
        q := Relax(i, dist[i], q);
      }
    }

    /** The first loop: uncovered branches start at 0 and in the queue, covered ones at `infinite`. */
    method SeedDistances() returns (q: seq<BranchId>)
      requires Valid()
      modifies this`dist
      ensures Valid() && IdsBelow(q, |dist|)
      ensures Bounded(search.branches, search.covered, dist, infinite)
      ensures QueuedOrSettled(search.branches, search.covered, cfgRev, dist, q)
    {
      var bs := search.branches;
      q := [];
      for k := 0 to |bs|
        invariant |dist| == search.maxBranch && IdsBelow(q, |dist|)
        invariant forall x | 0 <= x < k :: dist[bs[x]] == if search.covered[bs[x]] then infinite else 0
        invariant forall x | 0 <= x < k && !search.covered[bs[x]] :: bs[x] in q
      {
        if !search.covered[bs[k]] {
          dist := dist[bs[k] := 0];
          q := q + [bs[k]];
        } else {
          dist := dist[bs[k] := infinite];
        }
      }
      SeededSettled(bs, search.covered, cfgRev, dist, infinite, q);
    }

    /** The BFS step for branch `i`, popped at distance `di`: its predecessors are brought within `di + 1`. */
    method Relax(i: BranchId, di: nat, q: seq<BranchId>) returns (q': seq<BranchId>)
      requires Valid() && IdsBelow(q, |dist|) && 0 <= i < |dist| && dist[i] == di
      requires Bounded(search.branches, search.covered, dist, infinite)
      requires forall x | 0 <= x < |search.branches| ::
        search.branches[x] in q || search.branches[x] == i || Settled(cfgRev, dist, search.branches[x])
      modifies this`dist
      ensures Valid() && IdsBelow(q', |dist|)
      ensures Bounded(search.branches, search.covered, dist, infinite)
      ensures QueuedOrSettled(search.branches, search.covered, cfgRev, dist, q')
      ensures Sum(dist) < Sum(old(dist)) || (dist == old(dist) && q' == q)
    {
      var rev := cfgRev[i];
      ghost var d0 := dist;
      q' := q;
      for l := 0 to |rev|
        invariant |dist| == search.maxBranch
        invariant RelaxedUpTo(search.branches, search.covered, cfgRev, infinite, i, di, d0, q, l, dist, q')
      {
        RelaxStep(search.branches, search.covered, cfgRev, infinite, i, di, d0, q, l, dist, q');
        var j := rev[l];
        if di + 1 < dist[j] {
          dist := dist[j := di + 1];
          q' := q' + [j];
        }
      }
      RelaxDone(search.branches, search.covered, cfgRev, infinite, i, di, d0, q, dist, q');
    }
  }

  /**
   * `Relax`'s loop invariant, after the first `l` predecessors of `i`: those
   * are within `di + 1`, the queue holds every branch not settled but `i`, and
   * the distances only went down.
   */
  ghost predicate RelaxedUpTo(bs: seq<BranchId>, covered: seq<bool>, rev: seq<seq<BranchId>>, inf: nat,
                              i: BranchId, di: nat, d0: seq<nat>, q0: seq<BranchId>, l: nat,
                              dist: seq<nat>, q: seq<BranchId>)
  {
    && CfgShape(bs, covered, rev, |dist|) && |d0| == |dist| && IdsBelow(q, |dist|)
    && 0 <= i < |dist| && dist[i] == di && l <= |rev[i]|
    && Bounded(bs, covered, dist, inf)
    && (forall l' | 0 <= l' < l :: dist[rev[i][l']] <= di + 1)
    && (forall x | 0 <= x < |bs| :: bs[x] in q || bs[x] == i || Settled(rev, dist, bs[x]))
    && (Sum(dist) < Sum(d0) || (dist == d0 && q == q0))
  }

  /** One predecessor `j` of `i`: when it is further than `di + 1`, it is brought to `di + 1` and queued. */
  lemma RelaxStep(bs: seq<BranchId>, covered: seq<bool>, rev: seq<seq<BranchId>>, inf: nat,
                  i: BranchId, di: nat, d0: seq<nat>, q0: seq<BranchId>, l: nat, dist: seq<nat>, q: seq<BranchId>)
    requires RelaxedUpTo(bs, covered, rev, inf, i, di, d0, q0, l, dist, q) && l < |rev[i]|
    ensures var j := rev[i][l];
      if di + 1 < dist[j] then RelaxedUpTo(bs, covered, rev, inf, i, di, d0, q0, l + 1, dist[j := di + 1], q + [j])
      else RelaxedUpTo(bs, covered, rev, inf, i, di, d0, q0, l + 1, dist, q)
  {
    var j := rev[i][l];
    assert j in bs;
    if di + 1 < dist[j] {
      SumLower(dist, j, di + 1);
      LowerKeepsSettled(bs, covered, rev, dist, j, di + 1, q, i);
    }
  }

  /** Once all its predecessors are within one step, `i` is settled too. */
  lemma RelaxDone(bs: seq<BranchId>, covered: seq<bool>, rev: seq<seq<BranchId>>, inf: nat,
                  i: BranchId, di: nat, d0: seq<nat>, q0: seq<BranchId>, dist: seq<nat>, q: seq<BranchId>)
    requires 0 <= i < |rev| && RelaxedUpTo(bs, covered, rev, inf, i, di, d0, q0, |rev[i]|, dist, q)
    ensures QueuedOrSettled(bs, covered, rev, dist, q)
  {
    assert Settled(rev, dist, i);
  }

  /** After seeding, covered branches sit at the bound, so every predecessor is within one step. */
  lemma SeededSettled(bs: seq<BranchId>, covered: seq<bool>, rev: seq<seq<BranchId>>, dist: seq<nat>, inf: nat, q: seq<BranchId>)
    requires CfgShape(bs, covered, rev, |dist|)
    requires forall x | 0 <= x < |bs| :: dist[bs[x]] == if covered[bs[x]] then inf else 0
    requires forall x | 0 <= x < |bs| && !covered[bs[x]] :: bs[x] in q
    ensures Bounded(bs, covered, dist, inf) && QueuedOrSettled(bs, covered, rev, dist, q)
  {
    forall x | 0 <= x < |bs| && covered[bs[x]] ensures Settled(rev, dist, bs[x]) {
      forall l | 0 <= l < |rev[bs[x]]| ensures dist[rev[bs[x]][l]] <= dist[bs[x]] + 1 {
        var y :| 0 <= y < |bs| && bs[y] == rev[bs[x]][l];
      }
    }
  }

  /** Lowering `j`'s distance and queueing it keeps every other branch settled or queued. */
  lemma LowerKeepsSettled(bs: seq<BranchId>, covered: seq<bool>, rev: seq<seq<BranchId>>, dist: seq<nat>,
                          j: nat, v: nat, q: seq<BranchId>, i: BranchId)
    requires CfgShape(bs, covered, rev, |dist|) && j < |dist| && v < dist[j]
    requires forall x | 0 <= x < |bs| :: bs[x] in q || bs[x] == i || Settled(rev, dist, bs[x])
    ensures forall x | 0 <= x < |bs| :: bs[x] in q + [j] || bs[x] == i || Settled(rev, dist[j := v], bs[x])
  {
    forall x | 0 <= x < |bs| && bs[x] != j && bs[x] !in q && bs[x] != i
      ensures Settled(rev, dist[j := v], bs[x])
    {
      assert Settled(rev, dist, bs[x]);
    }
  }

  /**
   * `DoSearch`'s ranking: each constraint in the shuffled `order` is scored
   * by its target's distance plus how often the same target was scored
   * before it; then the constraints are stably sorted by score.
   */
  method ScoreBranches(path: PW.Path, paired: seq<BranchId>, dist: seq<nat>, order: seq<nat>) returns (scored: seq<Scored>)
    requires Flippable(path, |paired|) && IdsBelow(paired, |dist|)
    requires forall k | 0 <= k < |order| :: order[k] < |path.idx|
    ensures |scored| == |order|
    ensures forall k | 0 <= k < |order| ::
      && scored[k].0 == order[k]
      && scored[k].1 == dist[Target(path, paired, order[k])] + Occurrences(Targets(path, paired, order)[..k], Target(path, paired, order[k]))
    ensures scored == Scores(path, paired, dist, order)
  {
    ghost var ts := Targets(path, paired, order);
    var seen: map<BranchId, nat> := map[];
    scored := [];
    for k := 0 to |order|
      invariant ScoredUpTo(ts, dist, order, k, seen, scored)
    {
      var bid := paired[path.branches[path.idx[order[k]]]];
      seen, scored := ScoreOne(ts, dist, order, k, seen, scored, bid);
    }
    ScoredAreScores(ts, dist, order, scored);
    assert Scores(path, paired, dist, order) == ScoresOf(ts, dist, order);
  }

  /** Entries scored as `ScoredUpTo` describes are `ScoresOf` their targets. */
  lemma ScoredAreScores(ts: seq<BranchId>, dist: seq<nat>, order: seq<nat>, scored: seq<Scored>)
    requires |ts| == |order| && IdsBelow(ts, |dist|) && |scored| == |order|
    requires forall k' | 0 <= k' < |order| :: scored[k'] == (order[k'], dist[ts[k']] + Occurrences(ts[..k'], ts[k']))
    ensures scored == ScoresOf(ts, dist, order)
  {
    var r := ScoresOf(ts, dist, order);
    forall k | 0 <= k < |order| ensures scored[k] == r[k] {
      assert Indices(r)[k] == r[k].0;
    }
  }


  /** The score of each constraint in `order`: its target's distance plus how often that target came earlier in `order`. */
  function Scores(path: PW.Path, paired: seq<BranchId>, dist: seq<nat>, order: seq<nat>): (r: seq<Scored>)
    requires Flippable(path, |paired|) && IdsBelow(paired, |dist|)
    requires forall k | 0 <= k < |order| :: order[k] < |path.idx|
    ensures Indices(r) == order
  {
    ScoresOf(Targets(path, paired, order), dist, order)
  }

  /** `Scores` given the targets `ts` of the constraints in `order`. */
  function ScoresOf(ts: seq<BranchId>, dist: seq<nat>, order: seq<nat>): (r: seq<Scored>)
    requires |ts| == |order| && IdsBelow(ts, |dist|)
    ensures Indices(r) == order
    ensures forall k | 0 <= k < |order| :: r[k].1 == dist[ts[k]] + Occurrences(ts[..k], ts[k])
  {
    var r := seq(|order|, k requires 0 <= k < |order| => (order[k], dist[ts[k]] + Occurrences(ts[..k], ts[k])));
    assert Indices(r) == order;
    r
  }

  /** The constraint indices of scored entries, in order. */
  function Indices(xs: seq<Scored>): (r: seq<nat>)
    ensures |r| == |xs| && forall k | 0 <= k < |xs| :: r[k] == xs[k].0
  {
    seq(|xs|, k requires 0 <= k < |xs| => xs[k].0)
  }

  /** Reordering scored entries reorders their indices the same way. */
  lemma {:induction false} IndicesPermuted(a: seq<Scored>, b: seq<Scored>)
    requires multiset(a) == multiset(b)
    ensures multiset(Indices(a)) == multiset(Indices(b))
    decreases |a|
  {
    assert |multiset(a)| == |a| && |multiset(b)| == |b|;
    if |a| > 0 {
      var x, a' := a[|a| - 1], a[..|a| - 1];
      assert x in multiset(b);
      var j :| 0 <= j < |b| && b[j] == x;
      var b' := RemoveAt(b, j);
      assert a == a' + [x];
      CancelOne(multiset(b'), multiset(a'), x);
      IndicesPermuted(a', b');
      IndicesLast(a);
      IndicesRemoveAt(b, j);
    }
  }

  /** `xs` without its entry at `j`, which the multiset of `xs` then holds once more. */
  function RemoveAt(xs: seq<Scored>, j: nat): (r: seq<Scored>)
    requires j < |xs|
    ensures multiset(r) + multiset{xs[j]} == multiset(xs)
  {
    assert xs == xs[..j] + [xs[j]] + xs[j + 1..];
    xs[..j] + xs[j + 1..]
  }

  /** The last entry's index ends the indices. */
  lemma IndicesLast(a: seq<Scored>)
    requires |a| > 0
    ensures multiset(Indices(a)) == multiset(Indices(a[..|a| - 1])) + multiset{a[|a| - 1].0}
  {
    assert Indices(a) == Indices(a[..|a| - 1]) + [a[|a| - 1].0];
  }

  /** Removing the entry at `j` removes its index. */
  lemma IndicesRemoveAt(b: seq<Scored>, j: nat)
    requires j < |b|
    ensures multiset(Indices(b)) == multiset(Indices(RemoveAt(b, j))) + multiset{b[j].0}
  {
    var ib, r := Indices(b), RemoveAt(b, j);
    var ir, i0, i1 := Indices(r), ib[..j], ib[j + 1..];
    assert r == b[..j] + b[j + 1..];
    forall k | 0 <= k < |ir| ensures ir[k] == (i0 + i1)[k] {
      if k < j {
        assert r[k] == b[k];
      } else {
        assert r[k] == b[k + 1];
      }
    }
    assert ir == i0 + i1;
    assert ib == i0 + [ib[j]] + i1;
  }

  /** One occurrence of the same entry cancels on both sides. */
  lemma CancelOne(m: multiset<Scored>, m': multiset<Scored>, x: Scored)
    requires m + multiset{x} == m' + multiset{x}
    ensures m == m'
  {
    forall y ensures m[y] == m'[y] {
      assert (m + multiset{x})[y] == (m' + multiset{x})[y];
    }
  }

  /** `ScoreBranches`' loop invariant: the first `k` constraints are scored and `seen` counts their targets. */
  ghost predicate ScoredUpTo(ts: seq<BranchId>, dist: seq<nat>, order: seq<nat>, k: nat,
                             seen: map<BranchId, nat>, scored: seq<Scored>)
  {
    && IdsBelow(ts, |dist|) && |ts| == |order| && k <= |order| && |scored| == k
    && (forall b :: (if b in seen then seen[b] else 0) == Occurrences(ts[..k], b))
    && forall k' | 0 <= k' < k :: scored[k'] == (order[k'], dist[ts[k']] + Occurrences(ts[..k'], ts[k']))
  }

  /** The body of `ScoreBranches`' loop: constraint `order[k]`, whose target is `bid`, is scored. */
  method ScoreOne(ghost ts: seq<BranchId>, dist: seq<nat>, order: seq<nat>, k: nat,
                  seen: map<BranchId, nat>, scored: seq<Scored>, bid: BranchId)
    returns (seen': map<BranchId, nat>, scored': seq<Scored>)
    requires ScoredUpTo(ts, dist, order, k, seen, scored) && k < |order| && bid == ts[k]
    ensures ScoredUpTo(ts, dist, order, k + 1, seen', scored')
  {
    var n := if bid in seen then seen[bid] else 0;
    assert n == Occurrences(ts[..k], bid);
    scored' := scored + [(order[k], dist[bid] + n)];
    seen' := seen[bid := n + 1];
    forall b ensures (if b in seen' then seen'[b] else 0) == Occurrences(ts[..k + 1], b) {
      assert ts[..k + 1][..k] == ts[..k];
    }
    assert forall k' | 0 <= k' < k + 1 :: scored'[k'] == (order[k'], dist[ts[k']] + Occurrences(ts[..k'], ts[k'])) by {
      assert forall k' | 0 <= k' < k :: scored'[k'] == scored[k'];
    }
  }

  /**
   * The start of `DoSearch`: nothing to try at or past the end of the
   * constraints or with no depth left; otherwise the constraints from `pos`
   * on, in the shuffled `order`, scored and stably sorted.
   */
  method RankBranches(path: PW.Path, paired: seq<BranchId>, dist: seq<nat>, depth: int, pos: nat, order: seq<nat>)
    returns (ranked: Option<seq<Scored>>)
    requires Flippable(path, |paired|) && IdsBelow(paired, |dist|)
    requires pos < |path.constraints| ==> multiset(order) == multiset(Range(pos, |path.constraints|))
    ensures ranked.None? <==> pos >= |path.constraints| || depth == 0
    ensures ranked.Some? ==> ScoreSorted(ranked.value) && |ranked.value| == |path.constraints| - pos
    ensures ranked.Some? ==> forall k | 0 <= k < |ranked.value| :: pos <= ranked.value[k].0 < |path.constraints|
    ensures ranked.Some? ==> multiset(Indices(ranked.value)) == multiset(Range(pos, |path.constraints|))
    ensures ranked.Some? ==>
      && (forall k | 0 <= k < |order| :: order[k] < |path.idx|)
      && ranked.value == SortByScore(Scores(path, paired, dist, order))
  {
    if pos >= |path.constraints| || depth == 0 {
      return None;
    }
    PermutedRange(order, pos, |path.constraints|);
    var scored := ScoreBranches(path, paired, dist, order);
    var sorted := SortByScore(scored);
    RankedIndices(order, scored, sorted, pos, |path.constraints|);
    IndicesPermuted(sorted, scored);
    ranked := Some(sorted);
  }

  /** Scores that follow `order`, once sorted, still hold one entry per index from `lo` up to `hi - 1`. */
  lemma RankedIndices(order: seq<nat>, scored: seq<Scored>, sorted: seq<Scored>, lo: nat, hi: nat)
    requires |order| == hi - lo && forall k | 0 <= k < |order| :: lo <= order[k] < hi
    requires |scored| == |order| && forall k | 0 <= k < |order| :: scored[k].0 == order[k]
    requires multiset(sorted) == multiset(scored)
    ensures |sorted| == hi - lo && forall k | 0 <= k < |sorted| :: lo <= sorted[k].0 < hi
  {
    SortedKeepsIndices(sorted, scored, lo, hi);
  }

  /** A permutation of the indices `lo` up to `hi - 1` holds `hi - lo` of them, each in that range. */
  lemma PermutedRange(order: seq<nat>, lo: nat, hi: nat)
    requires lo < hi && multiset(order) == multiset(Range(lo, hi))
    ensures |order| == hi - lo && forall k | 0 <= k < |order| :: lo <= order[k] < hi
  {
    var range := Range(lo, hi);
    assert |multiset(order)| == |order| && |multiset(range)| == |range|;
    forall k | 0 <= k < |order| ensures lo <= order[k] < hi {
      assert order[k] in multiset(range);
      var j :| 0 <= j < |range| && range[j] == order[k];
    }
  }

  /** A permutation of scored constraints has their number, and indices in the same range. */
  lemma SortedKeepsIndices(sorted: seq<Scored>, scored: seq<Scored>, lo: nat, hi: nat)
    requires multiset(sorted) == multiset(scored) && forall k | 0 <= k < |scored| :: lo <= scored[k].0 < hi
    ensures |sorted| == |scored| && forall k | 0 <= k < |sorted| :: lo <= sorted[k].0 < hi
  {
    assert |multiset(sorted)| == |sorted| && |multiset(scored)| == |scored|;
    forall k | 0 <= k < |sorted| ensures lo <= sorted[k].0 < hi {
      assert sorted[k] in multiset(scored);
      var j :| 0 <= j < |scored| && scored[j] == sorted[k];
    }
  }

  /** The indices `lo` up to `hi - 1`. */
  function Range(lo: nat, hi: nat): (r: seq<nat>)
    ensures |r| == if lo <= hi then hi - lo else 0
    ensures forall k | 0 <= k < |r| :: r[k] == lo + k
    decreases hi - lo
  {
    if lo >= hi then [] else [lo] + Range(lo + 1, hi)
  }
}
