/**
 * `SymbolicPathWriter`: the path the recording library logs while the
 * program runs. Every branch taken appends its id; a branch whose condition
 * was symbolic also records the condition, the position of its branch in
 * the path (its index) and where in the source the branch sits.
 */
module PathWriter {
  import opened Wrappers
  import opened BasicTypes
  import opened Bytes
  import opened Exprs
  import ExprCodec

  /** `branch_id_t`, an `int`. */
  type BranchId = Int32

  /** The pseudo-branches that mark a call and a return. */
  const kCallId: BranchId := -1
  const kReturnId: BranchId := -2

  /** `Loc_t`: a file name and a line number. */
  datatype Loc = Loc(fname: seq<Byte>, lineno: Int32)

  /** A C string holds no NUL byte. */
  predicate CString(s: seq<Byte>) {
    forall i | 0 <= i < |s| :: s[i] != 0
  }

  /**
   * The four vectors of a path: branch ids, constraint indices, constraints
   * and constraint locations. Both sides keep the same four.
   */
  datatype Path = Path(branches: seq<BranchId>, idx: seq<nat>, constraints: seq<Expr>, locations: seq<Loc>)

  const EmptyPath: Path := Path([], [], [], [])

  /** Each index names an existing branch, and later constraints name later branches. */
  predicate Increasing(idx: seq<nat>, n: nat) {
    (forall k | 0 <= k < |idx| :: idx[k] < n) &&
    forall k, l | 0 <= k < l < |idx| :: idx[k] < idx[l]
  }

  /** The recorder's invariant: one index and one location per constraint, the indices increasing. */
  predicate Valid(p: Path) {
    |p.idx| == |p.constraints| == |p.locations| && Increasing(p.idx, |p.branches|)
  }

  /** `unsigned int` converted to `int`: values from 2^31 on wrap to negative ones. */
  function LineNumber(u: UInt32): (r: Int32)
    ensures r % 0x1_0000_0000 == u
  {
    if u < 0x8000_0000 then u else u - 0x1_0000_0000
  }

  /** `Push(bid)`: the branch is appended and nothing else moves. */
  function PushBranch(p: Path, bid: BranchId): (r: Path)
  {
    p.(branches := p.branches + [bid])
  }

  /**
   * `Push(bid, constraint, lineno, filename)`. With a condition, the
   * location, the condition and the current branch count are appended
   * first; the branch id is appended in every case.
   */
  function PushConstraint(p: Path, bid: BranchId, c: Option<Expr>, lineno: UInt32, fname: seq<Byte>): (r: Path)
  {
    if c.None? then PushBranch(p, bid)
    else
      Path(p.branches + [bid], p.idx + [|p.branches|], p.constraints + [c.value],
           p.locations + [Loc(fname, LineNumber(lineno))])
  }

  /** Appending a branch keeps the invariant and leaves every constraint where it was. */
  lemma PushBranchValid(p: Path, bid: BranchId)
    requires Valid(p)
    ensures var r := PushBranch(p, bid);
      Valid(r) && |r.branches| == |p.branches| + 1 && r.branches[|p.branches|] == bid &&
      r.branches[..|p.branches|] == p.branches &&
      r.idx == p.idx && r.constraints == p.constraints && r.locations == p.locations
  {
    var r := PushBranch(p, bid);
    assert r.branches[..|p.branches|] == p.branches;
  }

  /**
   * With a condition, the recorder gains exactly one constraint, whose index
   * is the position of the branch pushed with it, and it stays valid;
   * without one, only the branch is appended.
   */
  lemma PushConstraintValid(p: Path, bid: BranchId, c: Option<Expr>, lineno: UInt32, fname: seq<Byte>)
    requires Valid(p)
    ensures var r := PushConstraint(p, bid, c, lineno, fname);
      Valid(r) && r.branches == p.branches + [bid] &&
      (c.None? ==> r == PushBranch(p, bid)) &&
      (c.Some? ==>
        |r.constraints| == |p.constraints| + 1 && r.constraints[..|p.constraints|] == p.constraints &&
        r.constraints[|p.constraints|] == c.value &&
        r.branches[r.idx[|p.constraints|]] == bid &&
        r.locations[|p.constraints|] == Loc(fname, LineNumber(lineno)))
  {
    if c.Some? {
      var r := PushConstraint(p, bid, c, lineno, fname);
      assert r.constraints[..|p.constraints|] == p.constraints;
      assert r.idx[|p.constraints|] == |p.branches|;
    } else {
      PushBranchValid(p, bid);
    }
  }

  // ----------------------------------------------------------- a whole run

  /** One call the interpreter makes on the recorder. */
  datatype Step =
    | Mark(bid: BranchId)
    | Cond(bid: BranchId, c: Option<Expr>, lineno: UInt32, fname: seq<Byte>)

  function Apply(p: Path, s: Step): Path {
    match s
    case Mark(bid) => PushBranch(p, bid)
    case Cond(bid, c, lineno, fname) => PushConstraint(p, bid, c, lineno, fname)
  }

  /** The path a run's calls leave, oldest first. */
  function Record(steps: seq<Step>): (p: Path)
    decreases |steps|
  {
    if steps == [] then EmptyPath else Apply(Record(steps[..|steps| - 1]), steps[|steps| - 1])
  }

  /**
   * After any run the path has one branch per call, is valid, and constraint
   * `k` sits at index `idx[k]`: the call at that position recorded exactly
   * that condition and that branch.
   */
  lemma {:induction false} RecordTracksSteps(steps: seq<Step>)
    ensures var p := Record(steps);
      Valid(p) && |p.branches| == |steps| &&
      (forall i | 0 <= i < |steps| :: p.branches[i] == steps[i].bid) &&
      forall k | 0 <= k < |p.idx| ::
        steps[p.idx[k]].Cond? && steps[p.idx[k]].c == Some(p.constraints[k])
    decreases |steps|
  {
    if steps != [] {
      var n := |steps| - 1;
      var pre := steps[..n];
      RecordTracksSteps(pre);
      var q := Record(pre);
      var s := steps[n];
      assert forall i | 0 <= i < n :: pre[i] == steps[i];
      match s
      case Mark(bid) =>
        PushBranchValid(q, bid);
      case Cond(bid, c, lineno, fname) =>
        PushConstraintValid(q, bid, c, lineno, fname);
    }
  }

  // ------------------------------------------------------------------ Swap

  /** `Swap`: branches, indices and constraints change places; the locations stay. */
  function SwapPaths(p: Path, q: Path): (r: (Path, Path))
  {
    (q.(locations := p.locations), p.(locations := q.locations))
  }

  /**
   * Since the locations are not exchanged, two valid paths are still valid
   * after a swap exactly when they held the same number of constraints.
   */
  lemma SwapValid(p: Path, q: Path)
    requires Valid(p) && Valid(q)
    ensures Valid(SwapPaths(p, q).0) <==> |p.constraints| == |q.constraints|
    ensures Valid(SwapPaths(p, q).1) <==> |p.constraints| == |q.constraints|
    ensures SwapPaths(SwapPaths(p, q).0, SwapPaths(p, q).1) == (p, q)
  {
  }

  // ------------------------------------------------------------- Serialize

  /** Branch ids from position `i` on, as `int`s. */
  function BranchesFrom(b: seq<BranchId>, i: nat): (bs: seq<Byte>)
    requires i <= |b|
    ensures |bs| == 4 * (|b| - i)
    decreases |b| - i
  {
    if i == |b| then [] else I32Bytes(b[i]) + BranchesFrom(b, i + 1)
  }

  /** Constraint indices from position `i` on, as `size_t`s. */
  function IndicesFrom(idx: seq<nat>, i: nat): (bs: seq<Byte>)
    requires i <= |idx|
    ensures |bs| == 8 * (|idx| - i)
    decreases |idx| - i
  {
    if i == |idx| then [] else U64Bytes(idx[i] % TWO_64) + IndicesFrom(idx, i + 1)
  }

  /** One constraint: its line as an `int`, its file name's length as a `size_t`, the name, the expression. */
  function ConstraintBytes(e: Expr, l: Loc): seq<Byte> {
    I32Bytes(l.lineno) + U64Bytes(|l.fname| % TWO_64) + l.fname + ExprCodec.Serialize(e)
  }

  /** Constraints from position `i` on, each with the location at the same position. */
  function ConstraintsFrom(cs: seq<Expr>, locs: seq<Loc>, i: nat): (bs: seq<Byte>)
    requires i <= |cs| <= |locs|
    decreases |cs| - i
  {
    if i == |cs| then [] else ConstraintBytes(cs[i], locs[i]) + ConstraintsFrom(cs, locs, i + 1)
  }

  /**
   * What `Serialize` needs: as many indices as constraints are written and
   * the locations are walked in step with the constraints, so there must be
   * at least that many of each.
   */
  predicate Writable(p: Path) {
    |p.constraints| <= |p.idx| && |p.constraints| <= |p.locations|
  }

  /**
   * `Serialize`: the branch count as a `size_t` and the branch ids, the
   * constraint count and one index per constraint, then the constraints
   * with their locations.
   */
  function PathBytes(p: Path): (bs: seq<Byte>)
    requires Writable(p)
  {
    U64Bytes(|p.branches| % TWO_64) + (BranchesFrom(p.branches, 0) +
    (U64Bytes(|p.constraints| % TWO_64) + (IndicesFrom(p.idx[..|p.constraints|], 0) +
    ConstraintsFrom(p.constraints, p.locations, 0))))
  }

  /** A valid path can be written. */
  lemma ValidWritable(p: Path)
    requires Valid(p)
    ensures Writable(p) && p.idx[..|p.constraints|] == p.idx
  {
  }

  lemma AppendAssoc(a: seq<Byte>, b: seq<Byte>, c: seq<Byte>)
    ensures a + (b + c) == (a + b) + c
  {
  }

  /** The branch ids, as `Serialize` writes them. */
  method SerializeBranches(b: seq<BranchId>) returns (bs: seq<Byte>)
    ensures bs == BranchesFrom(b, 0)
  {
    bs := [];
    for i := 0 to |b|
      invariant bs + BranchesFrom(b, i) == BranchesFrom(b, 0)
    {
      AppendAssoc(bs, I32Bytes(b[i]), BranchesFrom(b, i + 1));
      bs := bs + I32Bytes(b[i]);
    }
  }

  /** The constraint indices, as `Serialize` writes them. */
  method SerializeIndices(idx: seq<nat>) returns (bs: seq<Byte>)
    ensures bs == IndicesFrom(idx, 0)
  {
    bs := [];
    for i := 0 to |idx|
      invariant bs + IndicesFrom(idx, i) == IndicesFrom(idx, 0)
    {
      AppendAssoc(bs, U64Bytes(idx[i] % TWO_64), IndicesFrom(idx, i + 1));
      bs := bs + U64Bytes(idx[i] % TWO_64);
    }
  }

  /** The constraints and their locations, as `Serialize` writes them. */
  method SerializeConstraints(cs: seq<Expr>, locs: seq<Loc>) returns (bs: seq<Byte>)
    requires |cs| <= |locs|
    ensures bs == ConstraintsFrom(cs, locs, 0)
  {
    bs := [];
    for i := 0 to |cs|
      invariant bs + ConstraintsFrom(cs, locs, i) == ConstraintsFrom(cs, locs, 0)
    {
      var part := I32Bytes(locs[i].lineno) + U64Bytes(|locs[i].fname| % TWO_64) + locs[i].fname;
      var e := ExprCodec.Serialize(cs[i]);
      assert ConstraintBytes(cs[i], locs[i]) == part + e;
      AppendAssoc(bs, part + e, ConstraintsFrom(cs, locs, i + 1));
      bs := bs + (part + e);
    }
  }

  /** The recorder of the running program. */
  class SymbolicPathWriter {
    var branches: seq<BranchId>
    var constraintsIdx: seq<nat>
    var constraints: seq<Expr>
    var locations: seq<Loc>

    function State(): Path
      reads this
    {
      Path(branches, constraintsIdx, constraints, locations)
    }

    constructor ()
      ensures State() == EmptyPath
    {
      branches, constraintsIdx, constraints, locations := [], [], [], [];
    }

    /** `Push(bid)`. */
    method Push(bid: BranchId)
      modifies this
      ensures State() == PushBranch(old(State()), bid)
    {
      branches := branches + [bid];
    }

    /**
     * `Push(bid, constraint, lineno, filename)`, and the overload with the
     * predicate's value and text, which only forwards here.
     */
    method PushWith(bid: BranchId, c: Option<Expr>, lineno: UInt32, fname: seq<Byte>)
      requires CString(fname)
      modifies this
      ensures State() == PushConstraint(old(State()), bid, c, lineno, fname)
    {
      if c.Some? {
        locations := locations + [Loc(fname, LineNumber(lineno))];
        constraints := constraints + [c.value];
        constraintsIdx := constraintsIdx + [|branches|];
      }
      branches := branches + [bid];
    }

    /** `Swap(sp)`. */
    method Swap(sp: SymbolicPathWriter)
      modifies this, sp
      ensures (State(), sp.State()) == SwapPaths(old(State()), old(sp.State()))
    {
      var b, i, c := branches, constraintsIdx, constraints;
      branches, constraintsIdx, constraints := sp.branches, sp.constraintsIdx, sp.constraints;
      sp.branches, sp.constraintsIdx, sp.constraints := b, i, c;
    }

    /** `Serialize(os)`: the bytes appended to the stream. */
    method Serialize() returns (bs: seq<Byte>)
      requires Writable(State())
      ensures bs == PathBytes(State())
    {
      var b := SerializeBranches(branches);
      var i := SerializeIndices(constraintsIdx[..|constraints|]);
      var c := SerializeConstraints(constraints, locations);
      bs := U64Bytes(|branches| % TWO_64) + (b + (U64Bytes(|constraints| % TWO_64) + (i + c)));
    }
  }
}
