/**
 * Symbolic expression trees, as both sides hold them. The recording library
 * (`SymbolicExprWriter` and its subclasses) and the search (`SymbolicExpr`
 * and its subclasses) use the same six node kinds, told apart on the wire by
 * a tag byte. Every node carries the concrete value it had in the recorded
 * run, its width in bytes and a unique id.
 */
module Exprs {
  import opened BasicTypes
  import Arith

  datatype Expr =
    /** Symbolic input number `inputVar` (`AtomicExprWriter`, `AtomicExpr`). */
    | Atomic(value: Value, size: UInt64, id: UInt64, inputVar: UInt32)
    /** A comparison (`PredExprWriter`, `PredExpr`). */
    | Compare(value: Value, size: UInt64, id: UInt64, cmp: Byte, left: Expr, right: Expr)
    /** A binary operation, CONCAT and EXTRACT included (`BinExprWriter`, `BinExpr`). */
    | Binary(value: Value, size: UInt64, id: UInt64, bin: Byte, left: Expr, right: Expr)
    /** A unary operation (`UnaryExprWriter`, `UnaryExpr`). */
    | Unary(value: Value, size: UInt64, id: UInt64, un: Byte, child: Expr)
    /** A read through a symbolic address of snapshot `snapshotIdx` of tracked object `managerIdx`. */
    | Deref(value: Value, size: UInt64, id: UInt64, managerIdx: UInt64, snapshotIdx: UInt64, addr: Expr)
    /** A concrete value (the base classes themselves). */
    | Const(value: Value, size: UInt64, id: UInt64)

  const kBasicNodeTag: Byte := 0
  const kCompareNodeTag: Byte := 1
  const kBinaryNodeTag: Byte := 2
  const kUnaryNodeTag: Byte := 3
  const kDerefNodeTag: Byte := 4
  const kConstNodeTag: Byte := 5

  /** The tag byte each node kind is written with. */
  function Tag(e: Expr): (t: Byte)
    ensures t <= kConstNodeTag
    ensures t == kConstNodeTag <==> e.Const?
  {
    match e
    case Atomic(_, _, _, _) => kBasicNodeTag
    case Compare(_, _, _, _, _, _) => kCompareNodeTag
    case Binary(_, _, _, _, _, _) => kBinaryNodeTag
    case Unary(_, _, _, _, _) => kUnaryNodeTag
    case Deref(_, _, _, _, _, _) => kDerefNodeTag
    case Const(_, _, _) => kConstNodeTag
  }

  /** Only the base-class node is concrete; every subclass overrides `IsConcrete` to false. */
  predicate IsConcrete(e: Expr) {
    e.Const?
  }

  /** Number of nodes. */
  function Count(e: Expr): (n: nat)
    ensures n >= 1
  {
    match e
    case Compare(_, _, _, _, l, r) => Count(l) + Count(r) + 1
    case Binary(_, _, _, _, l, r) => Count(l) + Count(r) + 1
    case Unary(_, _, _, _, c) => Count(c) + 1
    case Deref(_, _, _, _, _, a) => 1 + Count(a)
    case _ => 1
  }

  predicate HasDeref(e: Expr) {
    match e
    case Compare(_, _, _, _, l, r) => HasDeref(l) || HasDeref(r)
    case Binary(_, _, _, _, l, r) => HasDeref(l) || HasDeref(r)
    case Unary(_, _, _, _, c) => HasDeref(c)
    case Deref(_, _, _, _, _, _) => true
    case _ => false
  }

  // ------------------------------------------------------------ unique ids

  /** The ids present in a tree. */
  function Ids(e: Expr): set<UInt64> {
    match e
    case Compare(_, _, id, _, l, r) => Ids(l) + Ids(r) + {id}
    case Binary(_, _, id, _, l, r) => Ids(l) + Ids(r) + {id}
    case Unary(_, _, id, _, c) => Ids(c) + {id}
    case Deref(_, _, id, _, _, a) => {id} + Ids(a)
    case _ => {e.id}
  }

  /** The tree with every id replaced by 0: what a node is apart from its identity. */
  function Strip(e: Expr): (r: Expr)
    ensures r.size == e.size && r.value == e.value && Tag(r) == Tag(e)
  {
    match e
    case Atomic(v, n, _, x) => Atomic(v, n, 0, x)
    case Compare(v, n, _, op, l, r) => Compare(v, n, 0, op, Strip(l), Strip(r))
    case Binary(v, n, _, op, l, r) => Binary(v, n, 0, op, Strip(l), Strip(r))
    case Unary(v, n, _, op, c) => Unary(v, n, 0, op, Strip(c))
    case Deref(v, n, _, m, sn, a) => Deref(v, n, 0, m, sn, Strip(a))
    case Const(v, n, _) => Const(v, n, 0)
  }

  /** Stripping twice is stripping once. */
  lemma {:induction false} StripStrip(e: Expr)
    ensures Strip(Strip(e)) == Strip(e)
  {
    match e
    case Compare(_, _, _, _, l, r) => StripStrip(l); StripStrip(r);
    case Binary(_, _, _, _, l, r) => StripStrip(l); StripStrip(r);
    case Unary(_, _, _, _, c) => StripStrip(c);
    case Deref(_, _, _, _, _, a) => StripStrip(a);
    case _ =>
  }

  /**
   * The global counter is kept as the number of nodes constructed so far;
   * the `size_t` it lives in holds that number modulo 2^64. `++next` is the
   * id a newly constructed node takes.
   */
  function Fresh(next: nat): UInt64 {
    Wrap(next + 1)
  }

  /** A count reduced to a `size_t`: its remainder modulo 2^64. */
  function Wrap(x: nat): UInt64 {
    if x < TWO_64 then x else Wrap(x - TWO_64)
  }

  lemma {:induction false} WrapIsMod(x: nat)
    ensures Wrap(x) == x % TWO_64
  {
    if x >= TWO_64 {
      WrapIsMod(x - TWO_64);
    }
  }

  /** A tree together with the counter value after building it. */
  datatype Numbered = Numbered(expr: Expr, next: nat)

  /**
   * `Clone()`: a deep copy in which every node takes a fresh id, so the copy
   * differs from the original only in its ids, and the counter moves on by
   * the number of nodes.
   */
  function Clone(e: Expr, next: nat): (r: Numbered)
    ensures Count(r.expr) == Count(e)
    ensures r.next == next + Count(e)
    ensures r.expr.size == e.size && r.expr.value == e.value
  {
    match e
    case Atomic(v, n, _, x) =>
      Numbered(Atomic(v, n, Fresh(next), x), next + 1)
    case Compare(v, n, _, op, l, rt) =>
      var L := Clone(l, next);
      var R := Clone(rt, L.next);
      Numbered(Compare(v, n, Fresh(R.next), op, L.expr, R.expr), R.next + 1)
    case Binary(v, n, _, op, l, rt) =>
      var L := Clone(l, next);
      var R := Clone(rt, L.next);
      Numbered(Binary(v, n, Fresh(R.next), op, L.expr, R.expr), R.next + 1)
    case Unary(v, n, _, op, c) =>
      var C := Clone(c, next);
      Numbered(Unary(v, n, Fresh(C.next), op, C.expr), C.next + 1)
    case Deref(v, n, _, m, sn, a) =>
      var A := Clone(a, next + 1);
      Numbered(Deref(v, n, Fresh(next), m, sn, A.expr), A.next)
    case Const(v, n, _) =>
      Numbered(Const(v, n, Fresh(next)), next + 1)
  }

  /** The copy differs from the original only in its ids. */
  lemma {:induction false} CloneStrip(e: Expr, next: nat)
    ensures Strip(Clone(e, next).expr) == Strip(e)
  {
    match e
    case Compare(_, _, _, _, l, r) =>
      CloneStrip(l, next);
      CloneStrip(r, Clone(l, next).next);
    case Binary(_, _, _, _, l, r) =>
      CloneStrip(l, next);
      CloneStrip(r, Clone(l, next).next);
    case Unary(_, _, _, _, c) => CloneStrip(c, next);
    case Deref(_, _, _, _, _, a) => CloneStrip(a, next + 1);
    case _ =>
  }

  /**
   * The ids of `e` are those the counter hands out after `next`
   * constructions, in construction order: operands before the node that
   * takes them, a deref node before its address.
   */
  predicate NumberedFrom(e: Expr, next: nat) {
    match e
    case Compare(_, _, id, _, l, r) =>
      NumberedFrom(l, next) && NumberedFrom(r, next + Count(l)) && id == Fresh(next + Count(l) + Count(r))
    case Binary(_, _, id, _, l, r) =>
      NumberedFrom(l, next) && NumberedFrom(r, next + Count(l)) && id == Fresh(next + Count(l) + Count(r))
    case Unary(_, _, id, _, c) =>
      NumberedFrom(c, next) && id == Fresh(next + Count(c))
    case Deref(_, _, id, _, _, a) =>
      id == Fresh(next) && NumberedFrom(a, next + 1)
    case _ => e.id == Fresh(next)
  }

  /** Every node of a clone takes a fresh id, in construction order. */
  lemma {:induction false} CloneNumbered(e: Expr, next: nat)
    ensures NumberedFrom(Clone(e, next).expr, next)
  {
    if e.Compare? || e.Binary? {
      CloneNumbered(e.left, next);
      CloneNumbered(e.right, next + Count(e.left));
      CloneNumberedPair(e, next);
    } else if e.Unary? {
      CloneNumbered(e.child, next);
      CloneNumberedUnary(e, next);
    } else if e.Deref? {
      CloneNumbered(e.addr, next + 1);
      CloneNumberedDeref(e, next);
    }
  }

  lemma CloneNumberedPair(e: Expr, next: nat)
    requires e.Compare? || e.Binary?
    requires NumberedFrom(Clone(e.left, next).expr, next)
    requires NumberedFrom(Clone(e.right, next + Count(e.left)).expr, next + Count(e.left))
    ensures NumberedFrom(Clone(e, next).expr, next)
  {
    var L := Clone(e.left, next);
    var R := Clone(e.right, L.next);
    var c := Clone(e, next).expr;
    assert c.left == L.expr && c.right == R.expr && c.id == Fresh(R.next);
  }

  lemma CloneNumberedUnary(e: Expr, next: nat)
    requires e.Unary?
    requires NumberedFrom(Clone(e.child, next).expr, next)
    ensures NumberedFrom(Clone(e, next).expr, next)
  {
    var C := Clone(e.child, next);
    var c := Clone(e, next).expr;
    assert c.child == C.expr && c.id == Fresh(C.next);
  }

  lemma CloneNumberedDeref(e: Expr, next: nat)
    requires e.Deref?
    requires NumberedFrom(Clone(e.addr, next + 1).expr, next + 1)
    ensures NumberedFrom(Clone(e, next).expr, next)
  {
    var c := Clone(e, next).expr;
    assert c.addr == Clone(e.addr, next + 1).expr && c.id == Fresh(next);
  }

  /** Every id in `ids` lies in `(lo, hi]`. */
  predicate IdsIn(ids: set<UInt64>, lo: nat, hi: nat) {
    forall x | x in ids :: lo < x <= hi
  }

  /**
   * Until the counter wraps, the ids of a tree numbered from `next` are all
   * different, larger than `next` and at most `next + Count(e)`: none of
   * them repeats an id handed out before.
   */
  lemma {:induction false} NumberedIdsDistinct(e: Expr, next: nat)
    requires NumberedFrom(e, next) && next + Count(e) < TWO_64
    ensures IdsIn(Ids(e), next, next + Count(e)) && |Ids(e)| == Count(e)
  {
    if e.Compare? || e.Binary? {
      NumberedIdsDistinct(e.left, next);
      NumberedIdsDistinct(e.right, next + Count(e.left));
      IdsDistinctPair(e, next);
    } else if e.Unary? {
      NumberedIdsDistinct(e.child, next);
      IdsDistinctUnary(e, next);
    } else if e.Deref? {
      NumberedIdsDistinct(e.addr, next + 1);
      IdsDistinctDeref(e, next);
    }
  }

  lemma IdsDistinctPair(e: Expr, next: nat)
    requires (e.Compare? || e.Binary?) && NumberedFrom(e, next) && next + Count(e) < TWO_64
    requires IdsIn(Ids(e.left), next, next + Count(e.left)) && |Ids(e.left)| == Count(e.left)
    requires IdsIn(Ids(e.right), next + Count(e.left), next + Count(e.left) + Count(e.right))
    requires |Ids(e.right)| == Count(e.right)
    ensures IdsIn(Ids(e), next, next + Count(e)) && |Ids(e)| == Count(e)
  {
    assert Ids(e.left) !! Ids(e.right);
    assert e.id !in Ids(e.left) + Ids(e.right);
  }

  lemma IdsDistinctUnary(e: Expr, next: nat)
    requires e.Unary? && NumberedFrom(e, next) && next + Count(e) < TWO_64
    requires IdsIn(Ids(e.child), next, next + Count(e.child)) && |Ids(e.child)| == Count(e.child)
    ensures IdsIn(Ids(e), next, next + Count(e)) && |Ids(e)| == Count(e)
  {
    assert e.id !in Ids(e.child);
  }

  lemma IdsDistinctDeref(e: Expr, next: nat)
    requires e.Deref? && NumberedFrom(e, next) && next + Count(e) < TWO_64
    requires IdsIn(Ids(e.addr), next + 1, next + 1 + Count(e.addr)) && |Ids(e.addr)| == Count(e.addr)
    ensures IdsIn(Ids(e), next, next + Count(e)) && |Ids(e)| == Count(e)
  {
    assert e.id !in Ids(e.addr);
  }

  /** Every clone made before the counter wraps has distinct ids, all new. */
  lemma CloneIdsFresh(e: Expr, next: nat)
    requires next + Count(e) < TWO_64
    ensures var c := Clone(e, next).expr;
      |Ids(c)| == Count(e) && IdsIn(Ids(c), next, next + Count(e))
  {
    CloneNumbered(e, next);
    NumberedIdsDistinct(Clone(e, next).expr, next);
  }

  /** The global counter `SymbolicExprWriter::next`. */
  class IdCounter {
    var next: nat

    constructor ()
      ensures next == 0
    {
      next := 0;
    }

    /** The id a newly constructed node takes. */
    method Take() returns (id: UInt64)
      modifies this
      ensures id == Fresh(old(next)) && next == old(next) + 1
    {
      id := Fresh(next);
      next := next + 1;
    }

    /** `e->Clone()`. */
    method CloneOf(e: Expr) returns (c: Expr)
      modifies this
      ensures Numbered(c, next) == Clone(e, old(next))
    {
      var r := Clone(e, next);
      c, next := r.expr, r.next;
    }
  }

  // ------------------------------------------------------------ Equals

  /**
   * Structural equality of the search side. A concrete node equals any
   * concrete node with the same integral value and size; an input equals the
   * same input; operator nodes need the same operator and equal operands. A
   * deref node equals nothing: it ends by comparing the two objects, and
   * object comparison always answers false.
   */
  predicate Equals(e: Expr, o: Expr) {
    match e
    case Const(v, n, _) => IsConcrete(o) && v.integral == o.value.integral && n == o.size
    case Atomic(_, _, _, x) => o.Atomic? && x == o.inputVar
    case Compare(_, _, _, op, l, r) => o.Compare? && op == o.cmp && Equals(l, o.left) && Equals(r, o.right)
    case Binary(_, _, _, op, l, r) => o.Binary? && op == o.bin && Equals(l, o.left) && Equals(r, o.right)
    case Unary(_, _, _, op, c) => o.Unary? && op == o.un && Equals(c, o.child)
    case Deref(_, _, _, _, _, _) => false
  }

  /** A tree equals itself exactly when it holds no deref node. */
  lemma {:induction false} EqualsReflexive(e: Expr)
    ensures Equals(e, e) <==> !HasDeref(e)
  {
    match e
    case Compare(_, _, _, _, l, r) => EqualsReflexive(l); EqualsReflexive(r);
    case Binary(_, _, _, _, l, r) => EqualsReflexive(l); EqualsReflexive(r);
    case Unary(_, _, _, _, c) => EqualsReflexive(c);
    case _ =>
  }

  lemma {:induction false} EqualsSymmetric(e: Expr, o: Expr)
    ensures Equals(e, o) <==> Equals(o, e)
  {
    match e
    case Compare(_, _, _, _, l, r) =>
      if o.Compare? { EqualsSymmetric(l, o.left); EqualsSymmetric(r, o.right); }
    case Binary(_, _, _, _, l, r) =>
      if o.Binary? { EqualsSymmetric(l, o.left); EqualsSymmetric(r, o.right); }
    case Unary(_, _, _, _, c) =>
      if o.Unary? { EqualsSymmetric(c, o.child); }
    case _ =>
  }

  lemma {:induction false} EqualsTransitive(a: Expr, b: Expr, c: Expr)
    requires Equals(a, b) && Equals(b, c)
    ensures Equals(a, c)
  {
    match a
    case Compare(_, _, _, _, l, r) =>
      EqualsTransitive(l, b.left, c.left); EqualsTransitive(r, b.right, c.right);
    case Binary(_, _, _, _, l, r) =>
      EqualsTransitive(l, b.left, c.left); EqualsTransitive(r, b.right, c.right);
    case Unary(_, _, _, _, ch) =>
      EqualsTransitive(ch, b.child, c.child);
    case _ =>
  }

  /** Equality never looks at ids, so a tree and its clone are equal whenever the tree equals itself. */
  lemma {:induction false} EqualsIgnoresIds(e: Expr, o: Expr)
    ensures Equals(e, o) <==> Equals(Strip(e), Strip(o))
  {
    match e
    case Compare(_, _, _, _, l, r) =>
      if o.Compare? { EqualsIgnoresIds(l, o.left); EqualsIgnoresIds(r, o.right); }
    case Binary(_, _, _, _, l, r) =>
      if o.Binary? { EqualsIgnoresIds(l, o.left); EqualsIgnoresIds(r, o.right); }
    case Unary(_, _, _, _, c) =>
      if o.Unary? { EqualsIgnoresIds(c, o.child); }
    case _ =>
  }
}
