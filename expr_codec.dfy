/**
 * The wire format of an expression tree. The recording library writes each
 * node as a header (the raw `Value_t`, the size, the unique id and a tag
 * byte) followed by the node kind's payload, operands in pre-order; the
 * search reads it back node by node, recording every node it builds in a
 * table keyed by the id read from the stream.
 */
module ExprCodec {
  import opened BasicTypes
  import opened Bytes
  import opened Exprs

  /**
   * The four bytes of padding that close a `Value_t` (its `int` type field
   * is followed by alignment to 8). The writer copies them from memory; the
   * model writes zeros, and the reader ignores whatever is there.
   */
  const PADDING: seq<Byte> := [0, 0, 0, 0]

  /** `sizeof(Value_t)` on x86-64. */
  const VALUE_LEN: nat := 24

  /** Value, size and id: the bytes before the tag. */
  const HEADER_LEN: nat := 40

  function ValueBytes(v: Value): (bs: seq<Byte>)
    ensures |bs| == VALUE_LEN
  {
    I64Bytes(v.integral) + U64Bytes(v.floating) + I32Bytes(v.ty) + PADDING
  }

  function ReadValue(bs: seq<Byte>): Value
    requires |bs| == VALUE_LEN
  {
    Value(ReadI64(bs[..8]), ReadU64(bs[8..16]), ReadI32(bs[16..20]))
  }

  /** A `Value_t` reads back as written, whatever its padding bytes hold. */
  lemma ValueRoundTrip(v: Value, pad: seq<Byte>)
    requires |pad| == 4
    ensures var bs := I64Bytes(v.integral) + U64Bytes(v.floating) + I32Bytes(v.ty) + pad;
      ReadValue(bs) == v
  {
    var bs := I64Bytes(v.integral) + U64Bytes(v.floating) + I32Bytes(v.ty) + pad;
    assert bs[..8] == I64Bytes(v.integral);
    assert bs[8..16] == U64Bytes(v.floating);
    assert bs[16..20] == I32Bytes(v.ty);
    FieldRoundTrips(v.floating, v.integral, 0, v.ty);
  }

  /** What `SymbolicExprWriter::Serialize(os, c)` writes for every node. */
  function HeaderBytes(e: Expr): (bs: seq<Byte>)
    ensures |bs| == HEADER_LEN + 1 && bs[HEADER_LEN] == Tag(e)
  {
    ValueBytes(e.value) + U64Bytes(e.size) + U64Bytes(e.id) + [Tag(e)]
  }

  /** The whole tree: each node's header, its payload, then its operands left to right. */
  function Serialize(e: Expr): (bs: seq<Byte>)
    ensures |bs| > HEADER_LEN && bs[HEADER_LEN] == Tag(e)
  {
    match e
    case Atomic(_, _, _, x) => HeaderBytes(e) + U32Bytes(x)
    case Compare(_, _, _, op, l, r) => HeaderBytes(e) + [op] + Serialize(l) + Serialize(r)
    case Binary(_, _, _, op, l, r) => HeaderBytes(e) + [op] + Serialize(l) + Serialize(r)
    case Unary(_, _, _, op, c) => HeaderBytes(e) + [op] + Serialize(c)
    case Deref(_, _, _, m, sn, a) => HeaderBytes(e) + U64Bytes(m) + U64Bytes(sn) + Serialize(a)
    case Const(_, _, _) => HeaderBytes(e)
  }

  // ------------------------------------------------------------ parsing

  /** The search's `read_table`: the last node parsed under each id. */
  type ReadTable = map<UInt64, Expr>

  /**
   * How reading a header ends: a read of value, size or id runs out of bytes
   * (`Parse` returns NULL), the tag byte is missing (`get()` yields EOF, which
   * reaches the `assert(0)` of the unknown-tag branch), or all are present.
   */
  datatype Header =
    | HeaderCut
    | NoTag
    | Header(value: Value, size: UInt64, id: UInt64, tag: Byte, body: seq<Byte>)

  function ReadHeader(s: seq<Byte>): (h: Header)
    ensures h.HeaderCut? <==> |s| < HEADER_LEN
    ensures h.NoTag? <==> |s| == HEADER_LEN
    ensures h.Header? ==> h.body == s[HEADER_LEN + 1..] && h.tag == s[HEADER_LEN]
  {
    if |s| < HEADER_LEN then HeaderCut
    else if |s| == HEADER_LEN then NoTag
    else Header(ReadValue(s[..24]), ReadU64(s[24..32]), ReadU64(s[32..40]), s[HEADER_LEN], s[HEADER_LEN + 1..])
  }

  /** A written header reads back as the node's value, size, id and tag. */
  lemma ReadHeaderOf(e: Expr, tail: seq<Byte>)
    ensures ReadHeader(HeaderBytes(e) + tail) == Header(e.value, e.size, e.id, Tag(e), tail)
  {
    var s := HeaderBytes(e) + tail;
    assert s[..24] == ValueBytes(e.value);
    assert ReadValue(s[..24]) == e.value by {
      ValueRoundTrip(e.value, PADDING);
    }
    assert ReadU64(s[24..32]) == e.size by {
      assert s[24..32] == U64Bytes(e.size);
      FieldRoundTrips(e.size, 0, 0, 0);
    }
    assert ReadU64(s[32..40]) == e.id by {
      assert s[32..40] == U64Bytes(e.id);
      FieldRoundTrips(e.id, 0, 0, 0);
    }
    assert s[HEADER_LEN + 1..] == tail;
  }

  /** What `SymbolicExpr::Parse` ends with. */
  datatype ParseResult =
    /** A node, the bytes after it and the updated read table. */
    | Parsed(expr: Expr, rest: seq<Byte>, table: ReadTable)
    /** `Parse` returned NULL. */
    | Failed
    /** The unknown-tag `assert(0)` fired. */
    | Aborted

  /**
   * `SymbolicExpr::Parse`. A read that runs short fails; a missing or
   * unknown tag aborts; every node built is stored in the read table under
   * the id it was written with, after its operands, replacing what was there.
   */
  function Parse(s: seq<Byte>, table: ReadTable): (r: ParseResult)
    ensures r.Parsed? ==> |r.rest| < |s| && r.expr.id in r.table && r.table[r.expr.id] == r.expr
    ensures |s| < HEADER_LEN ==> r.Failed?
    ensures |s| == HEADER_LEN || (|s| > HEADER_LEN && s[HEADER_LEN] > kConstNodeTag) ==> r.Aborted?
    decreases |s|, 1
  {
    match ReadHeader(s)
    case HeaderCut => Failed
    case NoTag => Aborted
    case Header(v, n, id, tag, body) =>
      if tag == kBasicNodeTag then
        if |body| < 4 then Failed
        else
          var e := Atomic(v, n, id, ReadU32(body[..4]));
          Parsed(e, body[4..], table[id := e])
      else if tag == kCompareNodeTag || tag == kBinaryNodeTag then ParsePair(v, n, id, tag, body, table)
      else if tag == kUnaryNodeTag then ParseUnary(v, n, id, body, table)
      else if tag == kDerefNodeTag then ParseDeref(v, n, id, body, table)
      else if tag == kConstNodeTag then
        var e := Const(v, n, id);
        Parsed(e, body, table[id := e])
      else
        Aborted
  }

  /** A comparison or binary node: operator byte, then left and right operands; either failing fails the node. */
  function ParsePair(v: Value, n: UInt64, id: UInt64, tag: Byte, body: seq<Byte>, table: ReadTable): (r: ParseResult)
    requires tag == kCompareNodeTag || tag == kBinaryNodeTag
    ensures r.Parsed? ==> |r.rest| < |body| && r.expr.id in r.table && r.table[r.expr.id] == r.expr
    decreases |body|, 0
  {
    if |body| < 1 then Failed
    else
      match Parse(body[1..], table)
      case Parsed(l, rest, t) =>
        (match Parse(rest, t)
         case Parsed(r, rest', t') =>
           var e := if tag == kCompareNodeTag then Compare(v, n, id, body[0], l, r)
                    else Binary(v, n, id, body[0], l, r);
           Parsed(e, rest', t'[id := e])
         case Failed => Failed
         case Aborted => Aborted)
      case Failed => Failed
      case Aborted => Aborted
  }

  function ParseUnary(v: Value, n: UInt64, id: UInt64, body: seq<Byte>, table: ReadTable): (r: ParseResult)
    ensures r.Parsed? ==> |r.rest| < |body| && r.expr.id in r.table && r.table[r.expr.id] == r.expr
    decreases |body|, 0
  {
    if |body| < 1 then Failed
    else
      match Parse(body[1..], table)
      case Parsed(c, rest, t) =>
        var e := Unary(v, n, id, body[0], c);
        Parsed(e, rest, t[id := e])
      case Failed => Failed
      case Aborted => Aborted
  }

  /** Both indices are read unchecked; a short read makes the address parse fail. */
  function ParseDeref(v: Value, n: UInt64, id: UInt64, body: seq<Byte>, table: ReadTable): (r: ParseResult)
    ensures r.Parsed? ==> |r.rest| < |body| && r.expr.id in r.table && r.table[r.expr.id] == r.expr
    decreases |body|, 0
  {
    if |body| < 16 then Failed
    else
      match Parse(body[16..], table)
      case Parsed(a, rest, t) =>
        var e := Deref(v, n, id, ReadU64(body[..8]), ReadU64(body[8..16]), a);
        Parsed(e, rest, t[id := e])
      case Failed => Failed
      case Aborted => Aborted
  }

  /** The read table after parsing `e`: every node, operands first, under its id. */
  function Record(e: Expr, table: ReadTable): (t: ReadTable)
    ensures e.id in t && t[e.id] == e
  {
    match e
    case Compare(_, _, id, _, l, r) => Record(r, Record(l, table))[id := e]
    case Binary(_, _, id, _, l, r) => Record(r, Record(l, table))[id := e]
    case Unary(_, _, id, _, c) => Record(c, table)[id := e]
    case Deref(_, _, id, _, _, a) => Record(a, table)[id := e]
    case _ => table[e.id := e]
  }

  /**
   * Parsing what the recording library wrote gives back the same tree, ids
   * included, stops right after it, and records every node.
   */
  lemma {:induction false} ParseSerialize(e: Expr, rest: seq<Byte>, table: ReadTable)
    ensures Parse(Serialize(e) + rest, table) == Parsed(e, rest, Record(e, table))
  {
    if e.Compare? || e.Binary? {
      ParseSerialize(e.left, Serialize(e.right) + rest, table);
      ParseSerialize(e.right, rest, Record(e.left, table));
      ParseSerializePair(e, rest, table);
    } else if e.Unary? {
      ParseSerialize(e.child, rest, table);
      ParseSerializeUnary(e, rest, table);
    } else if e.Deref? {
      ParseSerialize(e.addr, rest, table);
      ParseSerializeDeref(e, rest, table);
    } else {
      ParseSerializeLeaf(e, rest, table);
    }
  }

  lemma ParseSerializeLeaf(e: Expr, rest: seq<Byte>, table: ReadTable)
    requires e.Atomic? || e.Const?
    ensures Parse(Serialize(e) + rest, table) == Parsed(e, rest, Record(e, table))
  {
    if e.Atomic? {
      ParseSerializeAtomic(e, rest, table);
    } else {
      ReadHeaderOf(e, rest);
    }
  }

  lemma ParseSerializeAtomic(e: Expr, rest: seq<Byte>, table: ReadTable)
    requires e.Atomic?
    ensures Parse(Serialize(e) + rest, table) == Parsed(e, rest, Record(e, table))
  {
    var u := U32Bytes(e.inputVar);
    Assoc3(HeaderBytes(e), u, rest);
    ReadHeaderOf(e, u + rest);
    Slice2(u, rest);
    FieldRoundTrips(0, 0, e.inputVar, 0);
  }

  lemma Assoc3(h: seq<Byte>, p: seq<Byte>, rest: seq<Byte>)
    ensures h + p + rest == h + (p + rest)
  {
  }

  lemma ParseSerializePair(e: Expr, rest: seq<Byte>, table: ReadTable)
    requires e.Compare? || e.Binary?
    requires Parse(Serialize(e.left) + (Serialize(e.right) + rest), table)
          == Parsed(e.left, Serialize(e.right) + rest, Record(e.left, table))
    requires Parse(Serialize(e.right) + rest, Record(e.left, table))
          == Parsed(e.right, rest, Record(e.right, Record(e.left, table)))
    ensures Parse(Serialize(e) + rest, table) == Parsed(e, rest, Record(e, table))
  {
    var op := if e.Compare? then e.cmp else e.bin;
    var s := Serialize(e.left) + (Serialize(e.right) + rest);
    PairDispatch(e, op, rest, table);
    ParsePairBody(e.value, e.size, e.id, Tag(e), op, s, table);
    RecordStep(e, table);
  }

  /** A written comparison or binary node is read by `ParsePair`, from its operator byte on. */
  lemma PairDispatch(e: Expr, op: Byte, rest: seq<Byte>, table: ReadTable)
    requires e.Compare? || e.Binary?
    requires op == if e.Compare? then e.cmp else e.bin
    ensures Parse(Serialize(e) + rest, table)
         == ParsePair(e.value, e.size, e.id, Tag(e), [op] + (Serialize(e.left) + (Serialize(e.right) + rest)), table)
  {
    var body := [op] + (Serialize(e.left) + (Serialize(e.right) + rest));
    PairLayout(e, op, rest);
    ReadHeaderOf(e, body);
    ParseDispatch(Serialize(e) + rest, table);
  }

  /** The operator byte, then the left operand, then the right one parsed from what follows it. */
  lemma ParsePairBody(v: Value, n: UInt64, id: UInt64, tag: Byte, op: Byte, s: seq<Byte>, table: ReadTable)
    requires tag == kCompareNodeTag || tag == kBinaryNodeTag
    requires Parse(s, table).Parsed? && Parse(Parse(s, table).rest, Parse(s, table).table).Parsed?
    ensures var a := Parse(s, table); var b := Parse(a.rest, a.table);
      var e := if tag == kCompareNodeTag then Compare(v, n, id, op, a.expr, b.expr) else Binary(v, n, id, op, a.expr, b.expr);
      ParsePair(v, n, id, tag, [op] + s, table) == Parsed(e, b.rest, b.table[id := e])
  {
    Slice2([op], s);
  }

  lemma PairLayout(e: Expr, op: Byte, rest: seq<Byte>)
    requires e.Compare? || e.Binary?
    requires op == if e.Compare? then e.cmp else e.bin
    ensures var body := [op] + (Serialize(e.left) + (Serialize(e.right) + rest));
      Serialize(e) + rest == HeaderBytes(e) + body && body[0] == op &&
      body[1..] == Serialize(e.left) + (Serialize(e.right) + rest)
  {
    Regroup(HeaderBytes(e), [op], Serialize(e.left), Serialize(e.right), rest);
  }

  /** Re-associating a concatenation of five pieces. */
  lemma Regroup(h: seq<Byte>, p: seq<Byte>, a: seq<Byte>, b: seq<Byte>, rest: seq<Byte>)
    ensures h + p + a + b + rest == h + (p + (a + (b + rest)))
    ensures b == [] ==> h + p + a + rest == h + (p + (a + rest))
    ensures |p| == 1 ==> (p + (a + (b + rest)))[1..] == a + (b + rest)
  {
    if |p| == 1 {
      assert (p + (a + (b + rest)))[1..] == a + (b + rest);
    }
  }

  lemma ParseSerializeUnary(e: Expr, rest: seq<Byte>, table: ReadTable)
    requires e.Unary?
    requires Parse(Serialize(e.child) + rest, table) == Parsed(e.child, rest, Record(e.child, table))
    ensures Parse(Serialize(e) + rest, table) == Parsed(e, rest, Record(e, table))
  {
    var body := [e.un] + (Serialize(e.child) + rest);
    Regroup(HeaderBytes(e), [e.un], Serialize(e.child), [], rest);
    ReadHeaderOf(e, body);
    ParseDispatch(Serialize(e) + rest, table);
    Slice2([e.un], Serialize(e.child) + rest);
    RecordStep(e, table);
  }

  lemma ParseSerializeDeref(e: Expr, rest: seq<Byte>, table: ReadTable)
    requires e.Deref?
    requires Parse(Serialize(e.addr) + rest, table) == Parsed(e.addr, rest, Record(e.addr, table))
    ensures Parse(Serialize(e) + rest, table) == Parsed(e, rest, Record(e, table))
  {
    var body := U64Bytes(e.managerIdx) + (U64Bytes(e.snapshotIdx) + (Serialize(e.addr) + rest));
    DerefLayout(e, rest);
    ReadHeaderOf(e, body);
    ParseDispatch(Serialize(e) + rest, table);
    ParseDerefBody(e.value, e.size, e.id, e.managerIdx, e.snapshotIdx, Serialize(e.addr) + rest, table);
    RecordStep(e, table);
  }

  /** Which helper `Parse` hands an inner node's body to. */
  lemma ParseDispatch(s: seq<Byte>, table: ReadTable)
    requires ReadHeader(s).Header?
    ensures var h := ReadHeader(s);
      (h.tag == kUnaryNodeTag ==> Parse(s, table) == ParseUnary(h.value, h.size, h.id, h.body, table)) &&
      (h.tag == kDerefNodeTag ==> Parse(s, table) == ParseDeref(h.value, h.size, h.id, h.body, table)) &&
      (h.tag == kCompareNodeTag || h.tag == kBinaryNodeTag ==>
         Parse(s, table) == ParsePair(h.value, h.size, h.id, h.tag, h.body, table))
  {
  }

  /** Recording an inner node records its operands first, then the node itself. */
  lemma RecordStep(e: Expr, table: ReadTable)
    ensures e.Unary? ==> Record(e, table) == Record(e.child, table)[e.id := e]
    ensures e.Deref? ==> Record(e, table) == Record(e.addr, table)[e.id := e]
    ensures e.Compare? || e.Binary? ==> Record(e, table) == Record(e.right, Record(e.left, table))[e.id := e]
  {
  }

  lemma DerefLayout(e: Expr, rest: seq<Byte>)
    requires e.Deref?
    ensures Serialize(e) + rest
         == HeaderBytes(e) + (U64Bytes(e.managerIdx) + (U64Bytes(e.snapshotIdx) + (Serialize(e.addr) + rest)))
  {
    Regroup(HeaderBytes(e), U64Bytes(e.managerIdx), U64Bytes(e.snapshotIdx), Serialize(e.addr), rest);
  }

  /** The two indices read back, then the address is parsed from what follows them. */
  lemma ParseDerefBody(v: Value, n: UInt64, id: UInt64, m: UInt64, sn: UInt64, s: seq<Byte>, table: ReadTable)
    requires Parse(s, table).Parsed?
    ensures var r := Parse(s, table); var e := Deref(v, n, id, m, sn, r.expr);
      ParseDeref(v, n, id, U64Bytes(m) + (U64Bytes(sn) + s), table) == Parsed(e, r.rest, r.table[id := e])
  {
    var body := U64Bytes(m) + (U64Bytes(sn) + s);
    Slice2(U64Bytes(m), U64Bytes(sn) + s);
    Slice2(U64Bytes(sn), s);
    assert body[8..16] == U64Bytes(sn) && body[16..] == s;
    FieldRoundTrips(m, 0, 0, 0);
    FieldRoundTrips(sn, 0, 0, 0);
  }

  lemma Slice2(a: seq<Byte>, b: seq<Byte>)
    ensures (a + b)[..|a|] == a && (a + b)[|a|..] == b
  {
  }

  /** The format is self-delimiting: two trees written one after the other read back in order. */
  lemma ParseSequence(e1: Expr, e2: Expr, rest: seq<Byte>, table: ReadTable)
    ensures var r1 := Parse(Serialize(e1) + Serialize(e2) + rest, table);
      r1 == Parsed(e1, Serialize(e2) + rest, Record(e1, table)) &&
      Parse(r1.rest, r1.table) == Parsed(e2, rest, Record(e2, Record(e1, table)))
  {
    assert Serialize(e1) + Serialize(e2) + rest == Serialize(e1) + (Serialize(e2) + rest);
    ParseSerialize(e1, Serialize(e2) + rest, table);
    ParseSerialize(e2, rest, Record(e1, table));
  }
}
