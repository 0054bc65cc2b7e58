/**
 * `SymbolicPath`: the search's copy of a recorded path, read back from the
 * bytes `SymbolicPathWriter::Serialize` wrote. It keeps the same four
 * vectors as the recorder.
 */
module SymbolicPath {
  import opened Wrappers
  import opened BasicTypes
  import opened Bytes
  import opened Exprs
  import ExprCodec
  import opened PathWriter

  /** How `Parse` ends. */
  datatype PathParse =
    /** `Parse` returned true: the path and the bytes after it. */
    | PathOk(path: Path, rest: seq<Byte>)
    /** `Parse` returned false. */
    | PathFail
    /** An expression with an unknown tag fired the `assert(0)` of the expression parser. */
    | PathAbort
    /** A file name of 256 bytes or more overran the fixed name buffer. */
    | NameOverflow

  // ------------------------------------------------------------ fixed arrays

  /** The `n` branch ids at the head of `s`, each an `int`. */
  function ReadBranches(s: seq<Byte>, n: nat): (b: seq<BranchId>)
    requires 4 * n <= |s|
    ensures |b| == n
  {
    if n == 0 then [] else [ReadI32(s[..4])] + ReadBranches(s[4..], n - 1)
  }

  /** The `n` constraint indices at the head of `s`, each a `size_t`. */
  function ReadIndices(s: seq<Byte>, n: nat): (idx: seq<nat>)
    requires 8 * n <= |s|
    ensures |idx| == n
  {
    if n == 0 then [] else [ReadU64(s[..8])] + ReadIndices(s[8..], n - 1)
  }

  lemma Below64(n: nat)
    requires n < TWO_64
    ensures n % TWO_64 == n
  {
  }

  lemma Split(a: seq<Byte>, b: seq<Byte>)
    ensures (a + b)[..|a|] == a && (a + b)[|a|..] == b
  {
  }

  lemma BranchesStep(b: seq<BranchId>, i: nat, rest: seq<Byte>)
    requires i < |b|
    ensures BranchesFrom(b, i) + rest == I32Bytes(b[i]) + (BranchesFrom(b, i + 1) + rest)
  {
  }

  lemma IndicesStep(idx: seq<nat>, i: nat, rest: seq<Byte>)
    requires i < |idx|
    ensures IndicesFrom(idx, i) + rest == U64Bytes(idx[i] % TWO_64) + (IndicesFrom(idx, i + 1) + rest)
  {
  }

  /** Reading the branch array the recorder wrote, from position `i` on, gives back its ids. */
  lemma {:induction false} ReadBranchesWritten(b: seq<BranchId>, i: nat, rest: seq<Byte>)
    requires i <= |b|
    ensures |BranchesFrom(b, i) + rest| >= 4 * (|b| - i)
    ensures ReadBranches(BranchesFrom(b, i) + rest, |b| - i) == b[i..]
    decreases |b| - i
  {
    if i < |b| {
      var tail := BranchesFrom(b, i + 1) + rest;
      BranchesStep(b, i, rest);
      Split(I32Bytes(b[i]), tail);
      FieldRoundTrips(0, 0, 0, b[i]);
      ReadBranchesWritten(b, i + 1, rest);
      assert b[i..] == [b[i]] + b[i + 1..];
    }
  }

  lemma IndexHead(idx: seq<nat>, i: nat, rest: seq<Byte>)
    requires i < |idx| && idx[i] < TWO_64
    ensures var s := IndicesFrom(idx, i) + rest;
      |s| >= 8 && ReadU64(s[..8]) == idx[i] && s[8..] == IndicesFrom(idx, i + 1) + rest
  {
    var tail := IndicesFrom(idx, i + 1) + rest;
    Below64(idx[i]);
    IndicesStep(idx, i, rest);
    Split(U64Bytes(idx[i]), tail);
    FieldRoundTrips(idx[i], 0, 0, 0);
  }

  /** Reading the index array the recorder wrote, from position `i` on, gives back indices below 2^64. */
  lemma {:induction false} ReadIndicesWritten(idx: seq<nat>, i: nat, rest: seq<Byte>)
    requires i <= |idx| && forall k | 0 <= k < |idx| :: idx[k] < TWO_64
    ensures |IndicesFrom(idx, i) + rest| >= 8 * (|idx| - i)
    ensures ReadIndices(IndicesFrom(idx, i) + rest, |idx| - i) == idx[i..]
    decreases |idx| - i
  {
    if i < |idx| {
      IndexHead(idx, i, rest);
      ReadIndicesWritten(idx, i + 1, rest);
      assert idx[i..] == [idx[i]] + idx[i + 1..];
    }
  }

  // ---------------------------------------------------------- constraints

  /** `std::string(tmp_str)`: a C string ends at its first NUL byte. */
  function UpToNul(s: seq<Byte>): (r: seq<Byte>)
    ensures r <= s && CString(r)
    ensures CString(s) ==> r == s
  {
    if s == [] || s[0] == 0 then [] else [s[0]] + UpToNul(s[1..])
  }

  /** How reading one constraint record ends. */
  datatype EntryParse =
    | EntryOk(e: Expr, loc: Loc, rest: seq<Byte>, table: ExprCodec.ReadTable)
    | EntryFail
    | EntryAbort
    | EntryOverflow

  /**
   * One constraint record: the line, the name length, the name, the
   * expression. With `buffered`, the name goes through the 256-byte buffer
   * of the loop at symbolic_path.cc: a longer name overruns it, and the
   * string made from it stops at the first NUL. Without, the name is the
   * bytes read. A short read fails; the expression fails or aborts as its
   * parser does.
   */
  function ParseEntry(s: seq<Byte>, table: ExprCodec.ReadTable, buffered: bool): (r: EntryParse)
    ensures r.EntryOk? ==> |r.rest| < |s|
    ensures r.EntryOverflow? ==> buffered
  {
    if |s| < 12 then EntryFail
    else
      var t1 := s[4..];
      var len := ReadU64(t1[..8]);
      var t2 := t1[8..];
      if buffered && len >= 256 then EntryOverflow
      else if |t2| < len then EntryFail
      else
        var name := t2[..len];
        var loc := Loc(if buffered then UpToNul(name) else name, ReadI32(s[..4]));
        match ExprCodec.Parse(t2[len..], table)
        case Parsed(e, rest, t) => EntryOk(e, loc, rest, t)
        case Failed => EntryFail
        case Aborted => EntryAbort
  }

  /** `n` more records after those already read into `cs` and `locs`; the first that does not parse ends the loop. */
  function ParseEntries(n: nat, s: seq<Byte>, table: ExprCodec.ReadTable, cs: seq<Expr>, locs: seq<Loc>, buffered: bool): (r: PathParse)
    requires |cs| == |locs|
    ensures r.PathOk? ==> |r.path.constraints| == |r.path.locations| == |cs| + n && r.path.branches == [] && r.path.idx == []
    ensures r.NameOverflow? ==> buffered
    decreases n
  {
    if n == 0 then PathOk(Path([], [], cs, locs), s)
    else
      match ParseEntry(s, table, buffered)
      case EntryOk(e, loc, rest, t) => ParseEntries(n - 1, rest, t, cs + [e], locs + [loc], buffered)
      case EntryFail => PathFail
      case EntryAbort => PathAbort
      case EntryOverflow => NameOverflow
  }

  // ----------------------------------------------------------------- Parse

  /**
   * The whole of `Parse`: the read table is cleared, then come the branch
   * count and ids, the constraint count and indices, and the records. A
   * read that runs short fails.
   */
  function ParseWith(s: seq<Byte>, buffered: bool): (r: PathParse)
    ensures |s| < 8 ==> r.PathFail?
    ensures r.PathOk? ==>
      |s| >= 8 && |r.path.branches| == ReadU64(s[..8]) &&
      |r.path.idx| == |r.path.constraints| == |r.path.locations|
    ensures r.NameOverflow? ==> buffered
  {
    if |s| < 8 then PathFail
    else
      var len := ReadU64(s[..8]);
      var s1 := s[8..];
      if |s1| < 4 * len then PathFail
      else
        var branches := ReadBranches(s1, len);
        var s2 := s1[4 * len..];
        if |s2| < 8 then PathFail
        else
          var count := ReadU64(s2[..8]);
          var s3 := s2[8..];
          if |s3| < 8 * count then PathFail
          else
            WithArrays(branches, ReadIndices(s3, count), ParseEntries(count, s3[8 * count..], map[], [], [], buffered))
  }

  /** `Parse` as written: file names go through the 256-byte buffer. */
  function ParsePathAsWritten(s: seq<Byte>): (r: PathParse)
    ensures |s| < 8 ==> r.PathFail?
  {
    ParseWith(s, true)
  }

  /** `Parse` with each file name read at the length written, which never overruns. */
  function ParsePath(s: seq<Byte>): (r: PathParse)
    ensures !r.NameOverflow?
    ensures |s| < 8 ==> r.PathFail?
    ensures r.PathOk? ==> |r.path.idx| == |r.path.constraints| == |r.path.locations|
  {
    ParseWith(s, false)
  }

  // ----------------------------------------------------------- round trip

  /** What the recorder can write and be read back: counts, indices and name lengths fit a `size_t`. */
  predicate Fits(p: Path) {
    Valid(p) && |p.branches| < TWO_64 && |p.constraints| < TWO_64 &&
    forall k | 0 <= k < |p.locations| :: |p.locations[k].fname| < TWO_64
  }

  /** Short names that are C strings: what the fixed buffer can take. */
  predicate ShortNames(locs: seq<Loc>) {
    forall k | 0 <= k < |locs| :: |locs[k].fname| < 256 && CString(locs[k].fname)
  }

  /** The head of a record the recorder wrote: its line, its name length, then the name and the expression. */
  lemma EntryHeader(e: Expr, l: Loc, rest: seq<Byte>)
    requires |l.fname| < TWO_64
    ensures var s := ConstraintBytes(e, l) + rest;
      |s| >= 12 && ReadI32(s[..4]) == l.lineno && ReadU64(s[4..][..8]) == |l.fname| &&
      s[4..][8..] == l.fname + (ExprCodec.Serialize(e) + rest)
  {
    var n := |l.fname|;
    var t2 := l.fname + (ExprCodec.Serialize(e) + rest);
    var t1 := U64Bytes(n) + t2;
    Below64(n);
    ConstraintBytesSplit(e, l, rest);
    Split(I32Bytes(l.lineno), t1);
    Split(U64Bytes(n), t2);
    FieldRoundTrips(n, 0, 0, l.lineno);
  }

  /** One record the recorder wrote reads back as written (through the buffer, when its name is a short C string). */
  lemma ParseEntryWritten(e: Expr, l: Loc, rest: seq<Byte>, table: ExprCodec.ReadTable, buffered: bool)
    requires |l.fname| < TWO_64
    requires buffered ==> |l.fname| < 256 && CString(l.fname)
    ensures ParseEntry(ConstraintBytes(e, l) + rest, table, buffered) ==
      EntryOk(e, l, rest, ExprCodec.Record(e, table))
  {
    var s := ConstraintBytes(e, l) + rest;
    var t3 := ExprCodec.Serialize(e) + rest;
    var t2 := s[4..][8..];
    EntryHeader(e, l, rest);
    Split(l.fname, t3);
    assert t2[..|l.fname|] == l.fname && t2[|l.fname|..] == t3;
    ExprCodec.ParseSerialize(e, rest, table);
    assert (if buffered then UpToNul(l.fname) else l.fname) == l.fname;
  }

  lemma ConstraintBytesSplit(e: Expr, l: Loc, rest: seq<Byte>)
    ensures ConstraintBytes(e, l) + rest ==
      I32Bytes(l.lineno) + (U64Bytes(|l.fname| % TWO_64) + (l.fname + (ExprCodec.Serialize(e) + rest)))
  {
  }

  /** The records from `i` on read back after those already read. */
  lemma ParseEntriesWritten(cs: seq<Expr>, locs: seq<Loc>, i: nat, rest: seq<Byte>,
                             table: ExprCodec.ReadTable, buffered: bool)
    requires i <= |cs| == |locs|
    requires forall k | 0 <= k < |locs| :: |locs[k].fname| < TWO_64
    requires buffered ==> ShortNames(locs)
    ensures ParseEntries(|cs| - i, ConstraintsFrom(cs, locs, i) + rest, table, cs[..i], locs[..i], buffered) ==
      PathOk(Path([], [], cs, locs), rest)
  {
    var ss, ts := WrittenStreams(cs, locs, i, rest, table, buffered);
    EntriesChain(ss, ts, cs, locs, i, buffered);
  }

  /** The stream and the symbol table before each written record, each record parsing into the next. */
  lemma WrittenStreams(cs: seq<Expr>, locs: seq<Loc>, i: nat, rest: seq<Byte>, table: ExprCodec.ReadTable, buffered: bool)
    returns (ss: seq<seq<Byte>>, ts: seq<ExprCodec.ReadTable>)
    requires i <= |cs| == |locs|
    requires forall k | 0 <= k < |locs| :: |locs[k].fname| < TWO_64
    requires buffered ==> ShortNames(locs)
    ensures |ss| == |ts| == |cs| + 1
    ensures ss[i] == ConstraintsFrom(cs, locs, i) + rest && ss[|cs|] == rest && ts[i] == table
    ensures forall k | i <= k < |cs| :: ParseEntry(ss[k], ts[k], buffered) == EntryOk(cs[k], locs[k], ss[k + 1], ts[k + 1])
  {
    ss := WrittenTails(cs, locs, rest);
    ts := TablesFrom(cs, i, table);
    forall k | i <= k < |cs|
      ensures ParseEntry(ss[k], ts[k], buffered) == EntryOk(cs[k], locs[k], ss[k + 1], ts[k + 1])
    {
      var fname := locs[k].fname;
      assert |fname| < TWO_64 && (buffered ==> |fname| < 256 && CString(fname));
      WrittenStreamStep(cs, locs, k, rest, ss[k], ss[k + 1], ts[k], ts[k + 1], buffered);
    }
  }

  /** The written records from each position on, followed by `rest`. */
  function WrittenTails(cs: seq<Expr>, locs: seq<Loc>, rest: seq<Byte>): (ss: seq<seq<Byte>>)
    requires |cs| <= |locs|
    ensures |ss| == |cs| + 1 && ss[|cs|] == rest
    ensures forall k | 0 <= k <= |cs| :: ss[k] == ConstraintsFrom(cs, locs, k) + rest
  {
    seq(|cs| + 1, k requires 0 <= k <= |cs| => ConstraintsFrom(cs, locs, k) + rest)
  }

  lemma WrittenStreamStep(cs: seq<Expr>, locs: seq<Loc>, k: nat, rest: seq<Byte>, s0: seq<Byte>, s1: seq<Byte>,
                          t0: ExprCodec.ReadTable, t1: ExprCodec.ReadTable, buffered: bool)
    requires k < |cs| == |locs|
    requires s0 == ConstraintsFrom(cs, locs, k) + rest && s1 == ConstraintsFrom(cs, locs, k + 1) + rest
    requires t1 == ExprCodec.Record(cs[k], t0)
    requires |locs[k].fname| < TWO_64
    requires buffered ==> |locs[k].fname| < 256 && CString(locs[k].fname)
    ensures ParseEntry(s0, t0, buffered) == EntryOk(cs[k], locs[k], s1, t1)
  {
    ConstraintsStep(cs, locs, k, rest);
    ParseEntryWritten(cs[k], locs[k], s1, t0, buffered);
  }

  /** The symbol tables the reader holds before each record, from `table` at record `i` on. */
  function TablesFrom(cs: seq<Expr>, i: nat, table: ExprCodec.ReadTable): (ts: seq<ExprCodec.ReadTable>)
    requires i <= |cs|
    ensures |ts| == |cs| + 1 && ts[i] == table
    ensures forall k | i <= k < |cs| :: ts[k + 1] == ExprCodec.Record(cs[k], ts[k])
    decreases |cs| - i
  {
    if i == |cs| then seq(|cs| + 1, _ => table)
    else TablesFrom(cs, i + 1, ExprCodec.Record(cs[i], table))[i := table]
  }

  /**
   * Records that each parse into the next stream and table, read from
   * record `i` on, give the whole list and the stream after the last one.
   */
  lemma {:induction false} EntriesChain(ss: seq<seq<Byte>>, ts: seq<ExprCodec.ReadTable>, cs: seq<Expr>, locs: seq<Loc>,
                                        i: nat, buffered: bool)
    requires |cs| == |locs| && |ss| == |ts| == |cs| + 1 && i <= |cs|
    requires forall k | i <= k < |cs| :: ParseEntry(ss[k], ts[k], buffered) == EntryOk(cs[k], locs[k], ss[k + 1], ts[k + 1])
    ensures ParseEntries(|cs| - i, ss[i], ts[i], cs[..i], locs[..i], buffered) == PathOk(Path([], [], cs, locs), ss[|cs|])
    decreases |cs| - i
  {
    if i == |cs| {
      assert cs[..i] == cs && locs[..i] == locs;
    } else {
      var n := |cs| - i;
      EntriesChain(ss, ts, cs, locs, i + 1, buffered);
      assert ParseEntry(ss[i], ts[i], buffered) == EntryOk(cs[i], locs[i], ss[i + 1], ts[i + 1]);
      ParseEntriesStep(n, ss[i], ts[i], cs[..i], locs[..i], buffered, cs[i], locs[i], ss[i + 1], ts[i + 1]);
      Snoc(cs, i);
      Snoc(locs, i);
      var a, b := cs[..i] + [cs[i]], locs[..i] + [locs[i]];
      assert ParseEntries(n - 1, ss[i + 1], ts[i + 1], a, b, buffered)
          == ParseEntries(n - 1, ss[i + 1], ts[i + 1], cs[..i + 1], b, buffered);
      assert ParseEntries(n - 1, ss[i + 1], ts[i + 1], cs[..i + 1], b, buffered)
          == ParseEntries(n - 1, ss[i + 1], ts[i + 1], cs[..i + 1], locs[..i + 1], buffered);
    }
  }

  lemma Snoc<T>(s: seq<T>, i: nat)
    requires i < |s|
    ensures s[..i] + [s[i]] == s[..i + 1]
  {
  }

  lemma ConstraintsStep(cs: seq<Expr>, locs: seq<Loc>, i: nat, rest: seq<Byte>)
    requires i < |cs| <= |locs|
    ensures ConstraintsFrom(cs, locs, i) + rest == ConstraintBytes(cs[i], locs[i]) + (ConstraintsFrom(cs, locs, i + 1) + rest)
  {
  }

  /** A record that parses is added to those read, and the loop goes on after it. */
  lemma ParseEntriesStep(n: nat, s: seq<Byte>, table: ExprCodec.ReadTable, cs: seq<Expr>, locs: seq<Loc>, buffered: bool,
                         e: Expr, loc: Loc, rest: seq<Byte>, t: ExprCodec.ReadTable)
    requires n > 0 && |cs| == |locs| && ParseEntry(s, table, buffered) == EntryOk(e, loc, rest, t)
    ensures ParseEntries(n, s, table, cs, locs, buffered) == ParseEntries(n - 1, rest, t, cs + [e], locs + [loc], buffered)
  {
  }

  /** The loop's step: once one more record is read, the rest of the loop still ends as the whole loop does. */
  lemma ParseEntriesNext(n: nat, s: seq<Byte>, table: ExprCodec.ReadTable, cs: seq<Expr>, locs: seq<Loc>, e: EntryParse, goal: PathParse,
                         n': nat, s': seq<Byte>, table': ExprCodec.ReadTable, cs': seq<Expr>, locs': seq<Loc>)
    requires n > 0 && |cs| == |locs| && e == ParseEntry(s, table, false) && e.EntryOk?
    requires ParseEntries(n, s, table, cs, locs, false) == goal
    requires n' == n - 1 && s' == e.rest && table' == e.table && cs' == cs + [e.e] && locs' == locs + [e.loc]
    ensures |cs'| == |locs'| && ParseEntries(n', s', table', cs', locs', false) == goal
  {
    ParseEntriesUnfold(n, s, table, cs, locs, e);
    assert ParseEntries(n', s', table', cs', locs', false) == ParseEntries(n - 1, s', table', cs', locs', false);
    assert ParseEntries(n - 1, s', table', cs', locs', false) == ParseEntries(n - 1, e.rest, table', cs', locs', false);
    assert ParseEntries(n - 1, e.rest, table', cs', locs', false) == ParseEntries(n - 1, e.rest, e.table, cs', locs', false);
    assert ParseEntries(n - 1, e.rest, e.table, cs', locs', false) == ParseEntries(n - 1, e.rest, e.table, cs + [e.e], locs', false);
    assert ParseEntries(n - 1, e.rest, e.table, cs + [e.e], locs', false) == ParseEntries(n - 1, e.rest, e.table, cs + [e.e], locs + [e.loc], false);
  }

  lemma ParseEntriesUnfold(n: nat, s: seq<Byte>, table: ExprCodec.ReadTable, cs: seq<Expr>, locs: seq<Loc>, e: EntryParse)
    requires n > 0 && |cs| == |locs| && e == ParseEntry(s, table, false) && e.EntryOk?
    ensures ParseEntries(n, s, table, cs, locs, false) == ParseEntries(n - 1, e.rest, e.table, cs + [e.e], locs + [e.loc], false)
  {
  }

  /** What the two counts and arrays leave to the records. */
  function WithArrays(b: seq<BranchId>, idx: seq<nat>, r: PathParse): (res: PathParse)
    ensures res.PathOk? <==> r.PathOk?
    ensures r.PathOk? ==>
      res.path.branches == b && res.path.idx == idx &&
      res.path.constraints == r.path.constraints && res.path.locations == r.path.locations
    ensures !r.PathOk? ==> res == r
  {
    match r
    case PathOk(q, rest) => PathOk(Path(b, idx, q.constraints, q.locations), rest)
    case other => other
  }

  lemma Assoc5(a: seq<Byte>, b: seq<Byte>, c: seq<Byte>, d: seq<Byte>, e: seq<Byte>, r: seq<Byte>)
    ensures (a + (b + (c + (d + e)))) + r == a + (b + (c + (d + (e + r))))
  {
  }

  /**
   * A stream that starts with two counts and the arrays they announce: the
   * parse reads the arrays back and goes on with the records after them.
   */
  lemma ParseWithLayout(b: seq<BranchId>, idx: seq<nat>, c: seq<Byte>, buffered: bool)
    requires |b| < TWO_64 && |idx| < TWO_64 && forall k | 0 <= k < |idx| :: idx[k] < TWO_64
    ensures ParseWith(U64Bytes(|b|) + (BranchesFrom(b, 0) + (U64Bytes(|idx|) + (IndicesFrom(idx, 0) + c))), buffered) ==
      WithArrays(b, idx, ParseEntries(|idx|, c, map[], [], [], buffered))
  {
    var t3 := IndicesFrom(idx, 0) + c;
    var t2 := U64Bytes(|idx|) + t3;
    var t1 := BranchesFrom(b, 0) + t2;
    U64Head(|b|, t1);
    BranchesPrefix(b, t2);
    U64Head(|idx|, t3);
    IndicesPrefix(idx, c);
  }

  /** A `size_t` written ahead of `t` reads back, leaving `t`. */
  lemma U64Head(n: nat, t: seq<Byte>)
    requires n < TWO_64
    ensures |U64Bytes(n) + t| >= 8 && ReadU64((U64Bytes(n) + t)[..8]) == n && (U64Bytes(n) + t)[8..] == t
  {
    Split(U64Bytes(n), t);
    FieldRoundTrips(n, 0, 0, 0);
  }

  lemma BranchesPrefix(b: seq<BranchId>, t: seq<Byte>)
    ensures |BranchesFrom(b, 0) + t| >= 4 * |b|
    ensures ReadBranches(BranchesFrom(b, 0) + t, |b|) == b && (BranchesFrom(b, 0) + t)[4 * |b|..] == t
  {
    Split(BranchesFrom(b, 0), t);
    ReadBranchesWritten(b, 0, t);
  }

  lemma IndicesPrefix(idx: seq<nat>, t: seq<Byte>)
    requires forall k | 0 <= k < |idx| :: idx[k] < TWO_64
    ensures |IndicesFrom(idx, 0) + t| >= 8 * |idx|
    ensures ReadIndices(IndicesFrom(idx, 0) + t, |idx|) == idx && (IndicesFrom(idx, 0) + t)[8 * |idx|..] == t
  {
    Split(IndicesFrom(idx, 0), t);
    ReadIndicesWritten(idx, 0, t);
  }


  /**
   * Reading back what the recorder wrote gives the same path: branches,
   * indices, constraints and locations, and stops right after it.
   */
  lemma ParseWithWritten(p: Path, rest: seq<Byte>, buffered: bool)
    requires Fits(p)
    requires buffered ==> ShortNames(p.locations)
    ensures Writable(p) && ParseWith(PathBytes(p) + rest, buffered) == PathOk(p, rest)
  {
    var c := PathBytesLayout(p, rest);
    ParseWithLayout(p.branches, p.idx, c + rest, buffered);
    var r := EntriesWritten(p, rest, buffered);
    assert r == ParseEntries(|p.idx|, c + rest, map[], [], [], buffered);
    assert WithArrays(p.branches, p.idx, r) == PathOk(p, rest);
  }

  /** The records of a written path, read after its arrays, give its constraints and locations. */
  lemma EntriesWritten(p: Path, rest: seq<Byte>, buffered: bool) returns (r: PathParse)
    requires Fits(p)
    requires buffered ==> ShortNames(p.locations)
    ensures r == ParseEntries(|p.idx|, ConstraintsFrom(p.constraints, p.locations, 0) + rest, map[], [], [], buffered)
    ensures r == PathOk(Path([], [], p.constraints, p.locations), rest)
  {
    ParseEntriesWritten(p.constraints, p.locations, 0, rest, map[], buffered);
    var cs: seq<Expr> := p.constraints[..0];
    var ls: seq<Loc> := p.locations[..0];
    assert cs == [] && ls == [];
    r := ParseEntries(|p.constraints| - 0, ConstraintsFrom(p.constraints, p.locations, 0) + rest, map[], cs, ls, buffered);
  }

  /** The written path, with its counts and the records' bytes spelled out. */
  lemma PathBytesLayout(p: Path, rest: seq<Byte>) returns (c: seq<Byte>)
    requires Fits(p)
    ensures Writable(p) && c == ConstraintsFrom(p.constraints, p.locations, 0)
    ensures |p.branches| < TWO_64 && |p.idx| < TWO_64 && forall k | 0 <= k < |p.idx| :: p.idx[k] < TWO_64
    ensures PathBytes(p) + rest ==
      U64Bytes(|p.branches|) + (BranchesFrom(p.branches, 0) + (U64Bytes(|p.idx|) + (IndicesFrom(p.idx, 0) + (c + rest))))
  {
    ValidWritable(p);
    var nb := |p.branches|;
    var nc := |p.constraints|;
    c := ConstraintsFrom(p.constraints, p.locations, 0);
    Below64(nb);
    Below64(nc);
    Assoc5(U64Bytes(nb), BranchesFrom(p.branches, 0), U64Bytes(nc), IndicesFrom(p.idx, 0), c, rest);
    assert forall k | 0 <= k < |p.idx| :: p.idx[k] < TWO_64;
  }

  /** The search reads back every path the recorder writes. */
  lemma ParsePathWritten(p: Path, rest: seq<Byte>)
    requires Fits(p)
    ensures Writable(p) && ParsePath(PathBytes(p) + rest) == PathOk(p, rest)
  {
    ParseWithWritten(p, rest, false);
  }

  /** Through the fixed buffer, the same holds while every name is a C string shorter than 256 bytes. */
  lemma ParsePathAsWrittenShortNames(p: Path, rest: seq<Byte>)
    requires Fits(p) && ShortNames(p.locations)
    ensures Writable(p) && ParsePathAsWritten(PathBytes(p) + rest) == PathOk(p, rest)
  {
    ParseWithWritten(p, rest, true);
  }

  /** A record whose name has 256 bytes or more overruns the buffer. */
  lemma ParseEntryLong(e: Expr, l: Loc, rest: seq<Byte>, table: ExprCodec.ReadTable)
    requires 256 <= |l.fname| < TWO_64
    ensures ParseEntry(ConstraintBytes(e, l) + rest, table, true) == EntryOverflow
  {
    EntryHeader(e, l, rest);
  }

  /**
   * A path whose first constraint comes from a file with a name of 256 bytes
   * or more: the corrected parse reads it back, the parse as written
   * overruns the name buffer.
   */
  lemma LongNameOverflows(p: Path, rest: seq<Byte>)
    requires Fits(p) && |p.constraints| > 0 && |p.locations[0].fname| >= 256
    ensures Writable(p) && ParsePathAsWritten(PathBytes(p) + rest) == NameOverflow
    ensures ParsePath(PathBytes(p) + rest) == PathOk(p, rest)
  {
    ParsePathWritten(p, rest);
    LongNameAsWritten(p, rest);
  }

  lemma LongNameAsWritten(p: Path, rest: seq<Byte>)
    requires Fits(p) && |p.constraints| > 0 && |p.locations[0].fname| >= 256
    ensures Writable(p) && ParsePathAsWritten(PathBytes(p) + rest) == NameOverflow
  {
    var c := PathBytesLayout(p, rest);
    var nc := |p.constraints|;
    ParseWithLayout(p.branches, p.idx, c + rest, true);
    ConstraintsStep(p.constraints, p.locations, 0, rest);
    ParseEntryLong(p.constraints[0], p.locations[0], ConstraintsFrom(p.constraints, p.locations, 1) + rest, map[]);
    EntriesOverflow(nc, c + rest, map[], [], []);
  }

  /** A record that overruns the buffer ends the whole parse. */
  lemma EntriesOverflow(n: nat, s: seq<Byte>, table: ExprCodec.ReadTable, cs: seq<Expr>, locs: seq<Loc>)
    requires n > 0 && |cs| == |locs| && ParseEntry(s, table, true) == EntryOverflow
    ensures ParseEntries(n, s, table, cs, locs, true) == NameOverflow
  {
  }

  // ------------------------------------------------------ assignment, swap

  /**
   * `operator=`: branches, indices and a deep copy of the constraints are
   * taken from the source; the locations are not. Expressions are values
   * here, so the copy is the constraint list itself.
   */
  function AssignPath(self: Path, src: Path): (r: Path)
  {
    src.(locations := self.locations)
  }

  /**
   * Assigning a path to itself changes nothing; otherwise the result is valid
   * exactly when the two held the same number of constraints.
   */
  lemma AssignValid(self: Path, src: Path)
    requires Valid(self) && Valid(src)
    ensures AssignPath(self, self) == self
    ensures Valid(AssignPath(self, src)) <==> |self.constraints| == |src.constraints|
    ensures AssignPath(self, src).branches == src.branches && AssignPath(self, src).constraints == src.constraints
  {
  }

  /** The search's path. */
  class SymbolicPath {
    var branches: seq<BranchId>
    var constraintsIdx: seq<nat>
    var constraints: seq<Expr>
    var locations: seq<Loc>

    function State(): Path
      reads this
    {
      Path(branches, constraintsIdx, constraints, locations)
    }

    constructor ()
      ensures State() == EmptyPath
    {
      branches, constraintsIdx, constraints, locations := [], [], [], [];
    }

    /** `operator=(p)`; on `this` itself it returns at once. */
    method Assign(p: SymbolicPath)
      modifies this
      ensures State() == AssignPath(old(State()), old(p.State()))
    {
      if p == this {
        return;
      }
      branches := p.branches;
      constraintsIdx := p.constraintsIdx;
      var cs: seq<Expr> := [];
      for i := 0 to |p.constraints|
        invariant cs == p.constraints[..i]
      {
        cs := cs + [p.constraints[i]];
      }
      constraints := cs;
    }

    /** `Swap(sp)`: as the recorder's, the locations stay. */
    method Swap(sp: SymbolicPath)
      modifies this, sp
      ensures (State(), sp.State()) == SwapPaths(old(State()), old(sp.State()))
    {
      var b, i, c := branches, constraintsIdx, constraints;
      branches, constraintsIdx, constraints := sp.branches, sp.constraintsIdx, sp.constraints;
      sp.branches, sp.constraintsIdx, sp.constraints := b, i, c;
    }

    /**
     * `Parse(s)`, with file names read at their written length. When it
     * succeeds the path is the one `ParsePath` reads; the assertion of the
     * expression parser is a precondition.
     */
    method Parse(s: seq<Byte>) returns (ok: bool, rest: seq<Byte>)
      requires !ParsePath(s).PathAbort?
      modifies this
      ensures ok <==> ParsePath(s).PathOk?
      ensures ok ==> ParsePath(s) == PathOk(State(), rest)
    {
      rest := s;
      if |s| < 8 {
        return false, s;
      }
      var len: nat := ReadU64(s[..8]);
      var s1 := s[8..];
      if |s1| < 4 * len {
        return false, s;
      }
      branches := ReadBranchArray(s1, len);
      var s2 := s1[4 * len..];
      if |s2| < 8 {
        return false, s;
      }
      var count: nat := ReadU64(s2[..8]);
      var s3 := s2[8..];
      if |s3| < 8 * count {
        return false, s;
      }
      var idx := ReadIndexArray(s3, count);
      var r := ReadEntries(count, s3[8 * count..]);
      if !r.PathOk? {
        return false, s;
      }
      constraintsIdx, constraints, locations := idx, r.path.constraints, r.path.locations;
      return true, r.rest;
    }
  }

  /** The branch array, one `int` at a time. */
  method ReadBranchArray(s: seq<Byte>, n: nat) returns (b: seq<BranchId>)
    requires 4 * n <= |s|
    ensures b == ReadBranches(s, n)
  {
    b := [];
    var cur := s;
    for k := 0 to n
      invariant |cur| >= 4 * (n - k) && b + ReadBranches(cur, n - k) == ReadBranches(s, n)
    {
      AppendOne(b, ReadI32(cur[..4]), ReadBranches(cur[4..], n - k - 1));
      b := b + [ReadI32(cur[..4])];
      cur := cur[4..];
    }
  }

  /** The index array, one `size_t` at a time. */
  method ReadIndexArray(s: seq<Byte>, n: nat) returns (idx: seq<nat>)
    requires 8 * n <= |s|
    ensures idx == ReadIndices(s, n)
  {
    idx := [];
    var cur := s;
    for k := 0 to n
      invariant |cur| >= 8 * (n - k) && idx + ReadIndices(cur, n - k) == ReadIndices(s, n)
    {
      AppendOne(idx, ReadU64(cur[..8]), ReadIndices(cur[8..], n - k - 1));
      idx := idx + [ReadU64(cur[..8])];
      cur := cur[8..];
    }
  }

  lemma AppendOne<T>(a: seq<T>, x: T, b: seq<T>)
    ensures a + ([x] + b) == (a + [x]) + b
  {
  }

  /** The loop over the constraint records, stopping at the first that does not parse. */
  method ReadEntries(n: nat, s: seq<Byte>) returns (r: PathParse)
    ensures r == ParseEntries(n, s, map[], [], [], false)
  {
    var cs: seq<Expr> := [];
    var locs: seq<Loc> := [];
    var table: ExprCodec.ReadTable := map[];
    var t := s;
    var rem := n;
    ghost var goal := ParseEntries(n, s, map[], [], [], false);
    while rem > 0
      invariant |cs| == |locs|
      invariant ParseEntries(rem, t, table, cs, locs, false) == goal
    {
      var e := ParseEntry(t, table, false);
      if !e.EntryOk? {
        r := if e.EntryAbort? then PathAbort else PathFail;
        return;
      }
      var cs', locs', t', table', rem' := cs + [e.e], locs + [e.loc], e.rest, e.table, rem - 1;
      ParseEntriesNext(rem, t, table, cs, locs, e, goal, rem', t', table', cs', locs');
      cs, locs, t, table, rem := cs', locs', t', table', rem';
    }
    r := PathOk(Path([], [], cs, locs), t);
  }
}
