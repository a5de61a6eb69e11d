/**
 * The record loop the three data dumps share: numrecs records from the cursor the
 * metadata readers leave, each a 5-byte header and its fields, a deleted record
 * passed over under DUMP_ACTIVE, every other one printed in the dump's layout.
 */
module Dump {
  import opened Clarion
  import opened Records
  import opened DumpData
  import opened DataCsv
  import opened DataSql

  /** The layout of the data dump: plain text, CSV with its separator, or SQL with its quotes and table. */
  datatype Layout = PlainLayout | CsvLayout(fsep: char) | SqlLayout(qb: char, qe: char, table: string)

  function StyleOf(l: Layout): Style
  {
    if l.SqlLayout? then Sql else Plain
  }

  /** What the read record with index `k` prints in the layout. */
  function Format(l: Layout, k: nat, fields: seq<FieldDesc>, rh: RecordHeader, cells: seq<Cell>, memo: Option<string>): Output
    requires |cells| == |fields|
  {
    match l
    case PlainLayout => PlainOutput(k, fields, rh, cells, memo)
    case CsvLayout(sep) => CsvOutput(sep, cells, memo)
    case SqlLayout(qb, qe, tbl) => SqlOutput(qb, qe, tbl, rh, cells, memo)
  }

  /**
   * The record with index `k` at `pos`: what it prints and where the next record
   * starts. A skipped record prints nothing; a read one prints its fields and, when
   * shown, its memo column, with the memo walk's loop line on stderr; the plain dump
   * opens both its blocks with the record number.
   */
  function RecordAt(l: Layout, t: Table, f: seq<byte>, pos: nat, k: nat): (r: Result<(Output, nat)>)
    ensures r.Ok? ==> HeaderAt(f, pos).Ok?
    ensures HeaderAt(f, pos).Ok? && SkipsRecord(HeaderAt(f, pos).value, t.opts) ==> r == Ok((Output("", ""), pos + t.reclen))
    ensures r.Ok? && !SkipsRecord(HeaderAt(f, pos).value, t.opts) ==> r.value.1 == pos + RecordHeaderSize + Width(t.fields)
    ensures r.Ok? && !SkipsRecord(HeaderAt(f, pos).value, t.opts) && l.PlainLayout? ==>
      |r.value.0.out| >= |Banner(k)| && r.value.0.out[..|Banner(k)|] == Banner(k)
  {
    match SlotAt(t, f, pos, StyleOf(l))
    case Err(e) => Err(e)
    case Ok((slot, next)) =>
      match slot
      case Skipped => Ok((Output("", ""), next))
      case Read(rh, cells) =>
        match MemoColumn(t, rh, StyleOf(l))
        case Err(e) => Err(e)
        case Ok(memo) => Ok((Then(Format(l, k, t.fields, rh, cells, memo), Output("", MemoColumnNote(t, rh, StyleOf(l)))), next))
  }

  /** Two outputs one after the other. */
  function Then(a: Output, b: Output): Output
  {
    Output(a.out + b.out, a.err + b.err)
  }

  /** A pass of the record loop as a function of the cursor and the record index. */
  type Step = (nat, nat) -> Result<(Output, nat)>

  function StepOf(l: Layout, t: Table, f: seq<byte>): Step
  {
    (p: nat, k: nat) => RecordAt(l, t, f, p, k)
  }

  /** The first `n` passes of a loop from `pos0`: what they print and where the cursor is left. */
  function Run(step: Step, pos0: nat, n: nat): Result<(Output, nat)>
  {
    if n == 0 then Ok((Output("", ""), pos0))
    else
      match Run(step, pos0, n - 1)
      case Err(e) => Err(e)
      case Ok((o, p)) =>
        match step(p, n - 1)
        case Err(e) => Err(e)
        case Ok((o', q)) => Ok((Then(o, o'), q))
  }

  /** The first `n` records of the data file from `pos0`. */
  function Dumped(l: Layout, t: Table, f: seq<byte>, pos0: nat, n: nat): Result<(Output, nat)>
  {
    Run(StepOf(l, t, f), pos0, n)
  }

  /** Every pass that succeeds moves the cursor by `w`. */
  ghost predicate Strides(step: Step, w: nat)
  {
    forall p: nat, k: nat :: step(p, k).Ok? ==> step(p, k).value.1 == p + w
  }

  lemma {:induction false} RunStrides(step: Step, w: nat, pos0: nat, n: nat)
    requires Strides(step, w) && Run(step, pos0, n).Ok?
    ensures Run(step, pos0, n).value.1 == pos0 + n * w
  {
    if n > 0 {
      RunStrides(step, w, pos0, n - 1);
      var p := Run(step, pos0, n - 1).value.1;
      assert step(p, n - 1).Ok?;
      assert pos0 + n * w == pos0 + (n - 1) * w + w;
    }
  }

  /** When the record length covers exactly the header and the fields, record `n` starts at pos0 + n * reclen. */
  lemma RecordsAligned(l: Layout, t: Table, f: seq<byte>, pos0: nat, n: nat)
    requires Aligned(t)
    requires Dumped(l, t, f, pos0, n).Ok?
    ensures Dumped(l, t, f, pos0, n).value.1 == pos0 + n * t.reclen
  {
    RunStrides(StepOf(l, t, f), t.reclen, pos0, n);
  }

  /** Passes that each print nothing and stride by `w` print nothing together. */
  lemma {:induction false} RunSilent(step: Step, w: nat, pos0: nat, n: nat)
    requires forall k :: 0 <= k < n ==> step(pos0 + k * w, k) == Ok((Output("", ""), pos0 + k * w + w))
    ensures Run(step, pos0, n) == Ok((Output("", ""), pos0 + n * w))
  {
    if n > 0 {
      RunSilent(step, w, pos0, n - 1);
      assert pos0 + n * w == pos0 + (n - 1) * w + w;
      assert step(pos0 + (n - 1) * w, n - 1) == Ok((Output("", ""), pos0 + (n - 1) * w + w));
      assert Then(Output("", ""), Output("", "")) == Output("", "");
    }
  }

  /** A dump of deleted records under DUMP_ACTIVE prints nothing and passes over all of them. */
  lemma AllSkippedSilent(l: Layout, t: Table, f: seq<byte>, pos0: nat, n: nat)
    requires forall k :: 0 <= k < n ==> HeaderAt(f, pos0 + k * t.reclen).Ok? && SkipsRecord(HeaderAt(f, pos0 + k * t.reclen).value, t.opts)
    ensures Dumped(l, t, f, pos0, n) == Ok((Output("", ""), pos0 + n * t.reclen))
  {
    forall k | 0 <= k < n
      ensures StepOf(l, t, f)(pos0 + k * t.reclen, k) == Ok((Output("", ""), pos0 + k * t.reclen + t.reclen))
    {
      SkippedStep(l, t, f, pos0 + k * t.reclen, k);
    }
    RunSilent(StepOf(l, t, f), t.reclen, pos0, n);
  }

  lemma SkippedStep(l: Layout, t: Table, f: seq<byte>, p: nat, k: nat)
    requires HeaderAt(f, p).Ok? && SkipsRecord(HeaderAt(f, p).value, t.opts)
    ensures StepOf(l, t, f)(p, k) == Ok((Output("", ""), p + t.reclen))
  {
    assert StepOf(l, t, f)(p, k) == RecordAt(l, t, f, p, k);
  }

  /** The output of the first passes is a prefix of the output of more passes. */
  lemma {:induction false} RunPrefix(step: Step, pos0: nat, m: nat, n: nat)
    requires m <= n && Run(step, pos0, n).Ok?
    ensures Run(step, pos0, m).Ok?
    ensures var a, b := Run(step, pos0, m).value.0, Run(step, pos0, n).value.0;
      |a.out| <= |b.out| && b.out[..|a.out|] == a.out && |a.err| <= |b.err| && b.err[..|a.err|] == a.err
    decreases n
  {
    if m < n {
      RunPrefix(step, pos0, m, n - 1);
      var c := Run(step, pos0, n - 1).value.0;
      var b := Run(step, pos0, n).value.0;
      var p := Run(step, pos0, n - 1).value.1;
      var o := step(p, n - 1).value.0;
      assert b == Then(c, o);
      assert b.out[..|c.out|] == c.out && b.err[..|c.err|] == c.err;
    }
  }

  /** What the dump has printed after some records stays at the head of what it prints after all of them. */
  lemma DumpedPrefix(l: Layout, t: Table, f: seq<byte>, pos0: nat, m: nat, n: nat)
    requires m <= n && Dumped(l, t, f, pos0, n).Ok?
    ensures Dumped(l, t, f, pos0, m).Ok?
    ensures var a, b := Dumped(l, t, f, pos0, m).value.0, Dumped(l, t, f, pos0, n).value.0;
      |a.out| <= |b.out| && b.out[..|a.out|] == a.out && |a.err| <= |b.err| && b.err[..|a.err|] == a.err
  {
    RunPrefix(StepOf(l, t, f), pos0, m, n);
  }

  /** Once a pass fails, the loop's result is that failure. */
  lemma {:induction false} RunErr(step: Step, pos0: nat, m: nat, n: nat)
    requires m <= n && Run(step, pos0, m).Err?
    ensures Run(step, pos0, n) == Run(step, pos0, m)
    decreases n
  {
    if m < n {
      RunErr(step, pos0, m, n - 1);
    }
  }

  /**
   * The record loop: a buffer of reclen bytes, then for each of numrecs records the
   * header, the skip test, the fields and the memo column.
   */
  method DumpRecords(l: Layout, t: Table, f: seq<byte>, pos0: nat) returns (r: Result<(Output, nat)>)
    requires AllDecodable(t.fields, t.reclen, StyleOf(l))
    ensures r == Dumped(l, t, f, pos0, t.numrecs)
  {
    var buf := new byte[t.reclen];
    ghost var step := StepOf(l, t, f);
    var out, err, pos := "", "", pos0;
    for nrecs := 0 to t.numrecs
      invariant Run(step, pos0, nrecs) == Ok((Output(out, err), pos))
    {
      var o, next := DumpRecord(buf, l, t, f, pos, nrecs);
      if o.Err? {
        assert Run(step, pos0, nrecs + 1) == Err(o.error);
        RunErr(step, pos0, nrecs + 1, t.numrecs);
        return Err(o.error);
      }
      out, err, pos := out + o.value.out, err + o.value.err, next;
    }
    return Ok((Output(out, err), pos));
  }

  /** One pass of the record loop. */
  method DumpRecord(buf: array<byte>, l: Layout, t: Table, f: seq<byte>, pos: nat, k: nat) returns (r: Result<Output>, next: nat)
    requires AllDecodable(t.fields, buf.Length, StyleOf(l))
    modifies buf
    ensures r.Err? ==> RecordAt(l, t, f, pos, k) == Err(r.error)
    ensures r.Ok? ==> RecordAt(l, t, f, pos, k) == Ok((r.value, next))
  {
    next := pos;
    var s := ReadSlot(buf, t, f, pos, StyleOf(l));
    if s.Err? {
      return Err(s.error), next;
    }
    next := s.value.1;
    match s.value.0
    case Skipped =>
      r := Ok(Output("", ""));
    case Read(rh, cells) =>
      var memo, note := ReadMemoColumn(t, rh, StyleOf(l));
      if memo.Err? {
        return Err(memo.error), next;
      }
      r := Ok(Then(Format(l, k, t.fields, rh, cells, memo.value), Output("", note)));
  }
}
