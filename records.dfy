/**
 * What the three data dumps (cl_dump_data.c, cl_dump_data_csv.c, cl_dump_data_sql.c)
 * share: the 5-byte record header, the deleted-record skip, and the field loop that
 * skips GROUP fields, hands every other known type to its decoder and reads
 * nothing for an unknown type.
 */
module Records {
  import opened Clarion
  import opened Field
  import opened SqlText

  /** The types the field switch decodes; GROUP is skipped before the switch, any other type is unknown. */
  predicate Decoded(t: nat)
  {
    t == FieldLong || t == FieldReal || t == FieldString || t == FieldStringPicTok
    || t == FieldByte || t == FieldShort || t == FieldDecimal
  }

  predicate IsString(t: nat)
  {
    t == FieldString || t == FieldStringPicTok
  }

  /** How values are printed: the text and CSV dumps pass no placeholder; the SQL dump passes "NULL" and quotes strings. */
  datatype Style = Plain | Sql

  function PlaceholderOf(st: Style): Option<string>
  {
    if st == Sql then Some("NULL") else None
  }

  /** The field widths the decoders rely on: a LONG word, at most one double, a BYTE, a SHORT word. */
  predicate Widths(fd: FieldDesc)
  {
    (fd.fldtype == FieldLong ==> fd.length >= 4) && (fd.fldtype == FieldReal ==> fd.length <= 8)
    && (fd.fldtype == FieldByte ==> fd.length >= 1) && (fd.fldtype == FieldShort ==> fd.length >= 2)
  }

  /**
   * A field the loop can decode into the record buffer of `reclen` bytes: a STRING
   * also needs the byte after it for its NUL, and in SQL its escaped copy must fit
   * the global escape buffer.
   */
  predicate Decodable(fd: FieldDesc, reclen: nat, st: Style)
  {
    Widths(fd) && (Decoded(fd.fldtype) ==> fd.length <= reclen)
    && (IsString(fd.fldtype) ==> fd.length < reclen)
    && (st == Sql && IsString(fd.fldtype) ==> 2 * fd.length + 1 <= TempSize)
    && |fd.fldname| == 16
  }

  predicate AllWidths(fields: seq<FieldDesc>)
  {
    forall i :: 0 <= i < |fields| ==> Widths(fields[i]) && |fields[i].fldname| == 16
  }

  predicate AllDecodable(fields: seq<FieldDesc>, reclen: nat, st: Style)
  {
    forall i :: 0 <= i < |fields| ==> Decodable(fields[i], reclen, st)
  }

  /** The REAL text for a field's bytes; `showReal` stands for the "%*f" rendering of the double. */
  function RealText(f: seq<byte>, pos: nat, length: nat, showReal: seq<byte> -> string): string
  {
    if pos + length <= |f| then showReal(f[pos..pos + length]) else ""
  }

  /** The text the decoder of a decoded field prints, or Err(Truncated) when the field runs past the file. */
  function ValueText(f: seq<byte>, pos: nat, fd: FieldDesc, st: Style, showReal: seq<byte> -> string): (r: Result<string>)
    requires Decoded(fd.fldtype) && Widths(fd)
    ensures r.Ok? <==> pos + fd.length <= |f|
  {
    var t, n := fd.fldtype, fd.length;
    if t == FieldLong then LongField(f, pos, n)
    else if t == FieldReal then RealField(f, pos, n, PlaceholderOf(st), RealText(f, pos, n, showReal))
    else if IsString(t) then (if st == Sql then SqlStringField(f, pos, n) else StringField(f, pos, n, None))
    else if t == FieldByte then ByteField(f, pos, n)
    else if t == FieldShort then ShortField(f, pos, n)
    else DecimalField(f, pos, n, fd.decsig, fd.decdec, PlaceholderOf(st))
  }

  /** The field switch: one decoder call per decoded type, on the shared record buffer. */
  method DumpValue(buf: array<byte>, f: seq<byte>, pos: nat, fd: FieldDesc, st: Style, showReal: seq<byte> -> string)
    returns (r: Result<string>)
    requires Decoded(fd.fldtype) && Decodable(fd, buf.Length, st)
    modifies buf
    ensures r == ValueText(f, pos, fd, st, showReal)
  {
    var t, n := fd.fldtype, fd.length;
    if t == FieldLong {
      r := DumpLong(buf, f, pos, n);
    } else if t == FieldReal {
      r := DumpReal(buf, f, pos, n, PlaceholderOf(st), RealText(f, pos, n, showReal));
    } else if IsString(t) {
      if st == Sql {
        r := DumpStringSql(buf, f, pos, n);
      } else {
        r := DumpString(buf, f, pos, n, None);
      }
    } else if t == FieldByte {
      r := DumpByte(buf, f, pos, n);
    } else if t == FieldShort {
      r := DumpShort(buf, f, pos, n);
    } else {
      r := DumpDecimal(buf, f, pos, n, fd.decsig, fd.decdec, PlaceholderOf(st));
    }
  }

  // ---------------------------------------------------------------------------
  // The field loop

  /** What the field loop does with one field: skip a GROUP, report an unknown type, or print a value. */
  datatype Cell = Group | Unknown(fldtype: nat) | Value(text: string)

  /** The bytes the loop reads for a field: GROUP fields and unknown types read nothing. */
  function Consumed(fd: FieldDesc): nat
  {
    if Decoded(fd.fldtype) then fd.length else 0
  }

  /** The bytes the loop reads for the fields of a record. */
  function Width(fields: seq<FieldDesc>): nat
  {
    if |fields| == 0 then 0 else Width(fields[..|fields| - 1]) + Consumed(fields[|fields| - 1])
  }

  /** The field switch as the loop sees it: the text a field decodes to at a position, or the error. */
  type Decoder = (nat, FieldDesc) -> Result<string>

  /**
   * The decoders of a dump in style `st` over the data file `f`. The loop never hands
   * the switch a type it does not decode; such a field has no text.
   */
  function DecoderOf(f: seq<byte>, st: Style, showReal: seq<byte> -> string): Decoder
  {
    (pos: nat, fd: FieldDesc) =>
      if Decoded(fd.fldtype) && Widths(fd) then ValueText(f, pos, fd, st, showReal) else Err(Truncated)
  }

  /** One field in the loop: GROUP, an unknown type, or the decoder's text. */
  function CellAt(pos: nat, fd: FieldDesc, dec: Decoder): (r: Result<Cell>)
    ensures !Decoded(fd.fldtype) ==> r.Ok?
    ensures r.Ok? ==> (r.value.Group? <==> fd.fldtype == FieldGroup)
    ensures Decoded(fd.fldtype) ==> (r.Ok? <==> dec(pos, fd).Ok?) && (r.Ok? ==> r.value == Value(dec(pos, fd).value))
  {
    if fd.fldtype == FieldGroup then Ok(Group)
    else if !Decoded(fd.fldtype) then Ok(Unknown(fd.fldtype))
    else match dec(pos, fd)
      case Ok(t) => Ok(Value(t))
      case Err(e) => Err(e)
  }

  /** The cells of a record whose fields start at `pos0`, each field read where the previous one ended. */
  function Cells(pos0: nat, fields: seq<FieldDesc>, dec: Decoder): (r: Result<seq<Cell>>)
    ensures r.Ok? ==> |r.value| == |fields|
  {
    if |fields| == 0 then Ok([])
    else
      var init := fields[..|fields| - 1];
      match Cells(pos0, init, dec)
      case Err(e) => Err(e)
      case Ok(cs) =>
        match CellAt(pos0 + Width(init), fields[|fields| - 1], dec)
        case Ok(c) => Ok(cs + [c])
        case Err(e) => Err(e)
  }

  /** Cell `j` is field `j` decoded at `pos0` plus the widths of the fields before it. */
  lemma {:induction false} CellsAt(pos0: nat, fields: seq<FieldDesc>, dec: Decoder, j: nat)
    requires Cells(pos0, fields, dec).Ok? && j < |fields|
    ensures CellAt(pos0 + Width(fields[..j]), fields[j], dec).Ok?
    ensures Cells(pos0, fields, dec).value[j] == CellAt(pos0 + Width(fields[..j]), fields[j], dec).value
  {
    var init := fields[..|fields| - 1];
    if j < |fields| - 1 {
      CellsAt(pos0, init, dec, j);
      assert init[..j] == fields[..j];
    } else {
      assert init == fields[..j];
    }
  }

  /** Decoding a field succeeds exactly when the field lies within the first `n` bytes. */
  ghost predicate FitsIn(dec: Decoder, fields: seq<FieldDesc>, n: nat)
  {
    forall j, p: nat | 0 <= j < |fields| && Decoded(fields[j].fldtype) :: dec(p, fields[j]).Ok? <==> p + fields[j].length <= n
  }

  /** With such a decoder, a record's fields decode exactly when they all lie within the `n` bytes. */
  lemma {:induction false} CellsFit(pos0: nat, fields: seq<FieldDesc>, dec: Decoder, n: nat)
    requires FitsIn(dec, fields, n) && pos0 <= n
    ensures Cells(pos0, fields, dec).Ok? <==> pos0 + Width(fields) <= n
  {
    if |fields| > 0 {
      var init := fields[..|fields| - 1];
      var last := |fields| - 1;
      assert FitsIn(dec, init, n) by {
        forall j, p: nat | 0 <= j < |init| && Decoded(init[j].fldtype)
          ensures dec(p, init[j]).Ok? <==> p + init[j].length <= n
        {
          assert init[j] == fields[j];
        }
      }
      CellsFit(pos0, init, dec, n);
      if Decoded(fields[last].fldtype) {
        assert dec(pos0 + Width(init), fields[last]).Ok? <==> pos0 + Width(init) + fields[last].length <= n;
      }
    }
  }

  /** The decoders of a dump fit the data file: a field decodes exactly when its bytes are in the file. */
  lemma DecoderFits(f: seq<byte>, st: Style, showReal: seq<byte> -> string, fields: seq<FieldDesc>)
    requires AllWidths(fields)
    ensures FitsIn(DecoderOf(f, st, showReal), fields, |f|)
  {
    forall j, p: nat | 0 <= j < |fields| && Decoded(fields[j].fldtype)
      ensures DecoderOf(f, st, showReal)(p, fields[j]).Ok? <==> p + fields[j].length <= |f|
    {
      assert Widths(fields[j]);
    }
  }

  /** A record of the data file yields its cells exactly when all its fields are in the file. */
  lemma RecordFits(f: seq<byte>, pos0: nat, fields: seq<FieldDesc>, st: Style, showReal: seq<byte> -> string)
    requires AllWidths(fields) && pos0 <= |f|
    ensures Cells(pos0, fields, DecoderOf(f, st, showReal)).Ok? <==> pos0 + Width(fields) <= |f|
  {
    DecoderFits(f, st, showReal, fields);
    CellsFit(pos0, fields, DecoderOf(f, st, showReal), |f|);
  }

  /** The widths of consecutive fields add up, so a GROUP anywhere in a record moves nothing. */
  lemma {:induction false} WidthAppend(a: seq<FieldDesc>, b: seq<FieldDesc>)
    ensures Width(a + b) == Width(a) + Width(b)
  {
    if |b| > 0 {
      WidthAppend(a, b[..|b| - 1]);
      assert (a + b)[..|a + b| - 1] == a + b[..|b| - 1];
    } else {
      assert a + b == a;
    }
  }

  /** Dropping a GROUP field leaves the width of a record unchanged. */
  lemma GroupReadsNothing(fields: seq<FieldDesc>, j: nat)
    requires j < |fields| && fields[j].fldtype == FieldGroup
    ensures Width(fields[..j] + fields[j + 1..]) == Width(fields)
  {
    assert fields == fields[..j] + [fields[j]] + fields[j + 1..];
    WidthAppend(fields[..j] + [fields[j]], fields[j + 1..]);
    WidthAppend(fields[..j], [fields[j]]);
    WidthAppend(fields[..j], fields[j + 1..]);
    assert [fields[j]][..0] == [];
  }

  /** Once a field runs past the file, the cells of every longer record are that same error. */
  lemma {:induction false} CellsPrefixErr(pos0: nat, fields: seq<FieldDesc>, dec: Decoder, i: nat)
    requires i <= |fields| && Cells(pos0, fields[..i], dec).Err?
    ensures Cells(pos0, fields, dec) == Cells(pos0, fields[..i], dec)
  {
    if i < |fields| {
      var init := fields[..|fields| - 1];
      assert init[..i] == fields[..i];
      CellsPrefixErr(pos0, init, dec, i);
    } else {
      assert fields[..i] == fields;
    }
  }

  /** The step of the field loop: one more field after a prefix of the record's fields. */
  lemma CellsSnoc(pos0: nat, fields: seq<FieldDesc>, dec: Decoder, i: nat, cs: seq<Cell>, c: Result<Cell>)
    requires i < |fields| && Cells(pos0, fields[..i], dec) == Ok(cs)
    requires c == CellAt(pos0 + Width(fields[..i]), fields[i], dec)
    ensures c.Ok? ==> Cells(pos0, fields[..i + 1], dec) == Ok(cs + [c.value])
    ensures c.Err? ==> Cells(pos0, fields, dec) == Err(c.error)
    ensures Width(fields[..i + 1]) == Width(fields[..i]) + Consumed(fields[i])
  {
    assert fields[..i + 1][..i] == fields[..i];
    if c.Err? {
      CellsPrefixErr(pos0, fields, dec, i + 1);
    }
  }

  /** One turn of the field loop: skip a GROUP, note an unknown type, or call the decoder. */
  method ReadCell(buf: array<byte>, f: seq<byte>, pos: nat, fd: FieldDesc, st: Style, showReal: seq<byte> -> string)
    returns (r: Result<Cell>)
    requires Decodable(fd, buf.Length, st)
    modifies buf
    ensures r == CellAt(pos, fd, DecoderOf(f, st, showReal))
  {
    if fd.fldtype == FieldGroup {
      r := Ok(Group);
    } else if Decoded(fd.fldtype) {
      var v := DumpValue(buf, f, pos, fd, st, showReal);
      if v.Err? {
        r := Err(v.error);
      } else {
        r := Ok(Value(v.value));
      }
    } else {
      r := Ok(Unknown(fd.fldtype));
    }
  }

  /**
   * The field loop of the data dumps: from `pos0`, each field in turn, the shared
   * buffer `buf` holding the record's bytes as the decoders read them.
   */
  method ReadCells(buf: array<byte>, f: seq<byte>, pos0: nat, fields: seq<FieldDesc>, st: Style, showReal: seq<byte> -> string)
    returns (r: Result<seq<Cell>>, next: nat)
    requires AllDecodable(fields, buf.Length, st)
    modifies buf
    ensures r == Cells(pos0, fields, DecoderOf(f, st, showReal))
    ensures r.Ok? ==> next == pos0 + Width(fields)
  {
    ghost var dec := DecoderOf(f, st, showReal);
    var cs: seq<Cell> := [];
    var pos := pos0;
    for i := 0 to |fields|
      invariant pos == pos0 + Width(fields[..i])
      invariant Cells(pos0, fields[..i], dec) == Ok(cs)
    {
      assert Decodable(fields[i], buf.Length, st);
      var c := ReadCell(buf, f, pos, fields[i], st, showReal);
      CellsSnoc(pos0, fields, dec, i, cs, c);
      if c.Err? {
        return Err(c.error), pos;
      }
      cs := cs + [c.value];
      pos := pos + Consumed(fields[i]);
    }
    assert fields[..|fields|] == fields;
    return Ok(cs), pos;
  }

  // ---------------------------------------------------------------------------
  // Records

  /** The 5-byte record header: the rhd flag byte, then the little-endian memo pointer. */
  function HeaderAt(f: seq<byte>, pos: nat): (r: Result<RecordHeader>)
    ensures r.Ok? <==> pos + RecordHeaderSize <= |f|
    ensures r.Ok? ==> r.value.rhd < 256 && r.value.rptr == U32(f, pos + 1)
  {
    if pos + RecordHeaderSize > |f| then Err(Truncated)
    else Ok(RecordHeader(f[pos] as nat, U32(f, pos + 1)))
  }

  /** A deleted record is skipped when only active records are dumped. */
  predicate SkipsRecord(rh: RecordHeader, opts: nat)
  {
    HasMask(rh.rhd, RecordDeleted) && HasMask(opts, OptDumpActive)
  }

  /** The memo column is printed when the data file has a memo file and it was not turned off. */
  predicate MemoShown(sfatr: nat, opts: nat)
  {
    HasMask(sfatr, MemoFileExists) && !HasMask(opts, OptNoMemo)
  }

  /**
   * What a dump needs besides the file: the parsed field table, the header values the
   * loops use, the options, the memo file, the memo walks' block budget and the REAL
   * rendering.
   */
  datatype Table = Table(
    fields: seq<FieldDesc>, numrecs: nat, reclen: nat, sfatr: nat, opts: nat,
    mem: seq<byte>, fuel: nat, showReal: seq<byte> -> string)

  /** What a dump writes: its stdout and its stderr text. */
  datatype Output = Output(out: string, err: string)

  /** What a record loop does with the record at a position: skip it, or read its header and fields. */
  datatype Slot = Skipped | Read(rh: RecordHeader, cells: seq<Cell>)

  /**
   * The record at `pos` and where the file cursor is left: a deleted record under
   * DUMP_ACTIVE is passed over with a seek of reclen - 5 after its header; any other
   * record's fields are read in turn after the header.
   */
  function SlotAt(t: Table, f: seq<byte>, pos: nat, st: Style): (r: Result<(Slot, nat)>)
    ensures r.Ok? ==> HeaderAt(f, pos).Ok? && (r.value.0.Skipped? <==> SkipsRecord(HeaderAt(f, pos).value, t.opts))
    ensures r.Ok? && r.value.0.Skipped? ==> r.value.1 == pos + t.reclen
    ensures r.Ok? && r.value.0.Read? ==>
      r.value.1 == pos + RecordHeaderSize + Width(t.fields) && |r.value.0.cells| == |t.fields|
      && r.value.0.rh == HeaderAt(f, pos).value
  {
    match HeaderAt(f, pos)
    case Err(e) => Err(e)
    case Ok(rh) =>
      if SkipsRecord(rh, t.opts) then Ok((Skipped, pos + RecordHeaderSize + t.reclen - RecordHeaderSize))
      else match Cells(pos + RecordHeaderSize, t.fields, DecoderOf(f, st, t.showReal))
        case Err(e) => Err(e)
        case Ok(cells) => Ok((Read(rh, cells), pos + RecordHeaderSize + Width(t.fields)))
  }

  /** The header read and skip test at the top of each record loop, then the field loop. */
  method ReadSlot(buf: array<byte>, t: Table, f: seq<byte>, pos: nat, st: Style) returns (r: Result<(Slot, nat)>)
    requires AllDecodable(t.fields, buf.Length, st)
    modifies buf
    ensures r == SlotAt(t, f, pos, st)
  {
    var h := HeaderAt(f, pos);
    if h.Err? {
      return Err(h.error);
    }
    if SkipsRecord(h.value, t.opts) {
      return Ok((Skipped, pos + t.reclen));
    }
    var cells, next := ReadCells(buf, f, pos + RecordHeaderSize, t.fields, st, t.showReal);
    if cells.Err? {
      return Err(cells.error);
    }
    return Ok((Read(h.value, cells.value), next));
  }

  /**
   * The memo column of a read record, when the dump shows one: the SQL dump prints
   * the sanitised last block, the others the whole chain with no placeholder.
   */
  function MemoColumn(t: Table, rh: RecordHeader, st: Style): (r: Result<Option<string>>)
    ensures r.Ok? ==> (r.value.Some? <==> MemoShown(t.sfatr, t.opts))
  {
    if !MemoShown(t.sfatr, t.opts) then Ok(None)
    else
      var m := if st == Sql then SqlMemo(rh, t.mem, t.fuel) else MemoEntry(rh, t.mem, None, t.fuel);
      match m
      case Ok(text) => Ok(Some(text))
      case Err(e) => Err(e)
  }

  /** The stderr output of the memo column: only the non-SQL dumps walk the whole chain. */
  function MemoColumnNote(t: Table, rh: RecordHeader, st: Style): (r: string)
    ensures r != "" ==> MemoShown(t.sfatr, t.opts) && st != Sql && MemoColumn(t, rh, st).Ok?
  {
    if MemoShown(t.sfatr, t.opts) && st != Sql then MemoNote(rh, t.mem, t.fuel) else ""
  }

  /** The memo step after the field loop. */
  method ReadMemoColumn(t: Table, rh: RecordHeader, st: Style) returns (r: Result<Option<string>>, note: string)
    ensures r == MemoColumn(t, rh, st)
    ensures note == MemoColumnNote(t, rh, st)
  {
    note := "";
    if !MemoShown(t.sfatr, t.opts) {
      return Ok(None), note;
    }
    var m;
    if st == Sql {
      m := DumpMemoSql(rh, t.mem, t.fuel);
    } else {
      m, note := DumpMemoEntry(rh, t.mem, None, t.fuel);
    }
    if m.Err? {
      return Err(m.error), note;
    }
    return Ok(Some(m.value)), note;
  }

  /** The text printed for a cell: a value's text, nothing for an unknown type or a GROUP. */
  function CellText(c: Cell): string
  {
    if c.Value? then c.text else ""
  }

  /** The stderr line for each unknown field type, in field order. */
  function UnknownNotes(cells: seq<Cell>): string
  {
    if |cells| == 0 then ""
    else
      var c := cells[|cells| - 1];
      UnknownNotes(cells[..|cells| - 1])
        + (if c.Unknown? then "Unknown field type " + NatToString(c.fldtype) + "\n" else "")
  }

  /** The column items of a record: None for a GROUP field, else the cell's text. */
  function Items(cells: seq<Cell>): (r: seq<Option<string>>)
    ensures |r| == |cells|
    ensures forall j :: 0 <= j < |cells| ==> (r[j].None? <==> cells[j].Group?)
  {
    seq(|cells|, j requires 0 <= j < |cells| => if cells[j].Group? then None else Some(CellText(cells[j])))
  }

  /** The texts of the items that are present, in order. */
  function Present(items: seq<Option<string>>): (r: seq<string>)
    ensures |r| <= |items|
  {
    if |items| == 0 then []
    else Present(items[..|items| - 1]) + (if items[|items| - 1].Some? then [items[|items| - 1].value] else [])
  }

  /** `xs` with `sep` between consecutive elements. */
  function Join(xs: seq<string>, sep: string): string
  {
    if |xs| == 0 then ""
    else if |xs| == 1 then xs[0]
    else Join(xs[..|xs| - 1], sep) + sep + xs[|xs| - 1]
  }

  /** The cells of a record are GROUP cells exactly at its GROUP fields. */
  lemma CellsMarkGroups(pos0: nat, fields: seq<FieldDesc>, dec: Decoder)
    requires Cells(pos0, fields, dec).Ok?
    ensures forall j :: 0 <= j < |fields| ==> (Cells(pos0, fields, dec).value[j].Group? <==> fields[j].fldtype == FieldGroup)
  {
    forall j | 0 <= j < |fields|
      ensures Cells(pos0, fields, dec).value[j].Group? <==> fields[j].fldtype == FieldGroup
    {
      CellsAt(pos0, fields, dec, j);
    }
  }

  /** No item is present exactly when every field is a GROUP. */
  lemma {:induction false} PresentEmpty(items: seq<Option<string>>)
    ensures |Present(items)| == 0 <==> forall j :: 0 <= j < |items| ==> items[j].None?
  {
    if |items| > 0 {
      var n := |items| - 1;
      PresentEmpty(items[..n]);
      assert forall j :: 0 <= j < n ==> items[..n][j] == items[j];
    }
  }

  /** Two rows with GROUPs at the same places have the same number of present items. */
  lemma {:induction false} PresentSameShape(a: seq<Option<string>>, b: seq<Option<string>>)
    requires |a| == |b| && forall j :: 0 <= j < |a| ==> (a[j].None? <==> b[j].None?)
    ensures |Present(a)| == |Present(b)|
  {
    if |a| > 0 {
      var n := |a| - 1;
      assert forall j :: 0 <= j < n ==> a[..n][j] == a[j] && b[..n][j] == b[j];
      PresentSameShape(a[..n], b[..n]);
    }
  }

  /** Records laid out as the skip and the field loop leave them: `reclen` bytes each when reclen is 5 plus the field widths. */
  predicate Aligned(t: Table)
  {
    t.reclen == RecordHeaderSize + Width(t.fields)
  }
}
