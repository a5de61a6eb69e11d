/**
 * The CSV schema line of cl_dump_meta_csv.c: the column names, derived from the
 * field names, with the same separator rule as the data lines, then the MEMO column.
 */
module MetaCsv {
  import opened Clarion
  import opened Utils
  import opened Records
  import opened DataCsv

  const Colon: byte := 0x3A

  /** The index of the first ':' of `s`, as strchr finds it. */
  function FirstColon(s: seq<byte>): (i: nat)
    requires Colon in s
    ensures i < |s| && s[i] == Colon && Colon !in s[..i]
  {
    if s[0] == Colon then 0 else FirstColon(s[1..]) + 1
  }

  /** What follows the first ':' of `s`, or all of `s` when it has none. */
  function AfterColon(s: seq<byte>): (r: seq<byte>)
    ensures |r| <= |s| && r == s[|s| - |r|..]
    ensures Colon !in s ==> r == s
    ensures Colon in s ==> |r| < |s| && s[|s| - |r| - 1] == Colon && Colon !in s[..|s| - |r| - 1]
  {
    if Colon in s then s[FirstColon(s) + 1..] else s
  }

  /**
   * The column name of a field as the schema dumps derive it: the 16-byte name trimmed
   * of trailing spaces, cut at a NUL, then what follows its first ':'.
   */
  function ColumnName(name: seq<byte>): (r: seq<byte>)
    ensures 0 !in r
  {
    AfterColon(CStr(TrimEnd(name)))
  }

  /** The header items: no column for a GROUP field, else the column name. */
  function HeaderItems(fields: seq<FieldDesc>): (r: seq<Option<string>>)
    ensures |r| == |fields|
    ensures forall j :: 0 <= j < |fields| ==> (r[j].None? <==> fields[j].fldtype == FieldGroup)
  {
    seq(|fields|, j requires 0 <= j < |fields| =>
      if fields[j].fldtype == FieldGroup then None else Some(Text(ColumnName(fields[j].fldname))))
  }

  /** The CSV schema line: the columns, "MEMO" when the memo column is shown, the line end. */
  function CsvHeader(fields: seq<FieldDesc>, sep: char, memoShown: bool): (r: string)
    ensures |r| > 0 && r[|r| - 1] == '\n'
  {
    CsvCols(HeaderItems(fields), sep) + (if memoShown then [sep] + "MEMO" else "") + "\n"
  }

  /**
   * The schema line and the data line of a record have their columns in the same
   * places: as many printed columns, and the same leading separator.
   */
  lemma ColumnsLineUp(fields: seq<FieldDesc>, cells: seq<Cell>)
    requires |cells| == |fields|
    requires forall j :: 0 <= j < |fields| ==> (cells[j].Group? <==> fields[j].fldtype == FieldGroup)
    ensures |Present(HeaderItems(fields))| == |Present(Items(cells))|
    ensures LeadingSep(HeaderItems(fields)) == LeadingSep(Items(cells))
  {
    var h, d := HeaderItems(fields), Items(cells);
    assert forall j :: 0 <= j < |h| ==> (h[j].None? <==> d[j].None?);
    PresentSameShape(h, d);
  }

  /** clarion_dump_field_desc_csv: the field loop, then the memo column and the line end. */
  method PrintCsvHeader(fields: seq<FieldDesc>, sep: char, memoShown: bool) returns (s: string)
    ensures s == CsvHeader(fields, sep, memoShown)
  {
    s := PrintCsvCols(HeaderItems(fields), sep);
    if memoShown {
      s := s + [sep] + "MEMO";
    }
    s := s + "\n";
  }
}
