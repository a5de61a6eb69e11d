/**
 * The human-readable data dump of cl_dump_data.c: for each record read, a block on
 * stderr with the record number, the rhd byte in hex with its flag names and the
 * memo pointer in hex, and a block on stdout with one "%8s : value" line per
 * non-GROUP field and the memo entry.
 */
module DumpData {
  import opened Clarion
  import opened Meta
  import opened DumpMeta
  import opened Records

  // ---------------------------------------------------------------------------
  // The rhd flags

  const RhdNames: seq<string> := [
    "NEW RECORD", "OLD RECORD", "REVISED RECORD", "*** UNDEFINED (3) ***",
    "DELETED RECORD", "*** UNDEFINED (5) ***", "RECORD HELD", "*** UNDEFINED (7) ***"]

  /** The text after "Attributes set:": the name of every set bit, or NONE when rhd is 0. */
  function RhdText(rhd: nat): string
  {
    if rhd == 0 then " NONE" else AttrItems(RhdNames, rhd, 8)
  }

  /** NONE is printed exactly when none of the eight flag bits of the byte is set. */
  lemma RhdNone(rhd: nat)
    requires rhd < 256
    ensures RhdText(rhd) == " NONE" <==> forall i :: 0 <= i < 8 ==> !BitSet(rhd, i)
  {
    AttrItemsEmpty(RhdNames, rhd, 8);
    LowByteClear(rhd);
    if rhd != 0 {
      assert rhd % 256 != 0;
      assert RhdText(rhd)[..2] == " [";
      assert " NONE"[..2] == " N";
    }
  }

  /** The rhd byte and the 32-bit memo pointer fit their "%02x" and "%08x" widths. */
  lemma HeaderHexExact(rh: RecordHeader)
    requires rh.rhd < 256 && rh.rptr < 0x1_0000_0000
    ensures HexNumber(Hex(rh.rhd, 2)) == rh.rhd && HexNumber(Hex(rh.rptr, 8)) == rh.rptr
  {
    assert Pow16(2) == 256;
    assert Pow16(8) == 0x1_0000_0000;
    HexRoundTrip(rh.rhd, 2);
    HexRoundTrip(rh.rptr, 8);
  }

  // ---------------------------------------------------------------------------
  // The stdout block

  /** `s` right-justified in `w` columns, as "%ws" prints it; a longer string is printed whole. */
  function PadLeft(s: string, w: nat): (r: string)
    ensures |r| == if |s| < w then w else |s|
    ensures r[|r| - |s|..] == s
    ensures forall i :: 0 <= i < |r| - |s| ==> r[i] == ' '
  {
    if |s| >= w then s else seq(w - |s|, _ => ' ') + s
  }

  /**
   * The label of a field: its name after the four-character prefix, in eight columns.
   * The parser always gives a 16-byte name; a shorter one has no text after the prefix.
   */
  function Label(fd: FieldDesc): string
  {
    PadLeft(Text(CStr(if |fd.fldname| >= 4 then fd.fldname[4..] else [])), 8)
  }

  /** The line printed for one field; a GROUP field prints none, an unknown type an empty value. */
  function FieldLine(fd: FieldDesc, c: Cell): string
  {
    if fd.fldtype == FieldGroup then "" else Label(fd) + " : " + CellText(c) + "\n"
  }

  /** The field lines of a record, in field order. */
  function FieldLines(fields: seq<FieldDesc>, cells: seq<Cell>): string
    requires |cells| == |fields|
  {
    if |fields| == 0 then ""
    else
      var n := |fields| - 1;
      FieldLines(fields[..n], cells[..n]) + FieldLine(fields[n], cells[n])
  }

  /** The field lines of consecutive fields follow each other. */
  lemma {:induction false} FieldLinesAppend(f1: seq<FieldDesc>, c1: seq<Cell>, f2: seq<FieldDesc>, c2: seq<Cell>)
    requires |c1| == |f1| && |c2| == |f2|
    ensures FieldLines(f1 + f2, c1 + c2) == FieldLines(f1, c1) + FieldLines(f2, c2)
  {
    if |f2| > 0 {
      var n := |f2| - 1;
      assert (f1 + f2)[..|f1| + n] == f1 + f2[..n];
      assert (c1 + c2)[..|c1| + n] == c1 + c2[..n];
      FieldLinesAppend(f1, c1, f2[..n], c2[..n]);
    } else {
      assert f1 + f2 == f1 && c1 + c2 == c1;
    }
  }

  /** A GROUP field contributes no line, whatever its cell. */
  lemma GroupLineless(f1: seq<FieldDesc>, c1: seq<Cell>, g: FieldDesc, c: Cell, f2: seq<FieldDesc>, c2: seq<Cell>)
    requires |c1| == |f1| && |c2| == |f2| && g.fldtype == FieldGroup
    ensures FieldLines(f1 + [g] + f2, c1 + [c] + c2) == FieldLines(f1 + f2, c1 + c2)
  {
    GroupLast(f1, c1, g, c);
    FieldLinesAppend(f1 + [g], c1 + [c], f2, c2);
    FieldLinesAppend(f1, c1, f2, c2);
  }

  lemma GroupLast(f1: seq<FieldDesc>, c1: seq<Cell>, g: FieldDesc, c: Cell)
    requires |c1| == |f1| && g.fldtype == FieldGroup
    ensures FieldLines(f1 + [g], c1 + [c]) == FieldLines(f1, c1)
  {
    assert (f1 + [g])[..|f1|] == f1 && (c1 + [c])[..|c1|] == c1;
  }

  /** The "=== RECORD n:" line that opens both blocks; records are numbered from 1. */
  function Banner(k: nat): string
  {
    "=== RECORD " + NatToString(k + 1) + ":\n"
  }

  /**
   * What clarion_dump_data prints for the read record with index `k` (stdout, then
   * stderr): the memo line is there exactly when `memo` holds the shown memo text.
   */
  function PlainOutput(k: nat, fields: seq<FieldDesc>, rh: RecordHeader, cells: seq<Cell>, memo: Option<string>): (r: Output)
    requires |cells| == |fields|
    ensures |r.out| >= |Banner(k)| && r.out[..|Banner(k)|] == Banner(k)
    ensures |r.err| >= |Banner(k)| && r.err[..|Banner(k)|] == Banner(k)
    ensures r.out[|r.out| - 1] == '\n'
  {
    var memoLine := if memo.Some? then "MEMO ENTRY   : " + memo.value + "\n" else "";
    var out := Banner(k) + (FieldLines(fields, cells) + memoLine + "\n");
    var err := Banner(k) + ("rhd  : 0x" + Hex(rh.rhd, 2) + "\n" + "\tAttributes set:" + RhdText(rh.rhd) + "\n"
      + "rptr : 0x" + Hex(rh.rptr, 8) + "\n" + "\n" + UnknownNotes(cells));
    Output(out, err)
  }

  /** The loop that prints " : "-separated field lines on stdout. */
  method PrintFieldLines(fields: seq<FieldDesc>, cells: seq<Cell>) returns (s: string)
    requires |cells| == |fields|
    ensures s == FieldLines(fields, cells)
  {
    s := "";
    for i := 0 to |fields|
      invariant s == FieldLines(fields[..i], cells[..i])
    {
      assert fields[..i + 1][..i] == fields[..i] && cells[..i + 1][..i] == cells[..i];
      s := s + FieldLine(fields[i], cells[i]);
    }
    assert fields[..|fields|] == fields && cells[..|cells|] == cells;
  }

  /** The rhd flag loop: " NONE" for a zero byte, else a name for each set bit. */
  method PrintRhd(rhd: nat) returns (s: string)
    ensures s == RhdText(rhd)
  {
    if rhd == 0 {
      return " NONE";
    }
    s := ListBits(RhdNames, rhd);
  }
}
