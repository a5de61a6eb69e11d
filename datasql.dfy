/**
 * The SQL data dump of cl_dump_data_sql.c: the table name derived from the data file
 * path, and one INSERT statement per record read, preceded by a comment listing the
 * flags of a deleted record.
 */
module DataSql {
  import opened Clarion
  import opened DumpMeta
  import opened Records
  import opened DumpData
  import opened DataCsv

  // ---------------------------------------------------------------------------
  // The table name

  /** tolower on one character of the path: only 'A'..'Z' change. */
  function LowerChar(c: char): char
  {
    if 'A' <= c <= 'Z' then (c as int + 32) as char else c
  }

  function LowerText(s: string): (r: string)
    ensures |r| == |s|
    ensures forall i :: 0 <= i < |s| ==> r[i] == LowerChar(s[i])
  {
    seq(|s|, i requires 0 <= i < |s| => LowerChar(s[i]))
  }

  /** What follows the last '/' of a path, or the whole path when it has none (strrchr). */
  function AfterLastSlash(s: string): (r: string)
    ensures |r| <= |s| && r == s[|s| - |r|..]
    ensures '/' !in r
    ensures |r| < |s| ==> s[|s| - |r| - 1] == '/'
  {
    if |s| == 0 then ""
    else if s[|s| - 1] == '/' then ""
    else AfterLastSlash(s[..|s| - 1]) + [s[|s| - 1]]
  }

  /**
   * The table name: the data file path without its last four characters (the
   * extension), from after its last '/', lowercased.
   */
  function TableName(datfile: string): (r: string)
    requires |datfile| >= 4
    ensures |r| <= |datfile| - 4
    ensures '/' !in r
    ensures forall i :: 0 <= i < |r| ==> !('A' <= r[i] <= 'Z')
  {
    LowerText(AfterLastSlash(datfile[..|datfile| - 4]))
  }

  /** The part after a '/' that is the last one: any suffix without a '/' that follows a '/' or starts the string. */
  lemma AfterLastSlashAt(s: string, start: nat)
    requires start <= |s| && '/' !in s[start..]
    requires start == 0 || s[start - 1] == '/'
    ensures AfterLastSlash(s) == s[start..]
  {
  }

  /** The name is the last path component of the stem, lowercased: the directories are dropped. */
  lemma TableNameOfComponent(dir: string, base: string, ext: string)
    requires |ext| == 4 && '/' !in base
    ensures TableName(dir + "/" + base + ext) == LowerText(base)
  {
    var path := dir + "/" + base + ext;
    var stem := path[..|path| - 4];
    assert stem == dir + "/" + base;
    assert stem[|dir| + 1..] == base;
    AfterLastSlashAt(stem, |dir| + 1);
  }

  /** strrchr: the index just after the last '/' of `s`, or 0 when it has none. */
  method LastSlashEnd(s: string) returns (start: nat)
    ensures start <= |s| && '/' !in s[start..]
    ensures start == 0 || s[start - 1] == '/'
  {
    start := |s|;
    while start > 0 && s[start - 1] != '/'
      invariant start <= |s| && '/' !in s[start..]
    {
      assert s[start - 1..] == [s[start - 1]] + s[start..];
      start := start - 1;
    }
  }

  /** The table name computed as clarion_dump_data_sql does: cut the extension, find the last '/', lowercase in place. */
  method TableNameOf(datfile: string) returns (name: string)
    requires |datfile| >= 4
    ensures name == TableName(datfile)
  {
    var stem := datfile[..|datfile| - 4];
    var start := LastSlashEnd(stem);
    AfterLastSlashAt(stem, start);
    var base := stem[start..];
    name := LowerInPlace(base);
  }

  /** The tolower loop over the name. */
  method LowerInPlace(s: string) returns (r: string)
    ensures r == LowerText(s)
  {
    r := s;
    for i := 0 to |s|
      invariant |r| == |s|
      invariant forall k :: 0 <= k < i ==> r[k] == LowerChar(s[k])
      invariant forall k :: i <= k < |s| ==> r[k] == s[k]
    {
      r := r[i := LowerChar(s[i])];
    }
  }

  // ---------------------------------------------------------------------------
  // The values of an INSERT

  /**
   * The values of the first items of a record of `total` fields: each present item
   * is followed by ", " unless it belongs to the last field of the table.
   */
  function SqlCols(items: seq<Option<string>>, total: nat): string
  {
    if |items| == 0 then ""
    else
      var n := |items| - 1;
      SqlCols(items[..n], total) + (if items[n].None? then "" else items[n].value + (if n < total - 1 then ", " else ""))
  }

  function SqlValues(items: seq<Option<string>>): string
  {
    SqlCols(items, |items|)
  }

  /** Before the last field, every printed value is followed by ", ". */
  lemma {:induction false} SqlColsBeforeLast(items: seq<Option<string>>, total: nat)
    requires |items| < total
    ensures SqlCols(items, total) == Join(Present(items), ", ") + (if |Present(items)| > 0 then ", " else "")
  {
    if |items| > 0 {
      var n := |items| - 1;
      var p := Present(items[..n]);
      var j := Join(p, ", ");
      SqlColsBeforeLast(items[..n], total);
      if items[n].Some? {
        var v := items[n].value;
        assert SqlCols(items, total) == SqlCols(items[..n], total) + (v + ", ");
        assert Present(items) == p + [v];
        JoinSnoc(p, v, ", ");
        if |p| > 0 {
          assert SqlCols(items[..n], total) == j + ", ";
          SqlAssoc(j, v);
        } else {
          assert SqlCols(items[..n], total) == "";
        }
      } else {
        assert SqlCols(items, total) == SqlCols(items[..n], total) + "";
        assert Present(items) == Present(items[..n]) + [];
        assert Present(items) == p;
      }
    }
  }

  lemma SqlAssoc(j: string, v: string)
    ensures j + ", " + (v + ", ") == (j + ", " + v) + ", "
  {
  }

  /**
   * The values are the printed items joined by ", ", with a trailing ", " left before
   * the closing parenthesis when the table's last field is a GROUP.
   */
  lemma SqlValuesJoin(items: seq<Option<string>>)
    ensures SqlValues(items) == Join(Present(items), ", ")
      + (if |items| > 0 && items[|items| - 1].None? && |Present(items)| > 0 then ", " else "")
  {
    if |items| > 0 {
      var n := |items| - 1;
      var p := Present(items[..n]);
      var j := Join(p, ", ");
      SqlColsBeforeLast(items[..n], |items|);
      if items[n].Some? {
        var v := items[n].value;
        assert SqlValues(items) == SqlCols(items[..n], |items|) + (v + "");
        assert Present(items) == p + [v];
        JoinSnoc(p, v, ", ");
        if |p| > 0 {
          assert SqlCols(items[..n], |items|) == j + ", ";
        } else {
          assert SqlCols(items[..n], |items|) == "";
        }
      } else {
        assert Present(items) == Present(items[..n]) + [];
        assert Present(items) == p;
        assert SqlValues(items) == SqlCols(items[..n], |items|) + "";
      }
    }
  }

  /** The flag comment printed before the INSERT of a deleted record; it never says NONE. */
  function DeletedComment(rhd: nat): string
  {
    "-- Record attributes:" + AttrItems(RhdNames, rhd, 8) + "\n"
  }

  /**
   * What clarion_dump_data_sql prints for a read record: the flag comment when it is
   * deleted, then the INSERT with the values and the memo column.
   */
  function SqlOutput(qb: char, qe: char, table: string, rh: RecordHeader, cells: seq<Cell>, memo: Option<string>): (r: Output)
    ensures !HasMask(rh.rhd, RecordDeleted) ==> |r.out| >= 12 && r.out[..12] == "INSERT INTO "
    ensures |r.out| >= 3 && r.out[|r.out| - 3..] == ");\n"
  {
    var insert := "INSERT INTO " + [qb] + table + [qe] + " VALUES("
      + SqlValues(Items(cells)) + (if memo.Some? then ", " + memo.value else "") + ");\n";
    Output((if HasMask(rh.rhd, RecordDeleted) then DeletedComment(rh.rhd) else "") + insert, UnknownNotes(cells))
  }

  /** A deleted record's comment lists its DELETED RECORD flag, so it always names at least one flag. */
  lemma DeletedCommentNamesFlag(rhd: nat)
    requires HasMask(rhd, RecordDeleted)
    ensures |DeletedComment(rhd)| > 23 && DeletedComment(rhd)[..23] == "-- Record attributes: ["
  {
    assert BitSet(rhd, 4);
    AttrItemsEmpty(RhdNames, rhd, 8);
    var items := AttrItems(RhdNames, rhd, 8);
    assert items[..2] == " [";
    assert DeletedComment(rhd) == "-- Record attributes:" + (items + "\n");
  }

  /** The value loop: ", " after every non-GROUP field but the table's last. */
  method PrintSqlValues(items: seq<Option<string>>) returns (s: string)
    ensures s == SqlValues(items)
  {
    s := "";
    for i := 0 to |items|
      invariant s == SqlCols(items[..i], |items|)
    {
      assert items[..i + 1][..i] == items[..i];
      if items[i].Some? {
        var col := items[i].value + (if i < |items| - 1 then ", " else "");
        s := s + col;
      } else {
        assert s + "" == s;
      }
    }
    assert items[..|items|] == items;
  }
}
