/**
 * The CSV data dump of cl_dump_data_csv.c: for each record read, the values of the
 * non-GROUP fields with the separator printed before every field but the first of
 * the table, then the memo column and a newline. Values are printed raw, so one
 * holding a newline spreads the record over several lines.
 */
module DataCsv {
  import opened Clarion
  import opened Records

  /**
   * The columns of a CSV line: each present item is printed with the separator
   * before it unless it is item 0; an absent (GROUP) item prints nothing.
   */
  function CsvCols(items: seq<Option<string>>, sep: char): string
  {
    if |items| == 0 then ""
    else
      var n := |items| - 1;
      CsvCols(items[..n], sep) + (if items[n].None? then "" else (if n > 0 then [sep] else "") + items[n].value)
  }

  /** The line starts with a separator: item 0 is absent and a later one present. */
  predicate LeadingSep(items: seq<Option<string>>)
  {
    |items| > 0 && items[0].None? && |Present(items)| > 0
  }

  /**
   * The columns are the present items joined by the separator, with one separator in
   * front when the first field is a GROUP and another field is printed.
   */
  lemma {:induction false} CsvColsJoin(items: seq<Option<string>>, sep: char)
    ensures CsvCols(items, sep) == (if LeadingSep(items) then [sep] else "") + Join(Present(items), [sep])
  {
    if |items| > 0 {
      var n := |items| - 1;
      var init := items[..n];
      CsvColsJoin(init, sep);
      var p := Present(init);
      LastItem(items, sep);
      if items[n].Some? {
        var v := items[n].value;
        JoinSnoc(p, v, [sep]);
        if n > 0 {
          LeadAfterPresent(items);
          if |p| == 0 {
            assert CsvCols(init, sep) == "";
          } else {
            var lead: string := if LeadingSep(init) then [sep] else "";
            StringAssoc(lead, Join(p, [sep]), sep, v);
          }
        }
      }
    }
  }

  /** How the last item extends the columns, the present items and the leading separator. */
  lemma LastItem(items: seq<Option<string>>, sep: char)
    requires |items| > 0
    ensures var n := |items| - 1;
      && (items[n].None? ==> CsvCols(items, sep) == CsvCols(items[..n], sep)
                             && Present(items) == Present(items[..n])
                             && LeadingSep(items) == LeadingSep(items[..n]))
      && (items[n].Some? ==> CsvCols(items, sep) == CsvCols(items[..n], sep) + ((if n > 0 then [sep] else "") + items[n].value)
                             && Present(items) == Present(items[..n]) + [items[n].value])
      && (items[n].Some? && n == 0 ==> !LeadingSep(items) && Present(items[..n]) == [])
  {
    var n := |items| - 1;
    if n > 0 {
      assert items[..n][0] == items[0];
    }
    if items[n].None? {
      assert CsvCols(items, sep) == CsvCols(items[..n], sep) + "";
      assert Present(items) == Present(items[..n]) + [];
    }
  }

  /** A present item after others: the line leads with a separator when none before it was present, or when the prefix did. */
  lemma LeadAfterPresent(items: seq<Option<string>>)
    requires |items| > 1 && items[|items| - 1].Some?
    requires Present(items) == Present(items[..|items| - 1]) + [items[|items| - 1].value]
    ensures LeadingSep(items) == (|Present(items[..|items| - 1])| == 0 || LeadingSep(items[..|items| - 1]))
  {
    var n := |items| - 1;
    assert items[..n][0] == items[0];
    if |Present(items[..n])| == 0 {
      PresentEmpty(items[..n]);
      assert items[..n][0].None?;
    }
  }

  lemma StringAssoc(a: string, b: string, c: char, d: string)
    ensures a + b + ([c] + d) == a + (b + [c] + d)
  {
  }

  /** Joining one more element. */
  lemma JoinSnoc(p: seq<string>, v: string, sep: string)
    ensures |p| == 0 ==> Join(p + [v], sep) == v
    ensures |p| > 0 ==> Join(p + [v], sep) == Join(p, sep) + sep + v
  {
    assert (p + [v])[..|p|] == p;
  }

  /** What clarion_dump_data_csv prints for a read record: the columns, the memo column, the line end. */
  function CsvOutput(sep: char, cells: seq<Cell>, memo: Option<string>): (r: Output)
    ensures |r.out| > 0 && r.out[|r.out| - 1] == '\n'
  {
    var memoCol := if memo.Some? then [sep] + memo.value else "";
    Output(CsvCols(Items(cells), sep) + memoCol + "\n", UnknownNotes(cells))
  }

  /** The field loop's printing: the separator before each non-GROUP field but field 0, then the value. */
  method PrintCsvCols(items: seq<Option<string>>, sep: char) returns (s: string)
    ensures s == CsvCols(items, sep)
  {
    s := "";
    for i := 0 to |items|
      invariant s == CsvCols(items[..i], sep)
    {
      assert items[..i + 1][..i] == items[..i];
      if items[i].Some? {
        var col := (if i > 0 then [sep] else "") + items[i].value;
        s := s + col;
      } else {
        assert s + "" == s;
      }
    }
    assert items[..|items|] == items;
  }
}
