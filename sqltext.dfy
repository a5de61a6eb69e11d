/**
 * The two text rules of the SQL data dump (cl_dump_data_sql.c): the quoting of
 * STRING values by clarion_dump_field_string_sql, and the memo text of
 * clarion_dump_memo_entry_sql, whose walk prints only the block that ends the chain,
 * trimmed, collapsed and sanitised.
 */
module SqlText {
  import opened Clarion
  import opened Utils
  import opened Field

  const Quote: byte := 0x27
  const Backslash: byte := 0x5C
  const Newline: byte := 0x0A
  const Return: byte := 0x0D
  const LetterN: byte := 0x6E

  /** Size of the global buffer the escaped string is built in. */
  const TempSize: nat := 32768

  // ---------------------------------------------------------------------------
  // clarion_dump_field_string_sql

  /** What one byte becomes in a quoted SQL string: ' and \ are doubled. */
  function EscapeByte(c: byte): seq<byte>
  {
    if c == Quote || c == Backslash then [c, c] else [c]
  }

  function Escape(s: seq<byte>): (r: seq<byte>)
    ensures |s| <= |r| <= 2 * |s|
  {
    if |s| == 0 then [] else EscapeByte(s[0]) + Escape(s[1..])
  }

  /** Reading a quoted string back: a doubled ' or \ stands for one. */
  function Unescape(t: seq<byte>): seq<byte>
    decreases |t|
  {
    if |t| == 0 then []
    else if (t[0] == Quote || t[0] == Backslash) && |t| >= 2 && t[1] == t[0] then [t[0]] + Unescape(t[2..])
    else [t[0]] + Unescape(t[1..])
  }

  /** Escaping loses nothing: unescaping gives the string back. */
  lemma {:induction false} EscapeRoundTrip(s: seq<byte>)
    ensures Unescape(Escape(s)) == s
  {
    if |s| > 0 {
      EscapeRoundTrip(s[1..]);
      var t := Escape(s);
      assert t == EscapeByte(s[0]) + Escape(s[1..]);
      if s[0] == Quote || s[0] == Backslash {
        assert t[2..] == Escape(s[1..]);
      } else {
        assert t[1..] == Escape(s[1..]);
      }
    }
  }

  /** The escaped string is longer by exactly the number of quotes and backslashes. */
  lemma {:induction false} EscapeLength(s: seq<byte>)
    ensures |Escape(s)| == |s| + multiset(s)[Quote] + multiset(s)[Backslash]
  {
    if |s| > 0 {
      EscapeLength(s[1..]);
      assert s == [s[0]] + s[1..];
      assert multiset(s) == multiset([s[0]]) + multiset(s[1..]);
    }
  }

  /** Escaping a longer prefix appends the escape of the next byte. */
  lemma {:induction false} EscapeSnoc(s: seq<byte>, c: byte)
    ensures Escape(s + [c]) == Escape(s) + EscapeByte(c)
  {
    if |s| == 0 {
      assert [c][1..] == [];
      assert Escape([c]) == EscapeByte(c) + Escape([]);
    } else {
      var t := s + [c];
      assert t[0] == s[0] && t[1..] == s[1..] + [c];
      EscapeSnoc(s[1..], c);
      calc {
        Escape(t);
        EscapeByte(s[0]) + Escape(s[1..] + [c]);
        EscapeByte(s[0]) + (Escape(s[1..]) + EscapeByte(c));
        (EscapeByte(s[0]) + Escape(s[1..])) + EscapeByte(c);
        Escape(s) + EscapeByte(c);
      }
    }
  }

  /** A NUL-free string escapes to a NUL-free string. */
  lemma {:induction false} EscapeNoNul(s: seq<byte>)
    requires 0 !in s
    ensures 0 !in Escape(s)
  {
    if |s| > 0 {
      assert s[0] in s;
      assert forall k :: 0 <= k < |s| - 1 ==> s[1..][k] == s[k + 1];
      EscapeNoNul(s[1..]);
    }
  }

  /** One pass of the copy loop at byte `i` with `j` bytes already doubled; returns the new `j`. */
  method EscapeStep(temp: array<byte>, i: nat, j: nat, c: byte, ghost done: seq<byte>) returns (j': nat)
    requires i + j + |EscapeByte(c)| <= temp.Length && temp[..i + j] == done
    modifies temp
    ensures j' == j + |EscapeByte(c)| - 1 && temp[..i + j' + 1] == done + EscapeByte(c)
  {
    temp[i + j] := c;
    j' := j;
    if c == Quote {
      j' := j' + 1;
      temp[i + j'] := Quote;
    }
    if c == Backslash {
      j' := j' + 1;
      temp[i + j'] := Backslash;
    }
    assert temp[..i + j' + 1] == temp[..i + j] + EscapeByte(c);
  }

  /**
   * The copy loop: every byte of the C string in `buf` (length `len`) goes to `temp`,
   * a quote or backslash twice, and the last pass copies the NUL.
   */
  method EscapeInto(buf: array<byte>, len: nat, temp: array<byte>)
    requires len < buf.Length && buf[len] == 0 && 0 !in buf[..len]
    requires 2 * len + 1 <= temp.Length && buf != temp
    modifies temp
    ensures CStr(temp[..]) == Escape(buf[..len])
  {
    var i: nat, j: nat := 0, 0;
    while i <= len
      invariant i <= len + 1 && j <= i && j <= len
      invariant temp[..i + j] == Escape(buf[..i])
    {
      var c := buf[i];
      assert i < len ==> c != 0 by {
        if i < len { assert buf[..len][i] == c; }
      }
      ghost var e := Escape(buf[..i]);
      j := EscapeStep(temp, i, j, c, e);
      EscapeSnoc(buf[..i], c);
      assert buf[..i + 1] == buf[..i] + [c];
      i := i + 1;
    }
    ghost var p := buf[..len];
    assert buf[..len + 1] == p + [0];
    EscapeSnoc(p, 0);
    EscapeNoNul(p);
    EscapedWithNul(temp[..], Escape(p), i + j);
  }

  /** Once the NUL is copied after `e`, the C string in the buffer is `e`. */
  lemma EscapedWithNul(t: seq<byte>, e: seq<byte>, n: nat)
    requires 0 !in e && n <= |t| && t[..n] == e + [0]
    ensures CStr(t) == e
  {
    assert t[n - 1] == t[..n][|e|] == 0;
    forall k | 0 <= k < n - 1
      ensures t[k] != 0
    {
      assert t[k] == t[..n][k] == e[k];
    }
    CStrAt(t, n - 1);
    assert t[..n - 1] == t[..n][..|e|] == e;
  }

  /**
   * The output of a STRING field in SQL: NULL when nothing is left after trimming,
   * otherwise the escaped text in single quotes.
   */
  function SqlStringField(f: seq<byte>, pos: nat, length: nat): (r: Result<string>)
    ensures r.Ok? <==> pos + length <= |f|
  {
    match FieldBytes(f, pos, length)
    case Ok(b) =>
      var s := CStr(TrimEnd(b));
      Ok(if |s| > 0 then "'" + Text(Escape(s)) + "'" else "NULL")
    case Err(e) => Err(e)
  }

  /** NULL is printed exactly when the field is all spaces or starts with a NUL, as for the text dump. */
  lemma SqlStringNull(f: seq<byte>, pos: nat, length: nat)
    requires pos + length <= |f|
    ensures SqlStringField(f, pos, length) == Ok("NULL") <==> StringField(f, pos, length, None) == Ok("")
  {
    var s := CStr(TrimEnd(f[pos..pos + length]));
    if |s| > 0 {
      assert ("'" + Text(Escape(s)) + "'")[0] == '\'';
    }
  }

  /**
   * clarion_dump_field_string_sql: reads the field, writes a NUL after it, trims it
   * in place, and prints NULL or the escaped copy built in the global buffer.
   */
  method DumpStringSql(buf: array<byte>, f: seq<byte>, pos: nat, length: nat) returns (r: Result<string>)
    requires length < buf.Length && 2 * length + 1 <= TempSize
    modifies buf
    ensures r == SqlStringField(f, pos, length)
  {
    var ok := ReadTrimmed(buf, f, pos, length);
    if !ok {
      return Err(Truncated);
    }
    ghost var s := CStr(buf[..]);
    var len := StrLen(buf, 0);
    CStrAt(buf[..], len);
    assert buf[..len] == s;
    if len == 0 {
      return Ok("NULL");
    }
    var temp := new byte[TempSize];
    EscapeInto(buf, len, temp);
    var e := CStr(temp[..]);
    return Ok("'" + Text(e) + "'");
  }

  // ---------------------------------------------------------------------------
  // clarion_dump_memo_entry_sql

  /** What one memo byte becomes: a newline the two characters \n, a carriage return nothing, ' doubled. */
  function SanitiseByte(c: byte): seq<byte>
  {
    if c == Newline then [Backslash, LetterN]
    else if c == Return then []
    else if c == Quote then [Quote, Quote]
    else [c]
  }

  /** The sanitised text, as the loop builds it from left to right. */
  function Sanitise(s: seq<byte>): (r: seq<byte>)
    ensures |r| <= 2 * |s|
  {
    if |s| == 0 then [] else Sanitise(s[..|s| - 1]) + SanitiseByte(s[|s| - 1])
  }

  /** Sanitised text holds no line break and no NUL that was not already there. */
  lemma {:induction false} SanitiseClean(s: seq<byte>)
    ensures Newline !in Sanitise(s) && Return !in Sanitise(s)
    ensures 0 !in s ==> 0 !in Sanitise(s)
  {
    if |s| > 0 {
      SanitiseClean(s[..|s| - 1]);
      assert 0 !in s ==> 0 !in s[..|s| - 1];
    }
  }

  /** Each newline and quote adds one byte, each carriage return removes one. */
  lemma {:induction false} SanitiseLength(s: seq<byte>)
    ensures |Sanitise(s)| + multiset(s)[Return] == |s| + multiset(s)[Newline] + multiset(s)[Quote]
  {
    if |s| > 0 {
      var p, c := s[..|s| - 1], s[|s| - 1];
      SanitiseLength(p);
      assert s == p + [c];
      assert multiset(s) == multiset(p) + multiset([c]);
      assert |Sanitise(s)| == |Sanitise(p)| + |SanitiseByte(c)|;
      SanitiseByteLength(c);
    }
  }

  lemma SanitiseByteLength(c: byte)
    ensures |SanitiseByte(c)| + multiset([c])[Return] == 1 + multiset([c])[Newline] + multiset([c])[Quote]
  {
  }

  /** One byte of the switch: `j` is where the loop stands; the result is `j` before the loop's own increment. */
  method SanitiseStep(buf: array<byte>, j: nat, c: byte, ghost done: seq<byte>) returns (j': int)
    requires j + 2 <= buf.Length && buf[..j] == done
    requires forall k :: j <= k < buf.Length ==> buf[k] == 0
    modifies buf
    ensures 0 <= j' + 1 <= j + 2 && buf[..j' + 1] == done + SanitiseByte(c)
    ensures forall k :: j' + 1 <= k < buf.Length ==> buf[k] == 0
  {
    if c == Newline {
      buf[j] := Backslash;
      j' := j + 1;
      buf[j'] := LetterN;
    } else if c == Return {
      j' := j - 1;
    } else if c == Quote {
      buf[j] := Quote;
      j' := j + 1;
      buf[j'] := Quote;
    } else {
      buf[j] := c;
      j' := j;
    }
    assert buf[..j' + 1] == buf[..j] + SanitiseByte(c);
  }

  /**
   * The sanitising loop over the C string in `memo` into the zeroed buffer `buf`;
   * `j` goes back one place for a carriage return, so nothing is written for it.
   */
  method SanitiseInto(memo: array<byte>, buf: array<byte>)
    requires memo.Length == MemoTextSize + 1 && 0 in memo[..] && buf != memo
    requires buf.Length == 512 && forall k :: 0 <= k < buf.Length ==> buf[k] == 0
    modifies buf
    ensures CStr(buf[..]) == Sanitise(CStr(memo[..]))
  {
    ghost var m := CStr(memo[..]);
    assert |m| < memo.Length;
    var i: nat, j: int := 0, 0;
    while memo[i] != 0
      invariant i <= |m| && memo[..i] == m[..i] && 0 <= j <= 2 * i
      invariant buf[..j] == Sanitise(m[..i])
      invariant forall k :: j <= k < buf.Length ==> buf[k] == 0
      decreases |m| - i
    {
      var c := memo[i];
      assert i < |m| && m[..i + 1] == m[..i] + [c];
      j := SanitiseStep(buf, j, c, Sanitise(m[..i]));
      i, j := i + 1, j + 1;
    }
    assert m[..i] == m;
    SanitiseClean(m);
    ghost var t := Sanitise(m);
    assert forall k :: 0 <= k < j ==> buf[..][k] == t[k];
    CStrAt(buf[..], j);
  }

  /**
   * The raw text of the block that ends the chain from block `blk`: the walk stops
   * only at a zero next pointer; `fuel` bounds the number of further blocks (a chain
   * that comes back to a block never ends in the source).
   */
  function LastBlock(mem: seq<byte>, blk: nat, fuel: nat): (r: Result<seq<byte>>)
    ensures r.Ok? ==> |r.value| == MemoTextSize
    ensures r.Err? ==> r.error == Truncated || r.error == Looping
    decreases fuel
  {
    if !BlockFits(mem, blk) then Err(Truncated)
    else if NextBlock(mem, blk) == 0 then Ok(BlockBytes(mem, blk))
    else if fuel == 0 then Err(Looping)
    else LastBlock(mem, NextBlock(mem, blk), fuel - 1)
  }

  /** The text of the last block: trimmed, cut at its first NUL, collapsed, then sanitised. */
  function MemoSqlText(raw: seq<byte>): seq<byte>
  {
    Sanitise(Collapse(CStr(raw[..TrimmedLen(raw)])))
  }

  /** The SQL value of a record's memo: NULL for a deleted record or no memo, else the quoted text. */
  function SqlMemo(rh: RecordHeader, mem: seq<byte>, fuel: nat): (r: Result<string>)
    ensures HasMask(rh.rhd, RecordDeleted) || rh.rptr == 0 ==> r == Ok("NULL")
  {
    if HasMask(rh.rhd, RecordDeleted) || rh.rptr == 0 then Ok("NULL")
    else match LastBlock(mem, rh.rptr - 1, fuel)
      case Ok(raw) => Ok("'" + Text(MemoSqlText(raw)) + "'")
      case Err(e) => Err(e)
  }

  /** A quoted SQL memo is one line: the quotes around text with no line break in it. */
  lemma SqlMemoOneLine(rh: RecordHeader, mem: seq<byte>, fuel: nat)
    requires SqlMemo(rh, mem, fuel).Ok? && SqlMemo(rh, mem, fuel) != Ok("NULL")
    ensures var t := SqlMemo(rh, mem, fuel).value;
      |t| >= 2 && t[0] == '\'' && t[|t| - 1] == '\'' && forall k :: 0 <= k < |t| ==> t[k] != '\n' && t[k] != '\r'
  {
    var raw := LastBlock(mem, rh.rptr - 1, fuel).value;
    var s := MemoSqlText(raw);
    SanitiseClean(Collapse(CStr(raw[..TrimmedLen(raw)])));
    var t := "'" + Text(s) + "'";
    forall k | 0 <= k < |t|
      ensures t[k] != '\n' && t[k] != '\r'
    {
      if 0 < k < |t| - 1 {
        assert t[k] == Chr(s[k - 1]);
        assert s[k - 1] in s;
      }
    }
  }

  /**
   * One pass of the do-while loop: the buffer is cleared, the block read, and only
   * a block with a zero next pointer is trimmed, collapsed and sanitised into it.
   */
  method MemoSqlBlock(mem: seq<byte>, blk: nat) returns (nxtblk: nat, text: seq<byte>)
    requires BlockFits(mem, blk)
    ensures nxtblk == NextBlock(mem, blk)
    ensures text == if nxtblk == 0 then MemoSqlText(BlockBytes(mem, blk)) else []
  {
    var buf := new byte[512];
    forall k | 0 <= k < buf.Length {
      buf[k] := 0;
    }
    var memo := new byte[MemoTextSize + 1];
    nxtblk := LoadMemoBlock(memo, mem, blk);
    if nxtblk == 0 {
      CleanLastBlock(memo, buf, BlockBytes(mem, blk));
    } else {
      assert buf[..][0] == 0;
    }
    text := CStr(buf[..]);
  }

  /** The last block, already trimmed in `memo`: collapse its spaces, then sanitise it into `buf`. */
  method CleanLastBlock(memo: array<byte>, buf: array<byte>, ghost raw: seq<byte>)
    requires memo.Length == MemoTextSize + 1 && buf.Length == 512 && buf != memo
    requires CStr(memo[..]) == CStr(raw[..TrimmedLen(raw)]) && |CStr(memo[..])| <= MemoTextSize
    requires forall k :: 0 <= k < buf.Length ==> buf[k] == 0
    modifies memo, buf
    ensures CStr(buf[..]) == MemoSqlText(raw)
  {
    ghost var trimmed := memo[..];
    assert trimmed[|CStr(trimmed)|] == 0;
    SingleSpace(memo);
    CollapseNotLonger(CStr(trimmed));
    ghost var kept := CStr(memo[..]);
    assert memo[..][|kept|] == 0;
    SanitiseInto(memo, buf);
  }

  /** clarion_dump_memo_entry_sql, with at most `fuel` blocks after the first. */
  method DumpMemoSql(rh: RecordHeader, mem: seq<byte>, fuel: nat) returns (r: Result<string>)
    ensures r == SqlMemo(rh, mem, fuel)
  {
    if HasMask(rh.rhd, RecordDeleted) || rh.rptr == 0 {
      return Ok("NULL");
    }
    var out := "'";
    var curblk: nat := rh.rptr - 1;
    ghost var start := curblk;
    var left := fuel;
    while true
      invariant out == "'" && LastBlock(mem, curblk, left) == LastBlock(mem, start, fuel)
      decreases left
    {
      if !BlockFits(mem, curblk) {
        return Err(Truncated);
      }
      var nxtblk, text := MemoSqlBlock(mem, curblk);
      if |text| > 0 {
        out := out + Text(text);
      }
      if nxtblk == 0 {
        if |text| == 0 {
          assert out + Text(text) + "'" == out + "'";
        }
        return Ok(out + "'");
      }
      if left == 0 {
        return Err(Looping);
      }
      curblk, left := nxtblk, left - 1;
    }
  }
}
