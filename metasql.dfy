/**
 * The SQL schema of cl_dump_meta_sql.c: a CREATE TABLE statement with one column per
 * non-GROUP field (a comment for each GROUP), the memo column, then one CREATE INDEX
 * statement per key over the fields its components name.
 */
module MetaSql {
  import opened Clarion
  import opened Utils
  import opened Records
  import opened MetaCsv

  // ---------------------------------------------------------------------------
  // Names

  /** The SQL name of a field or a key: its column name, lowercased. */
  function SqlName(name: seq<byte>): (r: string)
    ensures |r| == |ColumnName(name)|
    ensures forall i :: 0 <= i < |r| ==> !('A' <= r[i] <= 'Z')
  {
    Text(LowerAll(ColumnName(name)))
  }

  /**
   * The name in the unknown-type message: the trimmed name as the lowercasing left
   * it, so the part up to the first ':' keeps its case.
   */
  function MessageName(name: seq<byte>): (r: string)
    ensures |r| == |CStr(TrimEnd(name))|
    ensures r[|r| - |ColumnName(name)|..] == SqlName(name)
  {
    var t := CStr(TrimEnd(name));
    var c := ColumnName(name);
    Text(t[..|t| - |c|]) + SqlName(name)
  }

  /**
   * The name buffer of the schema dump: the 17-byte name copied, trimmed in place,
   * its first ':' found with strchr and what follows it lowercased in place.
   */
  method SqlNameOf(name: seq<byte>) returns (r: string)
    ensures r == SqlName(name)
  {
    var buf := new byte[|name| + 1];
    forall i | 0 <= i < buf.Length {
      buf[i] := if i < |name| then name[i] else 0;
    }
    assert buf[..] == name + [0];
    Trim(buf, |name|);
    TrimmedBufferOfNulAt(name);
    ghost var t := CStr(buf[..]);
    assert t == CStr(TrimEnd(name));
    var start := ColonEnd(buf);
    LowerFrom(buf, start);
    r := Text(CStr(buf[start..]));
  }

  /** Trimming the copy of `name` in a buffer one byte longer leaves the C string of the trimmed name. */
  lemma TrimmedBufferOfNulAt(name: seq<byte>)
    ensures CStr(TrimmedBuffer(name + [0], |name|)) == CStr(TrimEnd(name))
  {
    var b := name + [0];
    assert b[..|name|] == name;
    var n := TrimmedLen(name);
    var t := b[n := 0];
    CStrCut(t, n);
    assert t[..n] == TrimEnd(name);
  }

  /** strchr(buf, ':') + 1, or the start of the buffer when its C string has no ':'. */
  method ColonEnd(buf: array<byte>) returns (start: nat)
    requires 0 in buf[..]
    ensures start <= |CStr(buf[..])|
    ensures CStr(buf[..])[start..] == AfterColon(CStr(buf[..]))
  {
    ghost var t := CStr(buf[..]);
    assert |t| < buf.Length;
    var j := 0;
    while buf[j] != 0 && buf[j] != Colon
      invariant j <= |t| && Colon !in t[..j]
      decreases |t| - j
    {
      assert t[..j + 1] == t[..j] + [t[j]];
      j := j + 1;
    }
    if buf[j] == Colon {
      assert j < |t| && t[j] == Colon;
      FirstColonAt(t, j);
      start := j + 1;
    } else {
      assert j == |t| && t[..j] == t;
      start := 0;
    }
  }

  /** The first ':' is the only one with none before it. */
  lemma FirstColonAt(t: seq<byte>, j: nat)
    requires j < |t| && t[j] == Colon && Colon !in t[..j]
    ensures Colon in t && FirstColon(t) == j
  {
    var k := FirstColon(t);
    InPrefix(t, k, j);
    InPrefix(t, j, k);
  }

  lemma InPrefix(t: seq<byte>, i: nat, j: nat)
    requires i < |t| && j <= |t|
    ensures i < j ==> t[i] in t[..j]
  {
    if i < j {
      assert t[..j][i] == t[i];
    }
  }

  /** The tolower loop over the C string that starts at `start`. */
  method LowerFrom(buf: array<byte>, start: nat)
    requires 0 in buf[..] && start <= |CStr(buf[..])|
    modifies buf
    ensures CStr(buf[start..]) == LowerAll(old(CStr(buf[..]))[start..])
  {
    ghost var t := CStr(buf[..]);
    ghost var b := buf[..];
    assert |t| < buf.Length && buf[|t|] == 0;
    var j := start;
    while buf[j] != 0
      invariant start <= j <= |t|
      invariant forall k :: 0 <= k < buf.Length ==> buf[k] == if start <= k < j then ToLower(b[k]) else b[k]
      decreases |t| - j
    {
      buf[j] := ToLower(buf[j]);
      j := j + 1;
    }
    assert j == |t|;
    ghost var u := buf[start..];
    assert u[|t| - start] == 0;
    CStrCut(u, |t| - start);
    assert u[..|t| - start] == LowerAll(t[start..]);
  }

  /** A name between the quote characters. */
  function Quoted(qb: char, name: string, qe: char): string
  {
    [qb] + name + [qe]
  }

  // ---------------------------------------------------------------------------
  // The column definitions

  /** The SQL type of a field, and none for a type the dump does not know. */
  function SqlType(fd: FieldDesc): (r: Option<string>)
    ensures r.None? <==> !Decoded(fd.fldtype)
    ensures IsString(fd.fldtype) ==> r == Some("VARCHAR(" + NatToString(fd.length) + ")")
    ensures fd.fldtype == FieldDecimal ==> r == Some("NUMERIC(" + NatToString(fd.decsig + 2 + fd.decdec) + "," + NatToString(fd.decdec) + ")")
  {
    if fd.fldtype == FieldLong then Some("BIGINT")
    else if fd.fldtype == FieldReal then Some("FLOAT")
    else if fd.fldtype == FieldString || fd.fldtype == FieldStringPicTok then Some("VARCHAR(" + NatToString(fd.length) + ")")
    else if fd.fldtype == FieldByte || fd.fldtype == FieldShort then Some("SMALLINT")
    else if fd.fldtype == FieldDecimal then Some("NUMERIC(" + NatToString(fd.decsig + 2 + fd.decdec) + "," + NatToString(fd.decdec) + ")")
    else None
  }

  /** The group comment printed for a GROUP field in place of a column. */
  function GroupComment(fd: FieldDesc): string
  {
    "\n-- Next " + NatToString(fd.length) + " columns were part of group named '" + SqlName(fd.fldname) + "'"
  }

  /**
   * The text for field `i` of a table of `total` fields: a GROUP gives its comment; any
   * other field its quoted name, its type and a comma when it is not the table's last.
   */
  function ColumnText(fd: FieldDesc, i: nat, total: nat, qb: char, qe: char): (r: string)
    ensures |r| > 0
    ensures r[|r| - 1] == ',' <==> fd.fldtype != FieldGroup && i < total - 1
  {
    if fd.fldtype == FieldGroup then GroupComment(fd)
    else ColumnDef(fd, qb, qe) + (if i < total - 1 then "," else "")
  }

  /** The definition of a non-GROUP column: its quoted name and its type, nothing for an unknown type. */
  function ColumnDef(fd: FieldDesc, qb: char, qe: char): (r: string)
    ensures |r| > 0 && r[|r| - 1] != ','
  {
    var head := "\n   " + Quoted(qb, SqlName(fd.fldname), qe) + " ";
    match SqlType(fd)
    case None => head
    case Some(t) => head + t
  }

  /** The column texts of the first fields of a table of `total` fields. */
  function Columns(fields: seq<FieldDesc>, total: nat, qb: char, qe: char): string
  {
    if |fields| == 0 then ""
    else
      var n := |fields| - 1;
      Columns(fields[..n], total, qb, qe) + ColumnText(fields[n], n, total, qb, qe)
  }

  /** The stderr note for a field of unknown type. */
  function UnknownTypeNote(fd: FieldDesc): string
  {
    if fd.fldtype == FieldGroup || Decoded(fd.fldtype) then ""
    else "Unknown field type " + NatToString(fd.fldtype) + " for field " + MessageName(fd.fldname) + " !!\n"
  }

  function UnknownTypeNotes(fields: seq<FieldDesc>): string
  {
    if |fields| == 0 then ""
    else UnknownTypeNotes(fields[..|fields| - 1]) + UnknownTypeNote(fields[|fields| - 1])
  }

  /** Every field of known type or GROUP is silent on stderr. */
  lemma {:induction false} KnownTypesSilent(fields: seq<FieldDesc>)
    requires forall j :: 0 <= j < |fields| ==> fields[j].fldtype == FieldGroup || Decoded(fields[j].fldtype)
    ensures UnknownTypeNotes(fields) == ""
  {
    if |fields| > 0 {
      KnownTypesSilent(fields[..|fields| - 1]);
    }
  }

  /** The memo column, last in the table when the memo is shown. */
  function MemoColumnDef(memoShown: bool, qb: char, qe: char): string
  {
    if memoShown then ",\n   " + Quoted(qb, "memo", qe) + " TEXT" else ""
  }

  /** The field loop of clarion_dump_field_desc_sql, stdout and stderr. */
  method PrintColumns(fields: seq<FieldDesc>, qb: char, qe: char) returns (out: string, err: string)
    ensures out == Columns(fields, |fields|, qb, qe)
    ensures err == UnknownTypeNotes(fields)
  {
    out, err := "", "";
    for i := 0 to |fields|
      invariant out == Columns(fields[..i], |fields|, qb, qe)
      invariant err == UnknownTypeNotes(fields[..i])
    {
      assert fields[..i + 1][..i] == fields[..i];
      out := out + ColumnText(fields[i], i, |fields|, qb, qe);
      err := err + UnknownTypeNote(fields[i]);
    }
    assert fields[..|fields|] == fields;
  }

  // ---------------------------------------------------------------------------
  // The indexes

  /** The fields a key component stands for: a GROUP its sub-parts, any other part itself. */
  function Members(part: KeyPart): seq<KeyPart>
  {
    if part.fldtype == FieldGroup then part.subparts else [part]
  }

  /** The members of the components, in order. */
  function Expand(parts: seq<KeyPart>): seq<KeyPart>
  {
    if |parts| == 0 then []
    else Expand(parts[..|parts| - 1]) + Members(parts[|parts| - 1])
  }

  /** A member names an entry of the field table (clfd[fldnum - 1]). */
  predicate MemberOk(fields: seq<FieldDesc>, m: KeyPart)
  {
    1 <= m.fldnum <= |fields|
  }

  predicate RefsOk(fields: seq<FieldDesc>, members: seq<KeyPart>)
  {
    forall k :: 0 <= k < |members| ==> MemberOk(fields, members[k])
  }

  /** Every member of every component names a field. */
  predicate PartsOk(fields: seq<FieldDesc>, parts: seq<KeyPart>)
  {
    forall j :: 0 <= j < |parts| ==> RefsOk(fields, Members(parts[j]))
  }

  lemma {:induction false} ExpandOk(fields: seq<FieldDesc>, parts: seq<KeyPart>)
    requires PartsOk(fields, parts)
    ensures RefsOk(fields, Expand(parts))
  {
    if |parts| > 0 {
      var n := |parts| - 1;
      assert forall j :: 0 <= j < n ==> parts[..n][j] == parts[j];
      ExpandOk(fields, parts[..n]);
      var a, b := Expand(parts[..n]), Members(parts[n]);
      assert forall k :: 0 <= k < |a| + |b| ==> (a + b)[k] == if k < |a| then a[k] else b[k - |a|];
    }
  }

  /** The quoted SQL name of the field a member names. */
  function RefName(fields: seq<FieldDesc>, m: KeyPart, qb: char, qe: char): string
    requires MemberOk(fields, m)
  {
    Quoted(qb, SqlName(fields[m.fldnum - 1].fldname), qe)
  }

  /** The quoted names of the members. */
  function Names(fields: seq<FieldDesc>, members: seq<KeyPart>, qb: char, qe: char): (r: seq<string>)
    requires RefsOk(fields, members)
    ensures |r| == |members|
  {
    seq(|members|, k requires 0 <= k < |members| => RefName(fields, members[k], qb, qe))
  }

  lemma NamesAppend(fields: seq<FieldDesc>, a: seq<KeyPart>, b: seq<KeyPart>, qb: char, qe: char)
    requires RefsOk(fields, a + b)
    ensures RefsOk(fields, a) && RefsOk(fields, b)
    ensures Names(fields, a + b, qb, qe) == Names(fields, a, qb, qe) + Names(fields, b, qb, qe)
  {
    assert forall k :: 0 <= k < |a| ==> a[k] == (a + b)[k];
    assert forall k :: 0 <= k < |b| ==> b[k] == (a + b)[|a| + k];
  }

  /** The inner loop over the members of one component: ", " before each name except the very first of the key. */
  function Cols(names: seq<string>, later: bool): string
  {
    if |names| == 0 then ""
    else
      var m := |names| - 1;
      Cols(names[..m], later) + (if later || m > 0 then ", " else "") + names[m]
  }

  /** The column list of a key: the component loop around the member loop. */
  function KeyCols(fields: seq<FieldDesc>, parts: seq<KeyPart>, qb: char, qe: char): string
    requires PartsOk(fields, parts)
  {
    if |parts| == 0 then ""
    else
      var n := |parts| - 1;
      assert forall j :: 0 <= j < n ==> parts[..n][j] == parts[j];
      KeyCols(fields, parts[..n], qb, qe) + Cols(Names(fields, Members(parts[n]), qb, qe), n > 0)
  }

  /** A list continued after a non-empty list, or after a list that had to lead with ", ". */
  lemma {:induction false} ColsAppend(a: seq<string>, b: seq<string>, lead: bool)
    ensures Cols(a, lead) + Cols(b, true) == Cols(a + b, lead || |a| == 0)
  {
    if |b| > 0 {
      var m := |b| - 1;
      assert (a + b)[..|a| + m] == a + b[..m];
      ColsAppend(a, b[..m], lead);
      var x := Cols(a, lead);
      var y := Cols(b[..m], true);
      assert Cols(b, true) == y + ", " + b[m];
      assert Cols(a + b, lead || |a| == 0) == Cols(a + b[..m], lead || |a| == 0) + ", " + b[m];
      ColsAssoc(x, y, b[m]);
    } else {
      assert a + b == a;
      if |a| == 0 {
        assert Cols(a, lead) == "" && Cols(a, true) == "";
      }
    }
  }

  lemma ColsAssoc(x: string, y: string, v: string)
    ensures x + (y + ", " + v) == x + y + ", " + v
  {
  }

  /** A key whose first component is a GROUP without members leads its list with ", ". */
  predicate LeadingComma(parts: seq<KeyPart>)
  {
    |parts| > 0 && |Members(parts[0])| == 0
  }

  /** The nested loops print the names of all members as one list. */
  lemma {:induction false} KeyColsFlat(fields: seq<FieldDesc>, parts: seq<KeyPart>, qb: char, qe: char)
    requires PartsOk(fields, parts)
    ensures RefsOk(fields, Expand(parts))
    ensures KeyCols(fields, parts, qb, qe) == Cols(Names(fields, Expand(parts), qb, qe), LeadingComma(parts))
  {
    ExpandOk(fields, parts);
    if |parts| > 0 {
      var n := |parts| - 1;
      assert forall j :: 0 <= j < n ==> parts[..n][j] == parts[j];
      var e := Expand(parts[..n]);
      var ms := Members(parts[n]);
      assert Expand(parts) == e + ms;
      NamesAppend(fields, e, ms, qb, qe);
      KeyColsFlat(fields, parts[..n], qb, qe);
      if n == 0 {
        assert e == [] && Names(fields, e, qb, qe) == [];
        assert Names(fields, e, qb, qe) + Names(fields, ms, qb, qe) == Names(fields, ms, qb, qe);
      } else {
        assert parts[..n][0] == parts[0];
        ColsAppend(Names(fields, e, qb, qe), Names(fields, ms, qb, qe), LeadingComma(parts));
        EmptyLead(fields, parts[..n], qb, qe);
      }
    }
  }

  /** After components that gave no member, the list printed so far is empty and must lead with ", ". */
  lemma EmptyLead(fields: seq<FieldDesc>, parts: seq<KeyPart>, qb: char, qe: char)
    requires |parts| > 0 && RefsOk(fields, Expand(parts))
    ensures |Names(fields, Expand(parts), qb, qe)| == 0 ==> LeadingComma(parts)
  {
    ExpandFirst(parts);
  }

  lemma {:induction false} ExpandFirst(parts: seq<KeyPart>)
    requires |parts| > 0
    ensures |Expand(parts)| >= |Members(parts[0])|
  {
    if |parts| > 1 {
      ExpandFirst(parts[..|parts| - 1]);
    }
  }

  /** The list is the names joined by ", ", with a stray leading ", " only behind an empty first GROUP. */
  lemma {:induction false} ColsJoin(names: seq<string>, lead: bool)
    ensures Cols(names, lead) == (if lead && |names| > 0 then ", " else "") + Join(names, ", ")
  {
    if |names| > 0 {
      var m := |names| - 1;
      ColsJoin(names[..m], lead);
      JoinStep(names, m);
      if m == 0 {
        assert Cols(names[..m], lead) == "";
      } else {
        ColsAssoc2(if lead then ", " else "", Join(names[..m], ", "), names[m]);
      }
    }
  }

  lemma JoinStep(names: seq<string>, m: nat)
    requires m + 1 == |names|
    ensures m == 0 ==> Join(names, ", ") == names[0]
    ensures m > 0 ==> Join(names, ", ") == Join(names[..m], ", ") + ", " + names[m]
  {
  }

  lemma ColsAssoc2(l: string, j: string, v: string)
    ensures l + j + ", " + v == l + (j + ", " + v)
  {
  }

  /**
   * The column list of an index is the names of the fields its components stand for,
   * joined by ", "; it leads with ", " only when the first component is a GROUP without members.
   */
  lemma KeyColsJoin(fields: seq<FieldDesc>, parts: seq<KeyPart>, qb: char, qe: char)
    requires PartsOk(fields, parts)
    ensures RefsOk(fields, Expand(parts))
    ensures KeyCols(fields, parts, qb, qe)
      == (if LeadingComma(parts) && |Expand(parts)| > 0 then ", " else "") + Join(Names(fields, Expand(parts), qb, qe), ", ")
  {
    KeyColsFlat(fields, parts, qb, qe);
    ColsJoin(Names(fields, Expand(parts), qb, qe), LeadingComma(parts));
  }

  /** The CREATE INDEX statement of a key. */
  function KeyStatement(fields: seq<FieldDesc>, key: KeyDesc, tbl: string, qb: char, qe: char): string
    requires KeyOk(fields, key)
  {
    KeyVerb(key) + Quoted(qb, tbl + "_" + SqlName(key.keyname), qe) + " ON " + Quoted(qb, tbl, qe) + " ("
      + KeyCols(fields, key.parts, qb, qe) + ");\n"
  }

  function KeyVerb(key: KeyDesc): string
  {
    if HasMask(key.keytype, KeyDupSw) then "CREATE INDEX " else "CREATE UNIQUE INDEX "
  }

  /** The index is UNIQUE exactly when the key does not allow duplicates. */
  lemma KeyStatementUnique(fields: seq<FieldDesc>, key: KeyDesc, tbl: string, qb: char, qe: char)
    requires KeyOk(fields, key)
    ensures |KeyStatement(fields, key, tbl, qb, qe)| > 20
    ensures KeyStatement(fields, key, tbl, qb, qe)[..20] == "CREATE UNIQUE INDEX " <==> !HasMask(key.keytype, KeyDupSw)
  {
    var verb := KeyVerb(key);
    var rest := Quoted(qb, tbl + "_" + SqlName(key.keyname), qe) + " ON " + Quoted(qb, tbl, qe) + " ("
      + KeyCols(fields, key.parts, qb, qe) + ");\n";
    assert KeyStatement(fields, key, tbl, qb, qe) == verb + rest;
    VerbPrefix(verb, rest, HasMask(key.keytype, KeyDupSw));
  }

  lemma VerbPrefix(verb: string, rest: string, dup: bool)
    requires verb == if dup then "CREATE INDEX " else "CREATE UNIQUE INDEX "
    requires |rest| >= 8
    ensures |verb + rest| > 20
    ensures (verb + rest)[..20] == "CREATE UNIQUE INDEX " <==> !dup
  {
    if dup {
      assert (verb + rest)[7] == 'I';
      assert "CREATE UNIQUE INDEX "[7] == 'U';
    } else {
      assert (verb + rest)[..20] == verb;
    }
  }

  /** The statements of the keys, or BadFieldRef when a component names no field. */
  function KeyStatements(fields: seq<FieldDesc>, keys: seq<KeyDesc>, tbl: string, qb: char, qe: char): (r: Result<string>)
    ensures r.Err? ==> r.error == BadFieldRef
    ensures |keys| == 0 ==> r == Ok("")
  {
    if |keys| == 0 then Ok("")
    else
      var n := |keys| - 1;
      match KeyStatements(fields, keys[..n], tbl, qb, qe)
      case Err(e) => Err(e)
      case Ok(ks) =>
        if KeyOk(fields, keys[n]) then Ok(ks + KeyStatement(fields, keys[n], tbl, qb, qe)) else Err(BadFieldRef)
  }

  /** The statements are printed exactly when every component of every key names a field. */
  lemma {:induction false} KeyStatementsOk(fields: seq<FieldDesc>, keys: seq<KeyDesc>, tbl: string, qb: char, qe: char)
    ensures KeyStatements(fields, keys, tbl, qb, qe).Ok? <==> AllKeysOk(fields, keys)
  {
    if |keys| > 0 {
      var n := |keys| - 1;
      KeyStatementsOk(fields, keys[..n], tbl, qb, qe);
      KeyStatementsStep(fields, keys, tbl, qb, qe);
      AllSnoc(fields, keys);
    }
  }

  lemma KeyStatementsStep(fields: seq<FieldDesc>, keys: seq<KeyDesc>, tbl: string, qb: char, qe: char)
    requires |keys| > 0
    ensures KeyStatements(fields, keys, tbl, qb, qe).Ok?
      <==> KeyStatements(fields, keys[..|keys| - 1], tbl, qb, qe).Ok? && KeyOk(fields, keys[|keys| - 1])
  {
  }

  /** A key whose components all name fields. */
  predicate KeyOk(fields: seq<FieldDesc>, key: KeyDesc)
  {
    PartsOk(fields, key.parts)
  }

  /** Every key's components name fields. */
  predicate AllKeysOk(fields: seq<FieldDesc>, keys: seq<KeyDesc>)
  {
    forall i :: 0 <= i < |keys| ==> KeyOk(fields, keys[i])
  }

  lemma AllSnoc(fields: seq<FieldDesc>, keys: seq<KeyDesc>)
    requires |keys| > 0
    ensures AllKeysOk(fields, keys) <==> AllKeysOk(fields, keys[..|keys| - 1]) && KeyOk(fields, keys[|keys| - 1])
  {
    var init := keys[..|keys| - 1];
    assert forall i :: 0 <= i < |init| ==> init[i] == keys[i];
  }

  /**
   * clarion_dump_schema_sql on stdout and stderr: the table statement with its
   * columns and the memo column, then the key statements between blank lines.
   */
  function Schema(tbl: string, fields: seq<FieldDesc>, keys: seq<KeyDesc>, memoShown: bool, qb: char, qe: char): (r: Result<Output>)
    ensures r.Ok? <==> KeyStatements(fields, keys, tbl, qb, qe).Ok?
    ensures r.Ok? ==> r.value.err == UnknownTypeNotes(fields)
  {
    match KeyStatements(fields, keys, tbl, qb, qe)
    case Err(e) => Err(e)
    case Ok(ks) =>
      Ok(Output("CREATE TABLE " + Quoted(qb, tbl, qe) + " (" + Columns(fields, |fields|, qb, qe)
        + MemoColumnDef(memoShown, qb, qe) + "\n);\n" + "\n" + ks + "\n", UnknownTypeNotes(fields)))
  }

  /** The two loops of clarion_dump_key_desc_sql over the components of one key and their members. */
  method PrintKeyCols(fields: seq<FieldDesc>, parts: seq<KeyPart>, qb: char, qe: char) returns (s: string)
    requires PartsOk(fields, parts)
    ensures s == KeyCols(fields, parts, qb, qe)
  {
    s := "";
    for j := 0 to |parts|
      invariant PartsOk(fields, parts[..j])
      invariant s == KeyCols(fields, parts[..j], qb, qe)
    {
      assert parts[..j + 1][..j] == parts[..j];
      assert forall i :: 0 <= i <= j ==> parts[..j + 1][i] == parts[i];
      var t := PrintCols(Names(fields, Members(parts[j]), qb, qe), j > 0);
      s := s + t;
    }
    assert parts[..|parts|] == parts;
  }

  /** The member loop: ", " before a name unless it is the first member of the first component. */
  method PrintCols(names: seq<string>, later: bool) returns (t: string)
    ensures t == Cols(names, later)
  {
    t := "";
    for k := 0 to |names|
      invariant t == Cols(names[..k], later)
    {
      assert names[..k + 1][..k] == names[..k];
      t := t + (if later || k > 0 then ", " else "") + names[k];
    }
    assert names[..|names|] == names;
  }
}
