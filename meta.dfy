/**
 * The metadata parser of cl_meta.c: the 85-byte file header, the 27-byte field
 * descriptors, the key descriptors with their 6-byte parts (and the sub-parts
 * synthesised for GROUP components), the length-prefixed picture strings and the
 * array descriptors with their look-ahead terminator.
 *
 * The data file is a byte sequence `f` and the FILE cursor is a position in it;
 * every reader returns the position it leaves the cursor at. A read that would run
 * past the end of the file gives Err(Truncated).
 */
module Meta {
  import opened Clarion

  /** A parsed value and the cursor position after it. */
  datatype Parsed<T> = Parsed(value: T, next: nat)

  // ---------------------------------------------------------------------------
  // clarion_read_header

  /** The header fields at offset 0, read in order and at their widths. */
  function DecodeHeader(f: seq<byte>): Header
    requires |f| >= HeaderSize
  {
    Header(
      U16(f, 0), U16(f, 2), f[4] as nat, U32(f, 5), U32(f, 9),
      U16(f, 13), U16(f, 15), U16(f, 17), U16(f, 19), U32(f, 21),
      U32(f, 25), U32(f, 29), U32(f, 33),
      f[37..49], f[49..61], f[61..64], f[64..67],
      U16(f, 67), U16(f, 69), U32(f, 71), U32(f, 75), U32(f, 79), U16(f, 83))
  }

  /** clarion_read_header: the signature is checked first, then the whole header is read. */
  function ParseHeader(f: seq<byte>): (r: Result<Header>)
    ensures |f| >= 2 && U16(f, 0) != DataFileSig ==> r == Err(BadSignature)
    ensures r.Ok? <==> |f| >= HeaderSize && U16(f, 0) == DataFileSig
    ensures r.Ok? ==> r.value.filesig == DataFileSig
  {
    if |f| < 2 then Err(Truncated)
    else if U16(f, 0) != DataFileSig then Err(BadSignature)
    else if |f| < HeaderSize then Err(Truncated)
    else Ok(DecodeHeader(f))
  }

  /** Every numeric field fits its on-disk width and every text field has its fixed width. */
  predicate HeaderFits(h: Header)
  {
    h.filesig < 0x1_0000 && h.sfatr < 0x1_0000 && h.numbkeys < 256 &&
    h.numrecs < 0x1_0000_0000 && h.numdels < 0x1_0000_0000 &&
    h.numflds < 0x1_0000 && h.numpics < 0x1_0000 && h.numarrs < 0x1_0000 &&
    h.reclen < 0x1_0000 && h.offset < 0x1_0000_0000 && h.logeof < 0x1_0000_0000 &&
    h.logbof < 0x1_0000_0000 && h.freerec < 0x1_0000_0000 &&
    |h.recname| == 12 && |h.memnam| == 12 && |h.filpre| == 3 && |h.recpre| == 3 &&
    h.memolen < 0x1_0000 && h.memowid < 0x1_0000 && h.reserved < 0x1_0000_0000 &&
    h.chgtime < 0x1_0000_0000 && h.chgdate < 0x1_0000_0000 && h.reserved2 < 0x1_0000
  }

  /** Byte `i` of the 85 bytes a header occupies on disk. */
  function HeaderByte(h: Header, i: nat): byte
    requires HeaderFits(h) && i < HeaderSize
  {
    if i < 2 then Enc16(h.filesig)[i]
    else if i < 4 then Enc16(h.sfatr)[i - 2]
    else if i == 4 then h.numbkeys as byte
    else if i < 9 then Enc32(h.numrecs)[i - 5]
    else if i < 13 then Enc32(h.numdels)[i - 9]
    else if i < 15 then Enc16(h.numflds)[i - 13]
    else if i < 17 then Enc16(h.numpics)[i - 15]
    else if i < 19 then Enc16(h.numarrs)[i - 17]
    else if i < 21 then Enc16(h.reclen)[i - 19]
    else if i < 25 then Enc32(h.offset)[i - 21]
    else if i < 29 then Enc32(h.logeof)[i - 25]
    else if i < 33 then Enc32(h.logbof)[i - 29]
    else if i < 37 then Enc32(h.freerec)[i - 33]
    else if i < 49 then h.recname[i - 37]
    else if i < 61 then h.memnam[i - 49]
    else if i < 64 then h.filpre[i - 61]
    else if i < 67 then h.recpre[i - 64]
    else if i < 69 then Enc16(h.memolen)[i - 67]
    else if i < 71 then Enc16(h.memowid)[i - 69]
    else if i < 75 then Enc32(h.reserved)[i - 71]
    else if i < 79 then Enc32(h.chgtime)[i - 75]
    else if i < 83 then Enc32(h.chgdate)[i - 79]
    else Enc16(h.reserved2)[i - 83]
  }

  /** The 85 bytes a header occupies on disk. */
  function EncodeHeader(h: Header): (r: seq<byte>)
    requires HeaderFits(h)
    ensures |r| == HeaderSize
  {
    seq(HeaderSize, i requires 0 <= i < HeaderSize => HeaderByte(h, i))
  }

  lemma U16Of(s: seq<byte>, i: nat, x: nat)
    requires x < 0x1_0000 && i + 2 <= |s| && s[i..i + 2] == Enc16(x)
    ensures U16(s, i) == x
  {
    U16Enc16(x);
    assert U16(s, i) == U16(s[i..i + 2], 0);
  }

  lemma U32Of(s: seq<byte>, i: nat, x: nat)
    requires x < 0x1_0000_0000 && i + 4 <= |s| && s[i..i + 4] == Enc32(x)
    ensures U32(s, i) == x
  {
    U32Enc32(x);
    assert U16(s, i) == U16(s[i..i + 4], 0);
    assert U16(s, i + 2) == U16(s[i..i + 4], 2);
  }

  /** The 16-bit field encoded at `i` of an encoded header reads back. */
  lemma HeaderU16(h: Header, i: nat, x: nat)
    requires HeaderFits(h) && x < 0x1_0000 && i + 2 <= HeaderSize
    requires HeaderByte(h, i) == Enc16(x)[0] && HeaderByte(h, i + 1) == Enc16(x)[1]
    ensures U16(EncodeHeader(h), i) == x
  {
    var e := EncodeHeader(h);
    assert e[i..i + 2] == Enc16(x);
    U16Of(e, i, x);
  }

  /** The 32-bit field encoded at `i` of an encoded header reads back. */
  lemma HeaderU32(h: Header, i: nat, x: nat)
    requires HeaderFits(h) && x < 0x1_0000_0000 && i + 4 <= HeaderSize
    requires forall k :: 0 <= k < 4 ==> HeaderByte(h, i + k) == Enc32(x)[k]
    ensures U32(EncodeHeader(h), i) == x
  {
    var e := EncodeHeader(h);
    assert e[i..i + 4] == Enc32(x) by {
      forall k | 0 <= k < 4 ensures e[i..i + 4][k] == Enc32(x)[k] {
        assert e[i + k] == HeaderByte(h, i + k);
      }
    }
    U32Of(e, i, x);
  }

  /** The text field encoded at `i` of an encoded header reads back. */
  lemma HeaderText(h: Header, i: nat, t: seq<byte>)
    requires HeaderFits(h) && i + |t| <= HeaderSize
    requires forall k :: 0 <= k < |t| ==> HeaderByte(h, i + k) == t[k]
    ensures EncodeHeader(h)[i..i + |t|] == t
  {
    var e := EncodeHeader(h);
    forall k | 0 <= k < |t| ensures e[i..i + |t|][k] == t[k] {
      assert e[i + k] == HeaderByte(h, i + k);
    }
  }

  lemma HeaderCountsRead(h: Header)
    requires HeaderFits(h)
    ensures var e := EncodeHeader(h);
      U16(e, 0) == h.filesig && U16(e, 2) == h.sfatr && e[4] as nat == h.numbkeys &&
      U32(e, 5) == h.numrecs && U32(e, 9) == h.numdels && U16(e, 13) == h.numflds
  {
    HeaderU16(h, 0, h.filesig);
    HeaderU16(h, 2, h.sfatr);
    HeaderU32(h, 5, h.numrecs);
    HeaderU32(h, 9, h.numdels);
    HeaderU16(h, 13, h.numflds);
  }

  lemma HeaderLayoutRead(h: Header)
    requires HeaderFits(h)
    ensures var e := EncodeHeader(h);
      U16(e, 15) == h.numpics && U16(e, 17) == h.numarrs && U16(e, 19) == h.reclen &&
      U32(e, 21) == h.offset && U32(e, 25) == h.logeof && U32(e, 29) == h.logbof && U32(e, 33) == h.freerec
  {
    HeaderU16(h, 15, h.numpics);
    HeaderU16(h, 17, h.numarrs);
    HeaderU16(h, 19, h.reclen);
    HeaderU32(h, 21, h.offset);
    HeaderU32(h, 25, h.logeof);
    HeaderU32(h, 29, h.logbof);
    HeaderU32(h, 33, h.freerec);
  }

  lemma HeaderNamesRead(h: Header)
    requires HeaderFits(h)
    ensures var e := EncodeHeader(h);
      e[37..49] == h.recname && e[49..61] == h.memnam && e[61..64] == h.filpre && e[64..67] == h.recpre
  {
    HeaderText(h, 37, h.recname);
    HeaderText(h, 49, h.memnam);
    HeaderText(h, 61, h.filpre);
    HeaderText(h, 64, h.recpre);
  }

  lemma HeaderTailRead(h: Header)
    requires HeaderFits(h)
    ensures var e := EncodeHeader(h);
      U16(e, 67) == h.memolen && U16(e, 69) == h.memowid && U32(e, 71) == h.reserved &&
      U32(e, 75) == h.chgtime && U32(e, 79) == h.chgdate && U16(e, 83) == h.reserved2
  {
    HeaderU16(h, 67, h.memolen);
    HeaderU16(h, 69, h.memowid);
    HeaderU32(h, 71, h.reserved);
    HeaderU32(h, 75, h.chgtime);
    HeaderU32(h, 79, h.chgdate);
    HeaderU16(h, 83, h.reserved2);
  }

  /** Reading back an encoded header gives the same header. */
  lemma ParseEncodeHeader(h: Header)
    requires HeaderFits(h) && h.filesig == DataFileSig
    ensures ParseHeader(EncodeHeader(h)) == Ok(h)
  {
    HeaderCountsRead(h);
    HeaderLayoutRead(h);
    HeaderNamesRead(h);
    HeaderTailRead(h);
  }

  /** Encoded byte `i` of a parsed header is byte `i` of the file. */
  lemma HeaderByteOfParsed(f: seq<byte>, i: nat)
    requires |f| >= HeaderSize && i < HeaderSize && HeaderFits(DecodeHeader(f))
    ensures HeaderByte(DecodeHeader(f), i) == f[i]
  {
    if i < 2 { Enc16U16(f, 0); }
    else if i < 4 { Enc16U16(f, 2); }
    else if i == 4 { }
    else if i < 9 { Enc32U32(f, 5); }
    else if i < 13 { Enc32U32(f, 9); }
    else if i < 15 { Enc16U16(f, 13); }
    else if i < 17 { Enc16U16(f, 15); }
    else if i < 19 { Enc16U16(f, 17); }
    else if i < 21 { Enc16U16(f, 19); }
    else if i < 25 { Enc32U32(f, 21); }
    else if i < 29 { Enc32U32(f, 25); }
    else if i < 33 { Enc32U32(f, 29); }
    else if i < 37 { Enc32U32(f, 33); }
    else if i < 67 { }
    else if i < 69 { Enc16U16(f, 67); }
    else if i < 71 { Enc16U16(f, 69); }
    else if i < 75 { Enc32U32(f, 71); }
    else if i < 79 { Enc32U32(f, 75); }
    else if i < 83 { Enc32U32(f, 79); }
    else { Enc16U16(f, 83); }
  }

  /** A parsed header is exactly the first 85 bytes of the file: nothing else is read. */
  lemma EncodeParsedHeader(f: seq<byte>)
    requires ParseHeader(f).Ok?
    ensures HeaderFits(ParseHeader(f).value)
    ensures EncodeHeader(ParseHeader(f).value) == f[..HeaderSize]
  {
    var h := ParseHeader(f).value;
    U16Bound(f, 0); U16Bound(f, 2); U16Bound(f, 13); U16Bound(f, 15); U16Bound(f, 17);
    U16Bound(f, 19); U16Bound(f, 67); U16Bound(f, 69); U16Bound(f, 83);
    U32Bound(f, 5); U32Bound(f, 9); U32Bound(f, 21); U32Bound(f, 25); U32Bound(f, 29);
    U32Bound(f, 33); U32Bound(f, 71); U32Bound(f, 75); U32Bound(f, 79);
    assert HeaderFits(h);
    forall i | 0 <= i < HeaderSize ensures EncodeHeader(h)[i] == f[i] {
      HeaderByteOfParsed(f, i);
    }
  }

  // ---------------------------------------------------------------------------
  // clarion_read_field_desc

  /** The 27-byte field descriptor at `p`; the array list starts empty (arr = NULL, nbarrs = 0). */
  function DecodeFieldDesc(f: seq<byte>, p: nat): FieldDesc
    requires p + FieldDescSize <= |f|
  {
    FieldDesc(f[p] as nat, f[p + 1..p + 17], U16(f, p + 17), U16(f, p + 19),
              f[p + 21] as nat, f[p + 22] as nat, U16(f, p + 23), U16(f, p + 25), [])
  }

  predicate FieldFits(d: FieldDesc)
  {
    d.fldtype < 256 && |d.fldname| == 16 && d.foffset < 0x1_0000 && d.length < 0x1_0000 &&
    d.decsig < 256 && d.decdec < 256 && d.arrnum < 0x1_0000 && d.picnum < 0x1_0000
  }

  function EncodeFieldDesc(d: FieldDesc): (r: seq<byte>)
    requires FieldFits(d)
    ensures |r| == FieldDescSize
  {
    [d.fldtype as byte] + d.fldname + Enc16(d.foffset) + Enc16(d.length) +
    [d.decsig as byte, d.decdec as byte] + Enc16(d.arrnum) + Enc16(d.picnum)
  }

  /** Both halves of a concatenation are slices of it. */
  lemma AppendParts(a: seq<byte>, b: seq<byte>)
    ensures (a + b)[..|a|] == a && (a + b)[|a|..] == b
  {
  }

  /** Reading back an encoded field descriptor gives the same descriptor. */
  lemma DecodeEncodeFieldDesc(d: FieldDesc)
    requires FieldFits(d) && d.arrs == []
    ensures DecodeFieldDesc(EncodeFieldDesc(d), 0) == d
  {
    var e := EncodeFieldDesc(d);
    var e0 := [d.fldtype as byte] + d.fldname;
    var e1 := e0 + Enc16(d.foffset);
    var e2 := e1 + Enc16(d.length);
    var e3 := e2 + [d.decsig as byte, d.decdec as byte];
    var e4 := e3 + Enc16(d.arrnum);
    assert e == e4 + Enc16(d.picnum);
    AppendParts(e4, Enc16(d.picnum));
    AppendParts(e3, Enc16(d.arrnum));
    AppendParts(e1, Enc16(d.length));
    AppendParts(e0, Enc16(d.foffset));
    assert e[17..19] == e1[17..19];
    assert e[19..21] == e2[19..21];
    assert e[23..25] == e4[23..25];
    U16Of(e, 17, d.foffset);
    U16Of(e, 19, d.length);
    U16Of(e, 23, d.arrnum);
    U16Of(e, 25, d.picnum);
  }

  /** `p + FieldDescSize * k` grows with `k`. */
  lemma FieldSlot(p: nat, k: nat, n: nat)
    requires k < n
    ensures p + FieldDescSize * k + FieldDescSize <= p + FieldDescSize * n
  {
  }

  /**
   * The field table: `n` descriptors of 27 bytes each from `pos`. A zero count
   * reads nothing; a table that does not fit in the file is a short read.
   */
  function FieldTable(f: seq<byte>, pos: nat, n: nat): (r: Result<Parsed<seq<FieldDesc>>>)
    ensures r.Ok? <==> n == 0 || pos + FieldDescSize * n <= |f|
    ensures r.Err? ==> r.error == Truncated
    ensures r.Ok? ==> r.value.next == pos + FieldDescSize * n && |r.value.value| == n
    ensures r.Ok? ==> forall i :: 0 <= i < n ==>
      pos + FieldDescSize * i + FieldDescSize <= |f| && r.value.value[i] == DecodeFieldDesc(f, pos + FieldDescSize * i)
    ensures r.Ok? ==> forall i :: 0 <= i < n ==> r.value.value[i].arrs == []
  {
    if n == 0 then Ok(Parsed([], pos))
    else if pos + FieldDescSize * n > |f| then Err(Truncated)
    else
      Ok(Parsed(seq(n, i requires 0 <= i < n =>
                      FieldSlot(pos, i, n); DecodeFieldDesc(f, pos + FieldDescSize * i)),
                pos + FieldDescSize * n))
  }

  /** clarion_read_field_desc: the descriptors are read one after the other. */
  method ReadFieldDescs(f: seq<byte>, pos: nat, n: nat) returns (r: Result<Parsed<seq<FieldDesc>>>)
    ensures r == FieldTable(f, pos, n)
  {
    if n == 0 {
      return Ok(Parsed([], pos));
    }
    if pos + FieldDescSize * n > |f| {
      return Err(Truncated);
    }
    var fields: seq<FieldDesc> := [];
    var cur := pos;
    var i := 0;
    while i < n
      invariant 0 <= i <= n && cur == pos + FieldDescSize * i && |fields| == i
      invariant forall k :: 0 <= k < i ==> fields[k] == DecodeFieldDesc(f, pos + FieldDescSize * k)
    {
      FieldSlot(pos, i, n);
      fields := fields + [DecodeFieldDesc(f, cur)];
      cur := cur + FieldDescSize;
      i := i + 1;
    }
    assert fields == FieldTable(f, pos, n).value.value;
    return Ok(Parsed(fields, cur));
  }

  // ---------------------------------------------------------------------------
  // clarion_read_key_desc

  /** The key file of key `i`: the last three characters become 'K' and (i+1) in two hex digits. */
  function KeyFileName(datfile: string, i: nat): (r: string)
    requires |datfile| >= 3 && i < 255
    ensures |r| == |datfile|
  {
    datfile[..|datfile| - 3] + ['K', HexChar((i + 1) / 16), HexChar((i + 1) % 16)]
  }

  /** The key file name keeps the data file name but its suffix, and its hex suffix spells i+1. */
  lemma KeyFileNameSpellsIndex(datfile: string, i: nat)
    requires |datfile| >= 3 && i < 255
    ensures var r := KeyFileName(datfile, i);
      r[..|r| - 3] == datfile[..|datfile| - 3] && r[|r| - 3] == 'K' &&
      16 * HexValue(r[|r| - 2]) + HexValue(r[|r| - 1]) == i + 1
  {
  }

  /** Distinct keys have distinct key files. */
  lemma KeyFileNamesDistinct(datfile: string, i: nat, j: nat)
    requires |datfile| >= 3 && i < 255 && j < 255 && i != j
    ensures KeyFileName(datfile, i) != KeyFileName(datfile, j)
  {
    KeyFileNameSpellsIndex(datfile, i);
    KeyFileNameSpellsIndex(datfile, j);
  }

  /**
   * The key type of key `i`: byte 29 of its key file, or 0xff when that file cannot
   * be opened. `keyfiles` maps the name of every key file that opens to that byte.
   */
  function KeyType(datfile: string, i: nat, keyfiles: map<string, byte>): (t: nat)
    requires |datfile| >= 3 && i < 255
  {
    var name := KeyFileName(datfile, i);
    if name in keyfiles then keyfiles[name] as nat else KeyTypeError
  }

  /** Field number `fldnum + 1 + k` as the uint16_t assignment stores it. */
  function SubNum(fldnum: nat, k: nat): nat
  {
    (fldnum + 1 + k) % 0x1_0000
  }

  /** `fldnum` names an entry of the field table (clfd[fldnum - 1]). */
  predicate FieldRef(fields: seq<FieldDesc>, fldnum: nat)
  {
    1 <= fldnum <= |fields|
  }

  /** Sub-part for field number `n`: its type, offset and (uint8_t) length copied from that field. */
  function SubpartOf(fields: seq<FieldDesc>, n: nat): (p: KeyPart)
    requires FieldRef(fields, n)
  {
    var d := fields[n - 1];
    KeyPart(d.fldtype, n, d.foffset, d.length % 256, [])
  }

  /** Every sub-part of a GROUP component at `fldnum` names an entry of the field table. */
  predicate GroupRefsOk(fields: seq<FieldDesc>, fldnum: nat)
  {
    FieldRef(fields, fldnum) &&
    forall k :: 0 <= k < fields[fldnum - 1].length ==> FieldRef(fields, SubNum(fldnum, k))
  }

  /** The sub-parts of a GROUP component: one per unit of the group field's `length`. */
  function Subparts(fields: seq<FieldDesc>, fldnum: nat): (r: Result<seq<KeyPart>>)
    ensures r.Ok? <==> GroupRefsOk(fields, fldnum)
    ensures r.Err? ==> r.error == BadFieldRef
  {
    if !GroupRefsOk(fields, fldnum) then Err(BadFieldRef)
    else Ok(seq(fields[fldnum - 1].length, k requires 0 <= k < fields[fldnum - 1].length => SubpartOf(fields, SubNum(fldnum, k))))
  }

  /** The sub-part loop of clarion_read_key_desc. */
  method CollectSubparts(fields: seq<FieldDesc>, fldnum: nat) returns (r: Result<seq<KeyPart>>)
    ensures r.Ok? <==> GroupRefsOk(fields, fldnum)
    ensures r.Ok? ==> |r.value| == fields[fldnum - 1].length
    ensures r.Ok? ==> forall k :: 0 <= k < |r.value| ==>
      r.value[k].fldnum == SubNum(fldnum, k) && r.value[k] == SubpartOf(fields, SubNum(fldnum, k))
    ensures r.Err? ==> r.error == BadFieldRef
    ensures r == Subparts(fields, fldnum)
  {
    if !FieldRef(fields, fldnum) {
      return Err(BadFieldRef);
    }
    var numparts := fields[fldnum - 1].length;
    var subpart: seq<KeyPart> := [];
    var k := 0;
    while k < numparts
      invariant 0 <= k <= numparts && |subpart| == k
      invariant forall m :: 0 <= m < k ==> FieldRef(fields, SubNum(fldnum, m))
      invariant forall m :: 0 <= m < k ==> subpart[m] == SubpartOf(fields, SubNum(fldnum, m))
    {
      var n := SubNum(fldnum, k);
      if !FieldRef(fields, n) {
        return Err(BadFieldRef);
      }
      subpart := subpart + [SubpartOf(fields, n)];
      k := k + 1;
    }
    assert subpart == Subparts(fields, fldnum).value;
    return Ok(subpart);
  }

  /** The 6-byte key part at `p`; a GROUP part gets its sub-parts, any other part none. */
  function PartAt(f: seq<byte>, p: nat, fields: seq<FieldDesc>): (r: Result<KeyPart>)
    requires p + KeyPartSize <= |f|
    ensures r.Ok? ==> r.value.fldtype == f[p] as nat && r.value.fldnum == U16(f, p + 1)
    ensures r.Ok? <==> f[p] as nat != FieldGroup || GroupRefsOk(fields, U16(f, p + 1))
    ensures r.Ok? && f[p] as nat != FieldGroup ==> r.value.subparts == []
    ensures r.Ok? && f[p] as nat == FieldGroup ==> Subparts(fields, U16(f, p + 1)) == Ok(r.value.subparts)
  {
    var fldtype := f[p] as nat;
    var fldnum := U16(f, p + 1);
    if fldtype == FieldGroup then
      match Subparts(fields, fldnum)
      case Err(e) => Err(e)
      case Ok(subs) => Ok(KeyPart(fldtype, fldnum, U16(f, p + 3), f[p + 5] as nat, subs))
    else Ok(KeyPart(fldtype, fldnum, U16(f, p + 3), f[p + 5] as nat, []))
  }

  /** `n` key parts of 6 bytes each from `p`. */
  function PartsFrom(f: seq<byte>, p: nat, n: nat, fields: seq<FieldDesc>): (r: Result<Parsed<seq<KeyPart>>>)
    ensures r.Ok? ==> r.value.next == p + KeyPartSize * n && |r.value.value| == n
    decreases n
  {
    if n == 0 then Ok(Parsed([], p))
    else if p + KeyPartSize > |f| then Err(Truncated)
    else
      match PartAt(f, p, fields)
      case Err(e) => Err(e)
      case Ok(part) =>
        match PartsFrom(f, p + KeyPartSize, n - 1, fields)
        case Err(e) => Err(e)
        case Ok(rest) => Ok(Parsed([part] + rest.value, rest.next))
  }

  /** Part `j` of a successful parse is the 6-byte part at `p + 6j`. */
  lemma {:induction false} PartsFromElements(f: seq<byte>, p: nat, n: nat, fields: seq<FieldDesc>)
    requires PartsFrom(f, p, n, fields).Ok?
    ensures n > 0 ==> p + KeyPartSize * n <= |f|
    ensures forall j :: 0 <= j < n ==>
      PartAt(f, p + KeyPartSize * j, fields) == Ok(PartsFrom(f, p, n, fields).value.value[j])
    decreases n
  {
    if n > 0 {
      PartsFromElements(f, p + KeyPartSize, n - 1, fields);
      var r := PartsFrom(f, p, n, fields).value.value;
      var rest := PartsFrom(f, p + KeyPartSize, n - 1, fields).value.value;
      assert r == [PartAt(f, p, fields).value] + rest;
      forall j | 0 <= j < n
        ensures PartAt(f, p + KeyPartSize * j, fields) == Ok(r[j])
      {
        if j > 0 {
          assert p + KeyPartSize * j == (p + KeyPartSize) + KeyPartSize * (j - 1);
        }
      }
    }
  }

  /** Conversely, parts that all parse give a successful parse. */
  lemma {:induction false} PartsFromOk(f: seq<byte>, p: nat, n: nat, fields: seq<FieldDesc>)
    requires p + KeyPartSize * n <= |f|
    requires forall j :: 0 <= j < n ==> PartAt(f, p + KeyPartSize * j, fields).Ok?
    ensures PartsFrom(f, p, n, fields).Ok?
    decreases n
  {
    if n > 0 {
      assert PartAt(f, p + KeyPartSize * 0, fields).Ok?;
      forall j | 0 <= j < n - 1
        ensures PartAt(f, (p + KeyPartSize) + KeyPartSize * j, fields).Ok?
      {
        assert (p + KeyPartSize) + KeyPartSize * j == p + KeyPartSize * (j + 1);
      }
      PartsFromOk(f, p + KeyPartSize, n - 1, fields);
    }
  }

  /** One part parsed moves from the remaining parse to the accumulated prefix. */
  lemma PartsStep(f: seq<byte>, p: nat, n: nat, fields: seq<FieldDesc>, acc: seq<KeyPart>, part: KeyPart)
    requires n > 0 && p + KeyPartSize <= |f| && PartAt(f, p, fields) == Ok(part)
    ensures Prepend(acc, PartsFrom(f, p, n, fields))
         == Prepend(acc + [part], PartsFrom(f, p + KeyPartSize, n - 1, fields))
  {
    var rest := PartsFrom(f, p + KeyPartSize, n - 1, fields);
    if rest.Ok? {
      assert acc + ([part] + rest.value.value) == (acc + [part]) + rest.value.value;
    }
  }

  /** Bytes the key descriptors occupy: 19 each plus 6 per component. */
  function KeysSize(keys: seq<KeyDesc>): nat
  {
    if |keys| == 0 then 0 else KeyDescSize + KeyPartSize * keys[0].numcomps + KeysSize(keys[1..])
  }

  /** Key `i` at `p`: the 19-byte descriptor, its key type, then its `numcomps` parts. */
  function KeyAt(f: seq<byte>, p: nat, i: nat, datfile: string, keyfiles: map<string, byte>, fields: seq<FieldDesc>)
    : (r: Result<Parsed<KeyDesc>>)
    requires |datfile| >= 3 && i < 255
    ensures r.Ok? ==> p + KeyDescSize <= |f| && r.value.value.numcomps == f[p] as nat
    ensures r.Ok? ==> |r.value.value.parts| == r.value.value.numcomps
    ensures r.Ok? ==> r.value.next == p + KeyDescSize + KeyPartSize * r.value.value.numcomps
    ensures r.Ok? ==> r.value.value.keytype == KeyType(datfile, i, keyfiles)
  {
    if p + KeyDescSize > |f| then Err(Truncated)
    else
      var numcomps := f[p] as nat;
      match PartsFrom(f, p + KeyDescSize, numcomps, fields)
      case Err(e) => Err(e)
      case Ok(parts) =>
        Ok(Parsed(KeyDesc(numcomps, f[p + 1..p + 17], f[p + 17] as nat, f[p + 18] as nat, parts.value,
                          KeyType(datfile, i, keyfiles)),
                  parts.next))
  }

  /** Keys `i` .. `n - 1` from `p`. */
  function KeysFrom(f: seq<byte>, p: nat, i: nat, n: nat, datfile: string, keyfiles: map<string, byte>,
                    fields: seq<FieldDesc>): (r: Result<Parsed<seq<KeyDesc>>>)
    requires |datfile| >= 3 && i <= n <= 255
    ensures r.Ok? ==> |r.value.value| == n - i
    ensures r.Ok? ==> r.value.next == p + KeysSize(r.value.value)
    decreases n - i
  {
    if i == n then Ok(Parsed([], p))
    else
      match KeyAt(f, p, i, datfile, keyfiles, fields)
      case Err(e) => Err(e)
      case Ok(k) =>
        match KeysFrom(f, k.next, i + 1, n, datfile, keyfiles, fields)
        case Err(e) => Err(e)
        case Ok(rest) =>
          assert ([k.value] + rest.value)[1..] == rest.value;
          Ok(Parsed([k.value] + rest.value, rest.next))
  }

  /** The stderr line of clarion_read_key_desc for key `i`, when its key file cannot be opened. */
  function KeyFileNote(datfile: string, i: nat, keyfiles: map<string, byte>): (r: string)
    requires |datfile| >= 3 && i < 255
    ensures r == "" <==> KeyFileName(datfile, i) in keyfiles
    ensures r != "" ==> KeyType(datfile, i, keyfiles) == KeyTypeError
  {
    var name := KeyFileName(datfile, i);
    if name in keyfiles then "" else "Couldn't open key file " + name + " !\n"
  }

  /** The stderr lines of keys `i` .. `n - 1`, one per key file that cannot be opened. */
  function KeyFileNotes(datfile: string, i: nat, n: nat, keyfiles: map<string, byte>): string
    requires |datfile| >= 3 && i <= n <= 255
    decreases n - i
  {
    if i == n then "" else KeyFileNote(datfile, i, keyfiles) + KeyFileNotes(datfile, i + 1, n, keyfiles)
  }

  /**
   * The stderr lines of the key loop from key `i` at `p`: each key whose 19-byte
   * descriptor is there tries its key file, and the loop goes on while the keys parse.
   */
  function KeyNotesFrom(f: seq<byte>, p: nat, i: nat, n: nat, datfile: string, keyfiles: map<string, byte>,
                        fields: seq<FieldDesc>): string
    requires |datfile| >= 3 && i <= n <= 255
    decreases n - i
  {
    if i == n || p + KeyDescSize > |f| then ""
    else
      KeyFileNote(datfile, i, keyfiles) +
      match KeyAt(f, p, i, datfile, keyfiles, fields)
      case Err(_) => ""
      case Ok(k) => KeyNotesFrom(f, k.next, i + 1, n, datfile, keyfiles, fields)
  }

  /** One key of the loop moves its stderr line from the remaining lines to the printed ones. */
  lemma KeyNotesStep(f: seq<byte>, p: nat, i: nat, n: nat, datfile: string, keyfiles: map<string, byte>,
                     fields: seq<FieldDesc>, acc: string)
    requires |datfile| >= 3 && i < n <= 255
    ensures var note := if p + KeyDescSize > |f| then "" else KeyFileNote(datfile, i, keyfiles);
      var k := KeyAt(f, p, i, datfile, keyfiles, fields);
      && (k.Err? ==> acc + KeyNotesFrom(f, p, i, n, datfile, keyfiles, fields) == acc + note)
      && (k.Ok? ==> acc + KeyNotesFrom(f, p, i, n, datfile, keyfiles, fields)
                    == (acc + note) + KeyNotesFrom(f, k.value.next, i + 1, n, datfile, keyfiles, fields))
  {
    var note := if p + KeyDescSize > |f| then "" else KeyFileNote(datfile, i, keyfiles);
    var k := KeyAt(f, p, i, datfile, keyfiles, fields);
    if k.Ok? {
      var rest := KeyNotesFrom(f, k.value.next, i + 1, n, datfile, keyfiles, fields);
      assert acc + (note + rest) == (acc + note) + rest;
    } else {
      assert note + "" == note;
    }
  }

  /** When every key parses, the loop prints one line for each key file that cannot be opened, in key order. */
  lemma {:induction false} KeyNotesOfParsed(f: seq<byte>, p: nat, i: nat, n: nat, datfile: string,
                                            keyfiles: map<string, byte>, fields: seq<FieldDesc>)
    requires |datfile| >= 3 && i <= n <= 255
    requires KeysFrom(f, p, i, n, datfile, keyfiles, fields).Ok?
    ensures KeyNotesFrom(f, p, i, n, datfile, keyfiles, fields) == KeyFileNotes(datfile, i, n, keyfiles)
    decreases n - i
  {
    if i < n {
      var k := KeyAt(f, p, i, datfile, keyfiles, fields).value;
      KeyNotesOfParsed(f, k.next, i + 1, n, datfile, keyfiles, fields);
    }
  }

  /** One pass of the key loop keeps both of its invariants, or ends the loop with the result and the lines printed. */
  lemma KeyLoopStep(f: seq<byte>, pos: nat, cur: nat, i: nat, n: nat, datfile: string, keyfiles: map<string, byte>,
                    fields: seq<FieldDesc>, keys: seq<KeyDesc>, notes: string)
    requires |datfile| >= 3 && i < n <= 255
    requires KeysFrom(f, pos, 0, n, datfile, keyfiles, fields) == Prepend(keys, KeysFrom(f, cur, i, n, datfile, keyfiles, fields))
    requires KeyNotesFrom(f, pos, 0, n, datfile, keyfiles, fields) == notes + KeyNotesFrom(f, cur, i, n, datfile, keyfiles, fields)
    ensures var key := KeyAt(f, cur, i, datfile, keyfiles, fields);
      var note := if cur + KeyDescSize > |f| then "" else KeyFileNote(datfile, i, keyfiles);
      && (key.Err? ==> KeysFrom(f, pos, 0, n, datfile, keyfiles, fields) == Err(key.error))
      && (key.Err? ==> KeyNotesFrom(f, pos, 0, n, datfile, keyfiles, fields) == notes + note)
      && (key.Ok? ==> KeysFrom(f, pos, 0, n, datfile, keyfiles, fields)
                      == Prepend(keys + [key.value.value], KeysFrom(f, key.value.next, i + 1, n, datfile, keyfiles, fields)))
      && (key.Ok? ==> KeyNotesFrom(f, pos, 0, n, datfile, keyfiles, fields)
                      == (notes + note) + KeyNotesFrom(f, key.value.next, i + 1, n, datfile, keyfiles, fields))
  {
    var key := KeyAt(f, cur, i, datfile, keyfiles, fields);
    KeyNotesStep(f, cur, i, n, datfile, keyfiles, fields, notes);
    if key.Ok? {
      KeysStep(f, cur, i, n, datfile, keyfiles, fields, keys, key.value);
    }
  }

  /** One key parsed moves from the remaining parse to the accumulated prefix. */
  lemma KeysStep(f: seq<byte>, p: nat, i: nat, n: nat, datfile: string, keyfiles: map<string, byte>,
                 fields: seq<FieldDesc>, acc: seq<KeyDesc>, key: Parsed<KeyDesc>)
    requires |datfile| >= 3 && i < n <= 255
    requires KeyAt(f, p, i, datfile, keyfiles, fields) == Ok(key)
    ensures Prepend(acc, KeysFrom(f, p, i, n, datfile, keyfiles, fields))
         == Prepend(acc + [key.value], KeysFrom(f, key.next, i + 1, n, datfile, keyfiles, fields))
  {
    var rest := KeysFrom(f, key.next, i + 1, n, datfile, keyfiles, fields);
    if rest.Ok? {
      assert acc + ([key.value] + rest.value.value) == (acc + [key.value]) + rest.value.value;
    }
  }

  /** A prefix of parsed items in front of a parse that may have failed. */
  function Prepend<T>(acc: seq<T>, r: Result<Parsed<seq<T>>>): Result<Parsed<seq<T>>>
  {
    match r
    case Err(e) => Err(e)
    case Ok(p) => Ok(Parsed(acc + p.value, p.next))
  }

  lemma PrependNil<T>(r: Result<Parsed<seq<T>>>)
    ensures Prepend([], r) == r
  {
    if r.Ok? {
      assert [] + r.value.value == r.value.value;
    }
  }

  /** The component loop of clarion_read_key_desc for one key. */
  method ReadKeyParts(f: seq<byte>, pos: nat, numcomps: nat, fields: seq<FieldDesc>)
    returns (r: Result<Parsed<seq<KeyPart>>>)
    ensures r == PartsFrom(f, pos, numcomps, fields)
  {
    var parts: seq<KeyPart> := [];
    var cur: nat := pos;
    var j := 0;
    PrependNil(PartsFrom(f, pos, numcomps, fields));
    while j < numcomps
      invariant 0 <= j <= numcomps && cur == pos + KeyPartSize * j
      invariant PartsFrom(f, pos, numcomps, fields) == Prepend(parts, PartsFrom(f, cur, numcomps - j, fields))
    {
      if cur + KeyPartSize > |f| {
        return Err(Truncated);
      }
      var fldtype := f[cur] as nat;
      var fldnum := U16(f, cur + 1);
      var subs: seq<KeyPart> := [];
      if fldtype == FieldGroup {
        var s := CollectSubparts(fields, fldnum);
        if s.Err? {
          return Err(s.error);
        }
        subs := s.value;
      }
      var part := KeyPart(fldtype, fldnum, U16(f, cur + 3), f[cur + 5] as nat, subs);
      assert PartAt(f, cur, fields) == Ok(part);
      PartsStep(f, cur, numcomps - j, fields, parts, part);
      parts := parts + [part];
      cur := cur + KeyPartSize;
      j := j + 1;
    }
    assert parts + [] == parts;
    return Ok(Parsed(parts, cur));
  }

  /**
   * One pass of clarion_read_key_desc's key loop: the 19-byte descriptor of key `i`
   * at `cur`, the key file name buffer rewritten for it, its key type and its parts.
   */
  /** The key file name buffer: the data file name with 'K' in place of its third-last character. */
  predicate KeyFileStem(keyfile: string, datfile: string)
    requires |datfile| >= 3
  {
    |keyfile| == |datfile| && keyfile[..|keyfile| - 2] == datfile[..|datfile| - 3] + ['K']
  }

  method ReadKeyDesc(f: seq<byte>, cur: nat, i: nat, datfile: string, keyfiles: map<string, byte>,
                     fields: seq<FieldDesc>, keyfile: string)
    returns (r: Result<Parsed<KeyDesc>>, name: string, note: string)
    requires |datfile| >= 3 && i < 255
    requires KeyFileStem(keyfile, datfile)
    ensures name == KeyFileName(datfile, i)
    ensures KeyFileStem(name, datfile)
    ensures r == KeyAt(f, cur, i, datfile, keyfiles, fields)
    ensures note == if cur + KeyDescSize > |f| then "" else KeyFileNote(datfile, i, keyfiles)
  {
    note := "";
    var len := |keyfile|;
    name := keyfile[len - 2 := HexChar((i + 1) / 16)];
    name := name[len - 1 := HexChar((i + 1) % 16)];
    assert name == keyfile[..len - 2] + [HexChar((i + 1) / 16), HexChar((i + 1) % 16)];
    if cur + KeyDescSize > |f| {
      return Err(Truncated), name, note;
    }
    var numcomps := f[cur] as nat;
    var keytype := KeyTypeError;
    if name in keyfiles {
      keytype := keyfiles[name] as nat;
    } else {
      note := "Couldn't open key file " + name + " !\n";
    }
    var parts := ReadKeyParts(f, cur + KeyDescSize, numcomps, fields);
    if parts.Err? {
      return Err(parts.error), name, note;
    }
    var key := KeyDesc(numcomps, f[cur + 1..cur + 17], f[cur + 17] as nat, f[cur + 18] as nat,
                       parts.value.value, keytype);
    r := Ok(Parsed(key, parts.value.next));
  }

  /**
   * clarion_read_key_desc: `numbkeys` key descriptors from `pos`; the key file name
   * buffer is rewritten in place for each key. A zero count reads nothing.
   */
  method ReadKeyDescs(f: seq<byte>, pos: nat, numbkeys: nat, datfile: string, keyfiles: map<string, byte>,
                      fields: seq<FieldDesc>) returns (r: Result<Parsed<seq<KeyDesc>>>, notes: string)
    requires |datfile| >= 3 && numbkeys <= 255
    ensures r == KeysFrom(f, pos, 0, numbkeys, datfile, keyfiles, fields)
    ensures notes == KeyNotesFrom(f, pos, 0, numbkeys, datfile, keyfiles, fields)
  {
    if numbkeys == 0 {
      return Ok(Parsed([], pos)), "";
    }
    var keyfile := datfile[..|datfile| - 3] + ['K'] + datfile[|datfile| - 2..];
    r, notes := ReadKeyLoop(f, pos, numbkeys, datfile, keyfiles, fields, keyfile);
  }

  /** The loop of clarion_read_key_desc over the keys, with the key file name buffer prepared. */
  method ReadKeyLoop(f: seq<byte>, pos: nat, numbkeys: nat, datfile: string, keyfiles: map<string, byte>,
                     fields: seq<FieldDesc>, keyfile: string) returns (r: Result<Parsed<seq<KeyDesc>>>, notes: string)
    requires |datfile| >= 3 && numbkeys <= 255 && KeyFileStem(keyfile, datfile)
    ensures r == KeysFrom(f, pos, 0, numbkeys, datfile, keyfiles, fields)
    ensures notes == KeyNotesFrom(f, pos, 0, numbkeys, datfile, keyfiles, fields)
  {
    notes := "";
    var keyfile := keyfile;
    var keys: seq<KeyDesc> := [];
    var cur: nat := pos;
    var i := 0;
    KeyLoopStart(f, pos, numbkeys, datfile, keyfiles, fields);
    while i < numbkeys
      invariant 0 <= i <= numbkeys && KeyFileStem(keyfile, datfile)
      invariant KeyLoopInv(f, pos, numbkeys, datfile, keyfiles, fields, keys, cur, i, notes)
    {
      var key;
      key, keyfile, notes := ReadNextKey(f, pos, numbkeys, datfile, keyfiles, fields, keyfile, keys, cur, i, notes);
      if key.Err? {
        return Err(key.error), notes;
      }
      keys := keys + [key.value.value];
      cur := key.value.next;
      i := i + 1;
    }
    KeyLoopDone(f, pos, numbkeys, datfile, keyfiles, fields, keys, cur, notes);
    return Ok(Parsed(keys, cur)), notes;
  }

  /** What the key loop has read so far: `keys` and `notes` followed by the rest from key `i` at `cur`. */
  ghost predicate KeyLoopInv(f: seq<byte>, pos: nat, n: nat, datfile: string, keyfiles: map<string, byte>,
                             fields: seq<FieldDesc>, keys: seq<KeyDesc>, cur: nat, i: nat, notes: string)
    requires |datfile| >= 3 && i <= n <= 255
  {
    && KeysFrom(f, pos, 0, n, datfile, keyfiles, fields) == Prepend(keys, KeysFrom(f, cur, i, n, datfile, keyfiles, fields))
    && KeyNotesFrom(f, pos, 0, n, datfile, keyfiles, fields) == notes + KeyNotesFrom(f, cur, i, n, datfile, keyfiles, fields)
  }

  lemma KeyLoopStart(f: seq<byte>, pos: nat, n: nat, datfile: string, keyfiles: map<string, byte>, fields: seq<FieldDesc>)
    requires |datfile| >= 3 && n <= 255
    ensures KeyLoopInv(f, pos, n, datfile, keyfiles, fields, [], pos, 0, "")
  {
    PrependNil(KeysFrom(f, pos, 0, n, datfile, keyfiles, fields));
    assert "" + KeyNotesFrom(f, pos, 0, n, datfile, keyfiles, fields) == KeyNotesFrom(f, pos, 0, n, datfile, keyfiles, fields);
  }

  lemma KeyLoopDone(f: seq<byte>, pos: nat, n: nat, datfile: string, keyfiles: map<string, byte>, fields: seq<FieldDesc>,
                    keys: seq<KeyDesc>, cur: nat, notes: string)
    requires |datfile| >= 3 && n <= 255
    requires KeyLoopInv(f, pos, n, datfile, keyfiles, fields, keys, cur, n, notes)
    ensures KeysFrom(f, pos, 0, n, datfile, keyfiles, fields) == Ok(Parsed(keys, cur))
    ensures KeyNotesFrom(f, pos, 0, n, datfile, keyfiles, fields) == notes
  {
    assert keys + [] == keys;
    assert notes + "" == notes;
  }

  /** One turn of the key loop: key `i` is read and the loop's account moves past it. */
  method ReadNextKey(f: seq<byte>, pos: nat, n: nat, datfile: string, keyfiles: map<string, byte>,
                     fields: seq<FieldDesc>, keyfile: string, keys: seq<KeyDesc>, cur: nat, i: nat, notes: string)
    returns (key: Result<Parsed<KeyDesc>>, name: string, notes': string)
    requires |datfile| >= 3 && i < n <= 255 && KeyFileStem(keyfile, datfile)
    requires KeyLoopInv(f, pos, n, datfile, keyfiles, fields, keys, cur, i, notes)
    ensures KeyFileStem(name, datfile)
    ensures key.Err? ==> KeysFrom(f, pos, 0, n, datfile, keyfiles, fields) == Err(key.error)
    ensures key.Err? ==> KeyNotesFrom(f, pos, 0, n, datfile, keyfiles, fields) == notes'
    ensures key.Ok? ==> KeyLoopInv(f, pos, n, datfile, keyfiles, fields, keys + [key.value.value], key.value.next, i + 1, notes')
  {
    KeyLoopStep(f, pos, cur, i, n, datfile, keyfiles, fields, keys, notes);
    var note;
    key, name, note := ReadKeyDesc(f, cur, i, datfile, keyfiles, fields, keyfile);
    notes' := notes + note;
  }

  // ---------------------------------------------------------------------------
  // clarion_read_pic_desc

  /** Bytes the pictures occupy: a 2-byte length, then that many bytes, each. */
  function PicsSize(pics: seq<PicDesc>): nat
  {
    if |pics| == 0 then 0 else 2 + pics[0].piclen + PicsSize(pics[1..])
  }

  /** `n` pictures from `p`. */
  function PicsFrom(f: seq<byte>, p: nat, n: nat): (r: Result<Parsed<seq<PicDesc>>>)
    decreases n
  {
    if n == 0 then Ok(Parsed([], p))
    else if p + 2 > |f| then Err(Truncated)
    else
      var piclen := U16(f, p);
      if p + 2 + piclen > |f| then Err(Truncated)
      else
        match PicsFrom(f, p + 2 + piclen, n - 1)
        case Err(e) => Err(e)
        case Ok(rest) =>
          var pics := [PicDesc(piclen, f[p + 2..p + 2 + piclen])] + rest.value;
          assert pics[1..] == rest.value;
          Ok(Parsed(pics, rest.next))
  }

  /** clarion_read_pic_desc: `numpics` length-prefixed picture strings from `pos`. */
  method ReadPicDescs(f: seq<byte>, pos: nat, numpics: nat) returns (r: Result<Parsed<seq<PicDesc>>>)
    ensures r == PicsFrom(f, pos, numpics)
  {
    if numpics == 0 {
      return Ok(Parsed([], pos));
    }
    var pics: seq<PicDesc> := [];
    var cur: nat := pos;
    var i := 0;
    PrependNil(PicsFrom(f, pos, numpics));
    while i < numpics
      invariant 0 <= i <= numpics
      invariant PicsFrom(f, pos, numpics) == Prepend(pics, PicsFrom(f, cur, numpics - i))
    {
      if cur + 2 > |f| {
        return Err(Truncated);
      }
      var piclen := U16(f, cur);
      if cur + 2 + piclen > |f| {
        return Err(Truncated);
      }
      var pic := PicDesc(piclen, f[cur + 2..cur + 2 + piclen]);
      PicsStep(f, cur, numpics - i, pics);
      pics := pics + [pic];
      cur := cur + 2 + piclen;
      i := i + 1;
    }
    assert pics + [] == pics;
    return Ok(Parsed(pics, cur));
  }

  /** One picture parsed moves from the remaining parse to the accumulated prefix. */
  lemma PicsStep(f: seq<byte>, p: nat, n: nat, acc: seq<PicDesc>)
    requires n > 0 && p + 2 <= |f| && p + 2 + U16(f, p) <= |f|
    ensures Prepend(acc, PicsFrom(f, p, n))
         == Prepend(acc + [PicDesc(U16(f, p), f[p + 2..p + 2 + U16(f, p)])], PicsFrom(f, p + 2 + U16(f, p), n - 1))
  {
    var pic := PicDesc(U16(f, p), f[p + 2..p + 2 + U16(f, p)]);
    var rest := PicsFrom(f, p + 2 + U16(f, p), n - 1);
    if rest.Ok? {
      assert acc + ([pic] + rest.value.value) == (acc + [pic]) + rest.value.value;
    }
  }

  /**
   * `n` pictures consume exactly their prefixes and strings, each string as long
   * as its prefix says; the only error is a read past the end of the file.
   */
  lemma {:induction false} PicsFromShape(f: seq<byte>, p: nat, n: nat)
    ensures var r := PicsFrom(f, p, n);
      && (r.Ok? ==> |r.value.value| == n && r.value.next == p + PicsSize(r.value.value))
      && (r.Ok? && n > 0 ==> r.value.next <= |f|)
      && (r.Ok? ==> forall j :: 0 <= j < n ==> |r.value.value[j].picstr| == r.value.value[j].piclen)
      && (r.Err? ==> r.error == Truncated)
    decreases n
  {
    if n > 0 && p + 2 <= |f| && p + 2 + U16(f, p) <= |f| {
      var piclen := U16(f, p);
      PicsFromShape(f, p + 2 + piclen, n - 1);
      var rest := PicsFrom(f, p + 2 + piclen, n - 1);
      if rest.Ok? {
        var pics := [PicDesc(piclen, f[p + 2..p + 2 + piclen])] + rest.value.value;
        assert pics[1..] == rest.value.value;
        assert PicsFrom(f, p, n) == Ok(Parsed(pics, rest.value.next));
      }
    }
  }

  /** A picture reads back from its length prefix and bytes. */
  lemma PicRoundTrip(s: seq<byte>, rest: seq<byte>)
    requires |s| < 0x1_0000
    ensures PicsFrom(Enc16(|s|) + s + rest, 0, 1) == Ok(Parsed([PicDesc(|s|, s)], 2 + |s|))
  {
    var f := Enc16(|s|) + s + rest;
    U16Of(f, 0, |s|);
    assert f[2..2 + |s|] == s;
    assert PicsFrom(f, 2 + |s|, 0) == Ok(Parsed([], 2 + |s|));
    assert [PicDesc(|s|, s)] + [] == [PicDesc(|s|, s)];
  }

  // ---------------------------------------------------------------------------
  // clarion_read_arr_desc

  /** Bytes an array descriptor occupies: numdim, totdim, elmsiz, then totdim (maxdim, lendim) pairs. */
  function ArrSize(d: ArrDesc): nat
  {
    6 + 4 * d.totdim
  }

  function ArrsSize(ds: seq<ArrDesc>): nat
  {
    if |ds| == 0 then 0 else ArrSize(ds[0]) + ArrsSize(ds[1..])
  }

  /** The array descriptor at `p`. */
  function ArrDescAt(f: seq<byte>, p: nat): (r: Result<ArrDesc>)
    ensures r.Ok? ==> p + ArrSize(r.value) <= |f| && r.value.totdim == |r.value.parts|
    ensures r.Ok? ==> r.value.numdim == U16(f, p) && r.value.totdim == U16(f, p + 2)
  {
    if p + 6 > |f| then Err(Truncated)
    else
      var totdim := U16(f, p + 2);
      if p + 6 + 4 * totdim > |f| then Err(Truncated)
      else
        Ok(ArrDesc(U16(f, p), totdim, U16(f, p + 4), ArrParts(f, p + 6, totdim)))
  }

  /** The first `k` (maxdim, lendim) pairs from `p`. */
  function ArrParts(f: seq<byte>, p: nat, k: nat): (r: seq<ArrPart>)
    requires p + 4 * k <= |f|
    ensures |r| == k
    decreases k
  {
    if k == 0 then []
    else ArrParts(f, p, k - 1) + [ArrPart(U16(f, p + 4 * (k - 1)), U16(f, p + 4 * (k - 1) + 2))]
  }

  /** Pair `m` of the parts is the two 16-bit words at `p + 4m`. */
  lemma {:induction false} ArrPartsAt(f: seq<byte>, p: nat, k: nat, m: nat)
    requires p + 4 * k <= |f| && m < k
    ensures ArrParts(f, p, k)[m] == ArrPart(U16(f, p + 4 * m), U16(f, p + 4 * m + 2))
    decreases k
  {
    if m < k - 1 {
      ArrPartsAt(f, p, k - 1, m);
    }
  }

  /** A field's array chain; `atOffset` tells that the cursor reached the data offset. */
  datatype Chain = Chain(arrs: seq<ArrDesc>, next: nat, atOffset: bool)

  /**
   * The do-while of clarion_read_arr_desc for one field. After each descriptor:
   * reaching `offset` exactly ends the chain (and the whole reader); otherwise the
   * next 4 bytes are peeked and the cursor is put back; an equal (numdim, totdim)
   * pair ends the chain, an unequal one starts another descriptor.
   */
  function ArrChain(f: seq<byte>, p: nat, offset: nat): (r: Result<Chain>)
    ensures r.Ok? ==> |r.value.arrs| >= 1 && r.value.next == p + ArrsSize(r.value.arrs)
    ensures r.Ok? && r.value.atOffset ==> r.value.next == offset
    ensures r.Ok? && !r.value.atOffset ==>
      r.value.next != offset && r.value.next + 4 <= |f| && U16(f, r.value.next) == U16(f, r.value.next + 2)
    ensures r.Err? ==> r.error == Truncated
    decreases |f| - p
  {
    match ArrDescAt(f, p)
    case Err(e) => Err(e)
    case Ok(d) =>
      var q := p + ArrSize(d);
      if q == offset then Ok(Chain([d], q, true))
      else if q + 4 > |f| then Err(Truncated)
      else if U16(f, q) != U16(f, q + 2) then
        match ArrChain(f, q, offset)
        case Err(e) => Err(e)
        case Ok(c) =>
          assert ([d] + c.arrs)[1..] == c.arrs;
          Ok(Chain([d] + c.arrs, c.next, c.atOffset))
      else Ok(Chain([d], q, false))
  }

  /** Array chains for fields `i` onward: fields with arrnum == 0 are skipped. */
  function ArrsFrom(f: seq<byte>, fields: seq<FieldDesc>, i: nat, p: nat, offset: nat): (r: Result<Parsed<seq<FieldDesc>>>)
    requires i <= |fields|
    ensures r.Ok? ==> |r.value.value| == |fields| && r.value.next >= p
    ensures r.Ok? ==> forall k :: 0 <= k < i ==> r.value.value[k] == fields[k]
    ensures r.Ok? ==> forall k :: i <= k < |fields| ==>
      r.value.value[k] == fields[k].(arrs := r.value.value[k].arrs) &&
      (fields[k].arrnum == 0 ==> r.value.value[k].arrs == fields[k].arrs)
    ensures r.Err? ==> r.error == Truncated
    decreases |fields| - i
  {
    if i == |fields| then Ok(Parsed(fields, p))
    else if fields[i].arrnum == 0 then ArrsFrom(f, fields, i + 1, p, offset)
    else
      match ArrChain(f, p, offset)
      case Err(e) => Err(e)
      case Ok(c) =>
        var fields' := fields[i := fields[i].(arrs := c.arrs)];
        if c.atOffset then Ok(Parsed(fields', c.next))
        else ArrsFrom(f, fields', i + 1, c.next, offset)
  }

  /**
   * A chain that reaches the data offset ends the whole reader: the fields after it
   * keep the array lists they had, and the cursor stays at the offset.
   */
  lemma ArrsFromStops(f: seq<byte>, fields: seq<FieldDesc>, i: nat, p: nat, offset: nat)
    requires i < |fields| && fields[i].arrnum != 0
    requires ArrChain(f, p, offset).Ok? && ArrChain(f, p, offset).value.atOffset
    ensures ArrsFrom(f, fields, i, p, offset).Ok?
    ensures ArrsFrom(f, fields, i, p, offset).value.next == offset
    ensures forall k :: i < k < |fields| ==> ArrsFrom(f, fields, i, p, offset).value.value[k].arrs == fields[k].arrs
    ensures ArrsFrom(f, fields, i, p, offset).value.value[i].arrs == ArrChain(f, p, offset).value.arrs
  {
  }

  /** One array descriptor of clarion_read_arr_desc: its 6-byte head, then `totdim` part pairs. */
  method ReadArrDesc(f: seq<byte>, cur: nat) returns (r: Result<ArrDesc>)
    ensures r == ArrDescAt(f, cur)
  {
    if cur + 6 > |f| {
      return Err(Truncated);
    }
    var numdim := U16(f, cur);
    var totdim := U16(f, cur + 2);
    var elmsiz := U16(f, cur + 4);
    if cur + 6 + 4 * totdim > |f| {
      return Err(Truncated);
    }
    var parts: seq<ArrPart> := [];
    var k := 0;
    while k < totdim
      invariant 0 <= k <= totdim && parts == ArrParts(f, cur + 6, k)
    {
      parts := parts + [ArrPart(U16(f, cur + 6 + 4 * k), U16(f, cur + 8 + 4 * k))];
      k := k + 1;
    }
    return Ok(ArrDesc(numdim, totdim, elmsiz, parts));
  }

  /** The do-while of clarion_read_arr_desc for one field, with its realloc-grown list. */
  method ReadArrChain(f: seq<byte>, pos: nat, offset: nat) returns (r: Result<Chain>)
    ensures r == ArrChain(f, pos, offset)
  {
    var arr: seq<ArrDesc> := [];
    var cur: nat := pos;
    ghost var whole := ArrChain(f, pos, offset);
    assert PrependChain([], whole) == whole by {
      if whole.Ok? {
        assert [] + whole.value.arrs == whole.value.arrs;
      }
    }
    while true
      invariant whole == PrependChain(arr, ArrChain(f, cur, offset))
      decreases |f| - cur
    {
      var rd := ReadArrDesc(f, cur);
      ChainNext(whole, f, arr, cur, offset);
      if rd.Err? {
        return Err(rd.error);
      }
      var d := rd.value;
      var q := cur + ArrSize(d);
      if q == offset {
        return Ok(Chain(arr + [d], q, true));
      }
      if q + 4 > |f| {
        return Err(Truncated);
      }
      var peekNumdim := U16(f, q);
      var peekTotdim := U16(f, q + 2);
      if peekNumdim != peekTotdim {
        arr := arr + [d];
        cur := q;
      } else {
        return Ok(Chain(arr + [d], q, false));
      }
    }
  }

  /** Where the chain walk stands after collecting `acc`: each way the next descriptor can end it or carry on. */
  lemma ChainNext(whole: Result<Chain>, f: seq<byte>, acc: seq<ArrDesc>, p: nat, offset: nat)
    requires whole == PrependChain(acc, ArrChain(f, p, offset))
    ensures ArrDescAt(f, p).Err? ==> whole == Err(ArrDescAt(f, p).error)
    ensures ArrDescAt(f, p).Ok? ==>
      var d := ArrDescAt(f, p).value;
      var q := p + ArrSize(d);
      (q == offset ==> whole == Ok(Chain(acc + [d], q, true))) &&
      (q != offset && q + 4 > |f| ==> whole == Err(Truncated)) &&
      (q != offset && q + 4 <= |f| && U16(f, q) == U16(f, q + 2) ==> whole == Ok(Chain(acc + [d], q, false))) &&
      (q != offset && q + 4 <= |f| && U16(f, q) != U16(f, q + 2) ==>
        whole == PrependChain(acc + [d], ArrChain(f, q, offset)))
  {
    match ArrDescAt(f, p)
    case Err(e) =>
      assert ArrChain(f, p, offset) == Err(e);
    case Ok(d) =>
      var q := p + ArrSize(d);
      if q == offset {
        assert ArrChain(f, p, offset) == Ok(Chain([d], q, true));
      } else if q + 4 > |f| {
        assert ArrChain(f, p, offset) == Err(Truncated);
      } else if U16(f, q) == U16(f, q + 2) {
        assert ArrChain(f, p, offset) == Ok(Chain([d], q, false));
      } else {
        ChainStep(f, p, offset, acc, d);
      }
  }

  function PrependChain(acc: seq<ArrDesc>, r: Result<Chain>): Result<Chain>
  {
    match r
    case Err(e) => Err(e)
    case Ok(c) => Ok(Chain(acc + c.arrs, c.next, c.atOffset))
  }

  /** A descriptor followed by an unequal peek continues the chain at the next descriptor. */
  lemma ChainUnfold(f: seq<byte>, p: nat, offset: nat, d: ArrDesc)
    requires ArrDescAt(f, p) == Ok(d)
    requires var q := p + ArrSize(d); q != offset && q + 4 <= |f| && U16(f, q) != U16(f, q + 2)
    ensures ArrChain(f, p, offset) == PrependChain([d], ArrChain(f, p + ArrSize(d), offset))
  {
  }

  /** A descriptor followed by an unequal peek moves to the accumulated prefix. */
  lemma ChainStep(f: seq<byte>, p: nat, offset: nat, acc: seq<ArrDesc>, d: ArrDesc)
    requires ArrDescAt(f, p) == Ok(d)
    requires var q := p + ArrSize(d); q != offset && q + 4 <= |f| && U16(f, q) != U16(f, q + 2)
    ensures PrependChain(acc, ArrChain(f, p, offset)) == PrependChain(acc + [d], ArrChain(f, p + ArrSize(d), offset))
  {
    ChainUnfold(f, p, offset, d);
    var rest := ArrChain(f, p + ArrSize(d), offset);
    if rest.Ok? {
      assert acc + ([d] + rest.value.arrs) == (acc + [d]) + rest.value.arrs;
    }
  }

  /**
   * clarion_read_arr_desc: for each field with a non-zero arrnum, the chain of array
   * descriptors stored in that field's list (nbarrs == |arrs|); the whole read ends
   * as soon as a descriptor ends at the first data record.
   */
  method ReadArrDescs(f: seq<byte>, pos: nat, fields: seq<FieldDesc>, offset: nat)
    returns (r: Result<Parsed<seq<FieldDesc>>>)
    ensures r == ArrsFrom(f, fields, 0, pos, offset)
  {
    var clfd := fields;
    var cur: nat := pos;
    var i := 0;
    while i < |fields|
      invariant 0 <= i <= |fields| && |clfd| == |fields|
      invariant ArrsFrom(f, fields, 0, pos, offset) == ArrsFrom(f, clfd, i, cur, offset)
    {
      if clfd[i].arrnum != 0 {
        var c := ReadArrChain(f, cur, offset);
        if c.Err? {
          return Err(c.error);
        }
        clfd := clfd[i := clfd[i].(arrs := c.value.arrs)];
        if c.value.atOffset {
          return Ok(Parsed(clfd, c.value.next));
        }
        cur := c.value.next;
      }
      i := i + 1;
    }
    return Ok(Parsed(clfd, cur));
  }
}
