/**
 * The field decoders of cl_dump_field.c. Each one reads a field's bytes from the
 * data file at the current cursor into the shared record buffer and returns what it
 * prints; the memo decoder walks the block chain of the memo file.
 *
 * A file is a byte sequence and a read position; a read that would run past its end
 * gives Err(Truncated). The placeholder is None when the caller passes NULL.
 */
module Field {
  import opened Clarion
  import opened Utils

  /** What is printed for a missing value: the placeholder, or nothing. */
  function Placeholder(plchold: Option<string>): string
  {
    if plchold.Some? then plchold.value else ""
  }

  /**
   * fread of `n` bytes at `pos` into the front of `buf`; the rest of the buffer
   * keeps what an earlier field left there.
   */
  method ReadInto(buf: array<byte>, f: seq<byte>, pos: nat, n: nat) returns (ok: bool)
    requires n <= buf.Length
    modifies buf
    ensures ok <==> pos + n <= |f|
    ensures ok ==> buf[..] == f[pos..pos + n] + old(buf[..])[n..]
    ensures !ok ==> buf[..] == old(buf[..])
  {
    if pos + n > |f| {
      return false;
    }
    var k := 0;
    while k < n
      invariant 0 <= k <= n
      invariant forall j :: 0 <= j < k ==> buf[j] == f[pos + j]
      invariant forall j :: k <= j < buf.Length ==> buf[j] == old(buf[j])
    {
      buf[k] := f[pos + k];
      k := k + 1;
    }
    assert buf[..] == f[pos..pos + n] + old(buf[..])[n..];
    return true;
  }

  /** The bytes a field of `length` bytes at `pos` occupies, or Err(Truncated). */
  function FieldBytes(f: seq<byte>, pos: nat, length: nat): (r: Result<seq<byte>>)
    ensures r.Ok? <==> pos + length <= |f|
    ensures r.Err? ==> r.error == Truncated
    ensures r.Ok? ==> |r.value| == length && r.value == f[pos..pos + length]
  {
    if pos + length > |f| then Err(Truncated) else Ok(f[pos..pos + length])
  }

  // ---------------------------------------------------------------------------
  // clarion_dump_field_long

  /**
   * The value of a LONG field: the little-endian 32-bit word, with its top byte
   * cleared when bit 31 is set. It is printed with "%d" and is never negative.
   */
  function LongValue(b: seq<byte>): (v: nat)
    requires |b| >= 4
    ensures v < 0x8000_0000
    ensures b[3] >= 0x80 ==> v == U32(b, 0) % 0x100_0000
    ensures b[3] < 0x80 ==> v == U32(b, 0)
  {
    LowWord(b);
    if b[3] >= 0x80 then U16(b, 0) + 0x1_0000 * b[2] as nat else U32(b, 0)
  }

  /** The low three bytes of a 32-bit word are the word modulo 2^24. */
  lemma LowWord(b: seq<byte>)
    requires |b| >= 4
    ensures U32(b, 0) % 0x100_0000 == U16(b, 0) + 0x1_0000 * b[2] as nat
    ensures U32(b, 0) < 0x8000_0000 <==> b[3] < 0x80
  {
    var low := U16(b, 0) + 0x1_0000 * b[2] as nat;
    U16Bound(b, 0);
    assert U32(b, 0) == low + 0x100_0000 * b[3] as nat;
    assert low < 0x100_0000;
  }

  /** The buffer once the LONG field's top byte has been cleared in place. */
  function MaskedLong(b: seq<byte>): (r: seq<byte>)
    requires |b| >= 4
    ensures |r| == |b| && r[..3] == b[..3] && r[4..] == b[4..]
  {
    if b[3] >= 0x80 then b[3 := 0] else b
  }

  /** The word left in the buffer is the value printed. */
  lemma MaskedLongValue(b: seq<byte>)
    requires |b| >= 4
    ensures U32(MaskedLong(b), 0) == LongValue(b)
  {
  }

  /** Masking is idempotent: a second pass finds bit 31 clear. */
  lemma MaskedLongTwice(b: seq<byte>)
    requires |b| >= 4
    ensures MaskedLong(MaskedLong(b)) == MaskedLong(b)
    ensures LongValue(MaskedLong(b)) == LongValue(b)
  {
  }

  function LongField(f: seq<byte>, pos: nat, length: nat): (r: Result<string>)
    requires length >= 4
    ensures r.Ok? <==> pos + length <= |f|
    ensures r.Ok? ==> r.value == NatToString(LongValue(f[pos..pos + length]))
  {
    match FieldBytes(f, pos, length)
    case Ok(b) => Ok(NatToString(LongValue(b)))
    case Err(e) => Err(e)
  }

  /** clarion_dump_field_long: reads the field, masks it in the buffer and prints it. */
  method DumpLong(buf: array<byte>, f: seq<byte>, pos: nat, length: nat) returns (r: Result<string>)
    requires 4 <= length <= buf.Length
    modifies buf
    ensures r == LongField(f, pos, length)
    ensures r.Ok? ==> buf[..] == MaskedLong(f[pos..pos + length] + old(buf[..])[length..])
  {
    var ok := ReadInto(buf, f, pos, length);
    if !ok {
      return Err(Truncated);
    }
    assert buf[..length] == f[pos..pos + length];
    if buf[3] >= 0x80 {
      buf[3] := 0;
    }
    var v := U32(buf[..], 0);
    MaskedLongValue(old(buf[..])[..0] + f[pos..pos + length] + old(buf[..])[length..]);
    assert v == LongValue(f[pos..pos + length]);
    return Ok(NatToString(v));
  }

  // ---------------------------------------------------------------------------
  // clarion_dump_field_real (the byte-pattern test; the "%*f" rendering is a parameter)

  /** The in-memory bytes of an uninitialised REAL on a little-endian host. */
  const UninitReal: seq<byte> := [0xB0, 0xFF, 0xFF, 0xFF, 0xFF, 0xFF, 0xEF, 0xFF]

  /** memcmp(uninit, buf, length) == 0: the first `length` bytes of the pattern. */
  predicate IsUninitReal(b: seq<byte>)
    requires |b| <= 8
  {
    b == UninitReal[..|b|]
  }

  /** An eight-byte REAL is "no value" exactly when it is the pattern B0 FF FF FF FF FF EF FF. */
  lemma UninitRealExactly(b: seq<byte>)
    requires |b| == 8
    ensures IsUninitReal(b) <==>
      b[0] == 0xB0 && b[6] == 0xEF && b[1] == b[2] == b[3] == b[4] == b[5] == b[7] == 0xFF
  {
    if b[0] == 0xB0 && b[6] == 0xEF && b[1] == b[2] == b[3] == b[4] == b[5] == b[7] == 0xFF {
      assert b == UninitReal;
    }
  }

  /**
   * The output of a REAL field: the placeholder for the uninitialised pattern, and
   * otherwise `rendered`, the "%*f" text of the double.
   */
  function RealField(f: seq<byte>, pos: nat, length: nat, plchold: Option<string>, rendered: string): (r: Result<string>)
    requires length <= 8
    ensures r.Ok? <==> pos + length <= |f|
    ensures r.Ok? && IsUninitReal(f[pos..pos + length]) ==> r.value == Placeholder(plchold)
    ensures r.Ok? && !IsUninitReal(f[pos..pos + length]) ==> r.value == rendered
  {
    match FieldBytes(f, pos, length)
    case Ok(b) => Ok(if IsUninitReal(b) then Placeholder(plchold) else rendered)
    case Err(e) => Err(e)
  }

  method DumpReal(buf: array<byte>, f: seq<byte>, pos: nat, length: nat, plchold: Option<string>, rendered: string)
    returns (r: Result<string>)
    requires length <= 8 && length <= buf.Length
    modifies buf
    ensures r == RealField(f, pos, length, plchold, rendered)
    ensures r.Ok? ==> buf[..] == f[pos..pos + length] + old(buf[..])[length..]
  {
    var ok := ReadInto(buf, f, pos, length);
    if !ok {
      return Err(Truncated);
    }
    assert buf[..length] == f[pos..pos + length];
    if buf[..length] == UninitReal[..length] {
      return Ok(Placeholder(plchold));
    }
    return Ok(rendered);
  }

  // ---------------------------------------------------------------------------
  // clarion_dump_field_string

  /** The C string left in a buffer of `|b| + 1` bytes that holds `b`, a NUL, and was trimmed. */
  lemma TrimmedString(b: seq<byte>)
    ensures CStr(TrimmedBuffer(b + [0], |b|)) == CStr(b[..TrimmedLen(b)])
  {
    var n := TrimmedLen(b);
    TrimmedBufferOfNul(b);
    CutAtNul(b, n);
  }

  lemma TrimmedBufferOfNul(b: seq<byte>)
    ensures TrimmedBuffer(b + [0], |b|) == (b + [0])[TrimmedLen(b) := 0]
  {
    assert (b + [0])[..|b|] == b;
  }

  lemma CutAtNul(b: seq<byte>, n: nat)
    requires n <= |b|
    ensures CStr((b + [0])[n := 0]) == CStr(b[..n])
  {
    var t := (b + [0])[n := 0];
    CStrCut(t, n);
    assert t[..n] == b[..n];
  }

  /** Bytes printed as a value, or the placeholder when there are none. */
  function OrPlaceholder(s: seq<byte>, plchold: Option<string>): (r: string)
    ensures |s| > 0 ==> r == Text(s)
    ensures |s| == 0 ==> r == Placeholder(plchold)
  {
    if |s| > 0 then Text(s) else Placeholder(plchold)
  }

  /**
   * The output of a STRING field: the text up to its last non-space byte (and up to
   * an embedded NUL before that), or the placeholder when nothing is left.
   */
  function StringField(f: seq<byte>, pos: nat, length: nat, plchold: Option<string>): (r: Result<string>)
    ensures r.Ok? <==> pos + length <= |f|
    ensures r.Ok? ==> r.value == OrPlaceholder(CStr(TrimEnd(f[pos..pos + length])), plchold)
  {
    match FieldBytes(f, pos, length)
    case Ok(b) => Ok(OrPlaceholder(CStr(TrimEnd(b)), plchold))
    case Err(e) => Err(e)
  }

  /** A STRING field prints the placeholder exactly when it is all spaces or starts with a NUL. */
  lemma StringFieldEmpty(b: seq<byte>)
    ensures |CStr(TrimEnd(b))| == 0 <==> (|b| > 0 && b[0] == 0) || forall i :: 0 <= i < |b| ==> b[i] == Space
  {
    var n := TrimmedLen(b);
    if n > 0 {
      assert TrimEnd(b)[0] == b[0];
    }
  }

  /** Without an embedded NUL the printed text is the field minus its trailing spaces. */
  lemma StringFieldNoNul(b: seq<byte>)
    requires 0 !in b
    ensures CStr(TrimEnd(b)) == TrimEnd(b)
  {
    var t := TrimEnd(b);
    assert 0 !in t;
  }

  /**
   * The first half of the STRING readers: reads the field, writes a NUL after it and
   * trims it in place, leaving the trimmed C string in the buffer.
   */
  method ReadTrimmed(buf: array<byte>, f: seq<byte>, pos: nat, length: nat) returns (ok: bool)
    requires length < buf.Length
    modifies buf
    ensures ok <==> pos + length <= |f|
    ensures ok ==> CStr(buf[..]) == CStr(TrimEnd(f[pos..pos + length]))
    ensures ok ==> buf[TrimmedLen(f[pos..pos + length])] == 0
  {
    ok := ReadInto(buf, f, pos, length);
    if !ok {
      return;
    }
    ghost var b := f[pos..pos + length];
    assert buf[..length] == b;
    buf[length] := 0;
    ghost var filled := buf[..];
    Trim(buf, length);
    ghost var n := TrimmedLen(b);
    assert filled[..length] == b;
    CStrCut(buf[..], n);
    assert buf[..][..n] == b[..n];
  }

  /** clarion_dump_field_string: prints the C string left in the buffer, or the placeholder. */
  method DumpString(buf: array<byte>, f: seq<byte>, pos: nat, length: nat, plchold: Option<string>)
    returns (r: Result<string>)
    requires length < buf.Length
    modifies buf
    ensures r == StringField(f, pos, length, plchold)
  {
    var ok := ReadTrimmed(buf, f, pos, length);
    if !ok {
      return Err(Truncated);
    }
    var s := CStr(buf[..]);
    return Ok(OrPlaceholder(s, plchold));
  }

  // ---------------------------------------------------------------------------
  // clarion_dump_field_byte, clarion_dump_field_short

  function ByteField(f: seq<byte>, pos: nat, length: nat): (r: Result<string>)
    requires length >= 1
    ensures r.Ok? <==> pos + length <= |f|
    ensures r.Ok? ==> r.value == NatToString(f[pos] as nat)
  {
    match FieldBytes(f, pos, length)
    case Ok(b) => Ok(NatToString(b[0] as nat))
    case Err(e) => Err(e)
  }

  function ShortField(f: seq<byte>, pos: nat, length: nat): (r: Result<string>)
    requires length >= 2
    ensures r.Ok? <==> pos + length <= |f|
    ensures r.Ok? ==> r.value == NatToString(U16(f, pos))
  {
    match FieldBytes(f, pos, length)
    case Ok(b) => Ok(NatToString(U16(b, 0)))
    case Err(e) => Err(e)
  }

  method DumpByte(buf: array<byte>, f: seq<byte>, pos: nat, length: nat) returns (r: Result<string>)
    requires 1 <= length <= buf.Length
    modifies buf
    ensures r == ByteField(f, pos, length)
    ensures r.Ok? ==> buf[..] == f[pos..pos + length] + old(buf[..])[length..]
  {
    var ok := ReadInto(buf, f, pos, length);
    if !ok {
      return Err(Truncated);
    }
    assert buf[0] == f[pos];
    return Ok(NatToString(buf[0] as nat));
  }

  method DumpShort(buf: array<byte>, f: seq<byte>, pos: nat, length: nat) returns (r: Result<string>)
    requires 2 <= length <= buf.Length
    modifies buf
    ensures r == ShortField(f, pos, length)
    ensures r.Ok? ==> buf[..] == f[pos..pos + length] + old(buf[..])[length..]
  {
    var ok := ReadInto(buf, f, pos, length);
    if !ok {
      return Err(Truncated);
    }
    assert buf[0] == f[pos] && buf[1] == f[pos + 1];
    return Ok(NatToString(buf[0] as nat + 256 * buf[1] as nat));
  }

  // ---------------------------------------------------------------------------
  // clarion_dump_field_decimal

  /** Number of BCD digits of a field of `length` bytes: the first nibble is dropped when decsig is odd. */
  function DigitCount(length: nat, odd: bool): nat
  {
    if odd && length > 0 then 2 * length - 1 else 2 * length
  }

  /** Nibble `n` of `b`, counting the high nibble of each byte first. */
  function Nibble(b: seq<byte>, n: nat): (d: nat)
    requires n < 2 * |b|
    ensures d < 16
  {
    if n % 2 == 0 then b[n / 2] as nat / 16 else b[n / 2] as nat % 16
  }

  /** A nibble printed as `nibble + '0'` (10..15 give ':' .. '?'). */
  function NibbleChar(d: nat): (c: char)
    requires d < 16
    ensures '0' <= c <= '?' && c != '.'
  {
    ('0' as int + d) as char
  }

  /** The digit characters of a packed decimal, before the point is placed. */
  function Digits(b: seq<byte>, odd: bool): (r: string)
    ensures |r| == DigitCount(|b|, odd)
  {
    var skip := Skipped(|b|, odd);
    seq(DigitCount(|b|, odd), k requires 0 <= k < DigitCount(|b|, odd) => NibbleChar(Nibble(b, k + skip)))
  }

  /** One more digit of the prefix is the next nibble. */
  lemma DigitsStep(b: seq<byte>, odd: bool, e: nat, skip: nat)
    requires e < DigitCount(|b|, odd) && skip == Skipped(|b|, odd)
    ensures e + skip < 2 * |b|
    ensures Digits(b, odd)[..e + 1] == Digits(b, odd)[..e] + [NibbleChar(Nibble(b, e + skip))]
  {
    var d := Digits(b, odd);
    assert d[..e + 1] == d[..e] + [d[e]];
  }

  /** `d` with a '.' before digit `p`, when such a digit exists. */
  function WithPoint(d: string, p: int): (r: string)
    ensures 0 <= p < |d| ==> |r| == |d| + 1 && r[p] == '.' && r[..p] == d[..p] && r[p + 1..] == d[p..]
    ensures !(0 <= p < |d|) ==> r == d
  {
    if 0 <= p < |d| then d[..p] + "." + d[p..] else d
  }

  /**
   * The characters the DECIMAL loop builds: 2*length - (decsig mod 2) digit
   * characters, with '.' inserted once decsig - decdec digits have been written.
   */
  function DecimalChars(b: seq<byte>, decsig: nat, decdec: nat): (r: string)
    ensures var p := decsig - decdec; var n := DigitCount(|b|, decsig % 2 == 1);
      (0 <= p < n ==> |r| == n + 1 && r[p] == '.') && (!(0 <= p < n) ==> |r| == n)
  {
    WithPoint(Digits(b, decsig % 2 == 1), decsig - decdec)
  }

  /** The point sits only where it was inserted. */
  lemma DecimalCharsOnePoint(b: seq<byte>, decsig: nat, decdec: nat, k: nat)
    requires k < |DecimalChars(b, decsig, decdec)|
    ensures DecimalChars(b, decsig, decdec)[k] == '.' <==> k == decsig - decdec
  {
    var odd := decsig % 2 == 1;
    var d := Digits(b, odd);
    forall j | 0 <= j < |d|
      ensures d[j] != '.'
    {
      assert d[j] == NibbleChar(Nibble(b, j + Skipped(|b|, odd)));
    }
  }

  /** Appending a digit: the point goes in first when exactly `p` digits precede it. */
  lemma WithPointStep(d: string, c: char, p: int)
    ensures WithPoint(d + [c], p) == (if p == |d| then WithPoint(d, p) + ['.'] else WithPoint(d, p)) + [c]
  {
    if 0 <= p < |d| {
      assert (d + [c])[..p] == d[..p];
      assert (d + [c])[p..] == d[p..] + [c];
    }
  }

  /** `s` without its leading '0' characters. */
  function StripZeros(s: string): (r: string)
    ensures |r| <= |s| && r == s[|s| - |r|..]
    ensures forall k :: 0 <= k < |s| - |r| ==> s[k] == '0'
    ensures |r| == 0 || r[0] != '0'
  {
    if |s| > 0 && s[0] == '0' then StripZeros(s[1..]) else s
  }

  /** What is printed for the stripped characters: "0" before a leading point, the placeholder for none. */
  function Render(t: string, plchold: Option<string>): string
  {
    if |t| > 0 && t[0] == '.' then "0" + t
    else if |t| > 0 then t
    else Placeholder(plchold)
  }

  /**
   * The output of a DECIMAL field with every leading zero stripped, as intended:
   * without a placeholder it is empty exactly when every digit is a zero.
   */
  function DecimalText(b: seq<byte>, decsig: nat, decdec: nat, plchold: Option<string>): (r: string)
    ensures plchold.None? ==>
      (r == "" <==> forall k :: 0 <= k < |DecimalChars(b, decsig, decdec)| ==> DecimalChars(b, decsig, decdec)[k] == '0')
  {
    Render(StripZeros(DecimalChars(b, decsig, decdec)), plchold)
  }

  /**
   * The output as written: the strip loop is guarded by `i < strlen(cbuf)`, and `i`
   * is still the byte count of the digit loop, so nothing is stripped unless the
   * characters outnumber the bytes.
   */
  function DecimalTextAsWritten(b: seq<byte>, decsig: nat, decdec: nat, plchold: Option<string>): (r: string)
    ensures |b| < |DecimalChars(b, decsig, decdec)| ==> r == DecimalText(b, decsig, decdec, plchold)
    ensures |b| > 0 && |DecimalChars(b, decsig, decdec)| <= |b| ==> |r| == 1 && r == DecimalChars(b, decsig, decdec)
  {
    DecimalCharsShape(b, decsig, decdec);
    var s := DecimalChars(b, decsig, decdec);
    Render(if |b| < |s| then StripZeros(s) else s, plchold)
  }

  /**
   * A DECIMAL prints no superfluous leading zero: the output is the placeholder, or
   * it starts with a non-zero character, or with "0." for a value below one.
   */
  lemma DecimalTextNoLeadingZero(b: seq<byte>, decsig: nat, decdec: nat, plchold: Option<string>)
    ensures var r := DecimalText(b, decsig, decdec, plchold);
      r == Placeholder(plchold) || (|r| > 0 && r[0] != '0') || (|r| >= 2 && r[..2] == "0.")
  {
  }

  /**
   * The strip guard as written differs from stripping every leading zero on exactly
   * one kind of field: one byte, an odd decsig, no point, and a zero digit, which
   * prints "0" where every wider zero prints the placeholder.
   */
  lemma DecimalAsWrittenDiffers(b: seq<byte>, decsig: nat, decdec: nat, plchold: Option<string>)
    ensures DecimalTextAsWritten(b, decsig, decdec, plchold) != DecimalText(b, decsig, decdec, plchold) <==>
      |b| == 1 && decsig % 2 == 1 && decsig != decdec && b[0] % 16 == 0 && Placeholder(plchold) != "0"
  {
    var s := DecimalChars(b, decsig, decdec);
    if |b| == 1 && decsig % 2 == 1 && decsig != decdec {
      DecimalOneDigit(b, decsig, decdec);
      if b[0] % 16 == 0 {
        assert s == "0" && StripZeros(s) == "";
      } else {
        assert s[0] != '0';
      }
    } else {
      DecimalCharsOutnumber(b, decsig, decdec);
    }
  }

  /** One byte with an odd decsig and no point holds the single digit of its low nibble. */
  lemma DecimalOneDigit(b: seq<byte>, decsig: nat, decdec: nat)
    requires |b| == 1 && decsig % 2 == 1 && decsig != decdec
    ensures DecimalChars(b, decsig, decdec) == [NibbleChar(b[0] as nat % 16)]
  {
    var d := Digits(b, true);
    assert |d| == 1 && d[0] == NibbleChar(Nibble(b, 1));
  }

  /** Otherwise the characters outnumber the bytes, or there are none. */
  lemma DecimalCharsOutnumber(b: seq<byte>, decsig: nat, decdec: nat)
    requires !(|b| == 1 && decsig % 2 == 1 && decsig != decdec)
    ensures |b| < |DecimalChars(b, decsig, decdec)| || DecimalChars(b, decsig, decdec) == ""
  {
  }

  /** The digit characters outnumber the bytes, or there are none, or there is one byte and one digit. */
  lemma DecimalCharsShape(b: seq<byte>, decsig: nat, decdec: nat)
    ensures var s := DecimalChars(b, decsig, decdec);
      (|b| < |s| || (|b| == 1 && s == [NibbleChar(b[0] as nat % 16)]) || s == "") && (s == "" ==> |b| == 0)
  {
    if |b| == 1 && decsig % 2 == 1 && decsig != decdec {
      DecimalOneDigit(b, decsig, decdec);
    } else {
      DecimalCharsOutnumber(b, decsig, decdec);
    }
  }

  /** A one-byte zero with one significant digit shows the discrepancy. */
  lemma DecimalZeroOneByte()
    ensures DecimalTextAsWritten([0], 1, 0, None) == "0"
    ensures DecimalText([0], 1, 0, None) == ""
  {
    DecimalOneDigit([0], 1, 0);
    assert DecimalChars([0], 1, 0) == "0";
  }

  /** Characters the point adds in front of digit `p`. */
  function Skipped(length: nat, odd: bool): nat
  {
    if odd && length > 0 then 1 else 0
  }

  /**
   * The state of the digit loop after `n` nibbles of `b` (the first one skipped when
   * decsig is odd): byte `i`, the nibble mask, and the characters written so far.
   */
  ghost predicate DigitLoop(b: seq<byte>, odd: bool, p: int, i: nat, mask: byte, n: nat, written: string)
  {
    i <= |b| && (mask == 0x0f || mask == 0xf0) &&
    (|b| > 0 ==> n == 2 * i + (if mask == 0x0f then 1 else 0)) &&
    (mask == 0x0f && |b| > 0 ==> i < |b|) &&
    Skipped(|b|, odd) <= n <= 2 * |b| &&
    |written| <= n - Skipped(|b|, odd) + 1 &&
    written == WithPoint(Digits(b, odd)[..n - Skipped(|b|, odd)], p)
  }

  /**
   * One pass of the digit loop: the point when `p` characters have been written,
   * then the digit `c`.
   */
  method PutDigit(cbuf: array<char>, count: nat, p: int, c: char, ghost d: string) returns (next: nat)
    requires count <= cbuf.Length && cbuf[..count] == WithPoint(d, p) && |d| + 2 < cbuf.Length
    modifies cbuf
    ensures next == |WithPoint(d + [c], p)| && cbuf[..next] == WithPoint(d + [c], p)
  {
    WithPointStep(d, c, p);
    next := count;
    if next == p {
      cbuf[next] := '.';
      next := next + 1;
    }
    cbuf[next] := c;
    next := next + 1;
  }

  /** The digit the mask selects from a byte: its low nibble for 0x0f, its high one otherwise. */
  function MaskedNibble(x: byte, mask: byte): (d: nat)
    ensures d < 16
  {
    if mask == 0x0f then x as nat % 16 else x as nat / 16
  }

  /** The nibbles of byte `i` sit at 2*i and 2*i + 1. */
  lemma NibbleAt(b: seq<byte>, i: nat)
    requires i < |b|
    ensures Nibble(b, 2 * i) == b[i] as nat / 16 && Nibble(b, 2 * i + 1) == b[i] as nat % 16
  {
    assert (2 * i) % 2 == 0 && (2 * i) / 2 == i;
    assert (2 * i + 1) % 2 == 1 && (2 * i + 1) / 2 == i;
  }

  /** The characters written after one more digit. */
  lemma WrittenNext(b: seq<byte>, odd: bool, p: int, i: nat, mask: byte, n: nat, c: char)
    requires i < |b| && (mask == 0x0f || mask == 0xf0)
    requires n == 2 * i + (if mask == 0x0f then 1 else 0) && Skipped(|b|, odd) <= n
    requires c == NibbleChar(MaskedNibble(b[i], mask))
    ensures n - Skipped(|b|, odd) < DigitCount(|b|, odd)
    ensures Digits(b, odd)[..n + 1 - Skipped(|b|, odd)] == Digits(b, odd)[..n - Skipped(|b|, odd)] + [c]
  {
    NibbleAt(b, i);
    DigitsStep(b, odd, n - Skipped(|b|, odd), Skipped(|b|, odd));
  }

  /** The loop state after one more pass. */
  lemma DigitLoopNext(b: seq<byte>, odd: bool, p: int, i: nat, mask: byte, n: nat, written: string,
                      i': nat, mask': byte, c: char) returns (d: string)
    requires DigitLoop(b, odd, p, i, mask, n, written) && i < |b|
    requires mask == 0x0f ==> i' == i + 1 && mask' == 0xf0
    requires mask != 0x0f ==> i' == i && mask' == 0x0f
    requires c == NibbleChar(MaskedNibble(b[i], mask))
    ensures d == Digits(b, odd)[..n - Skipped(|b|, odd)] && written == WithPoint(d, p) && |d| < 2 * |b|
    ensures DigitLoop(b, odd, p, i', mask', n + 1, WithPoint(d + [c], p))
  {
    var skip := Skipped(|b|, odd);
    d := Digits(b, odd)[..n - skip];
    WrittenNext(b, odd, p, i, mask, n, c);
    WithPointStep(d, c, p);
    assert n + 1 <= 2 * |b|;
    assert |WithPoint(d + [c], p)| <= n + 1 - skip + 1;
  }

  /** The loop starts on the first nibble, or the second for an odd decsig, with nothing written. */
  lemma DigitLoopStart(b: seq<byte>, odd: bool, p: int, mask: byte)
    requires mask == if odd then 0x0f else 0xf0
    ensures DigitLoop(b, odd, p, 0, mask, Skipped(|b|, odd), [])
  {
    assert Digits(b, odd)[..0] == [];
  }

  /** Once every byte is consumed, every digit has been written. */
  lemma DigitLoopDone(b: seq<byte>, odd: bool, p: int, mask: byte, n: nat, written: string)
    requires DigitLoop(b, odd, p, |b|, mask, n, written)
    ensures written == WithPoint(Digits(b, odd), p) && |written| <= 2 * |b| + 1
  {
    assert Digits(b, odd)[..n - Skipped(|b|, odd)] == Digits(b, odd);
  }

  /** One pass of the digit loop: the nibble the mask selects, written after the point if due. */
  method DigitStep(cbuf: array<char>, odd: bool, p: int, x: byte,
                   i: nat, mask: byte, count: nat, ghost n: nat, ghost b: seq<byte>)
    returns (i': nat, mask': byte, count': nat, ghost n': nat)
    requires cbuf.Length == 2 * |b| + 2 && i < |b| && x == b[i]
    requires count <= cbuf.Length && DigitLoop(b, odd, p, i, mask, n, cbuf[..count])
    modifies cbuf
    ensures n' == n + 1 && count' <= cbuf.Length && DigitLoop(b, odd, p, i', mask', n', cbuf[..count'])
  {
    n' := n + 1;
    var c := NibbleChar(MaskedNibble(x, mask));
    mask' := if mask == 0x0f then 0xf0 else 0x0f;
    i' := if mask == 0x0f then i + 1 else i;
    ghost var d := DigitLoopNext(b, odd, p, i, mask, n, cbuf[..count], i', mask', c);
    count' := PutDigit(cbuf, count, p, c, d);
  }

  /**
   * The digit loop of clarion_dump_field_decimal: fills a fresh buffer of
   * 2*length + 2 characters and returns it with the index of its final NUL.
   */
  method BuildDecimal(buf: array<byte>, length: nat, decsig: nat, decdec: nat) returns (cbuf: array<char>, count: nat)
    requires length <= buf.Length
    ensures cbuf.Length == 2 * length + 2 && count < cbuf.Length
    ensures cbuf[..count] == DecimalChars(buf[..length], decsig, decdec) && cbuf[count] == 0 as char
  {
    cbuf := new char[2 * length + 2];
    count := DigitPasses(buf, cbuf, length, decsig % 2 == 1, decsig - decdec);
    ghost var written := cbuf[..count];
    cbuf[count] := 0 as char;
    assert cbuf[..count] == written;
  }

  /** The `while (i < length)` loop itself, writing into `cbuf`. */
  method DigitPasses(buf: array<byte>, cbuf: array<char>, length: nat, odd: bool, p: int) returns (count: nat)
    requires length <= buf.Length && cbuf.Length == 2 * length + 2
    modifies cbuf
    ensures count < cbuf.Length && cbuf[..count] == WithPoint(Digits(buf[..length], odd), p)
  {
    var mask: byte := if odd then 0x0f else 0xf0;
    var i: nat := 0;
    count := 0;
    ghost var n := Skipped(length, odd);
    ghost var b := buf[..length];
    DigitLoopStart(b, odd, p, mask);
    while i < length
      invariant count <= cbuf.Length && buf[..length] == b
      invariant DigitLoop(b, odd, p, i, mask, n, cbuf[..count])
      decreases 2 * length - n
    {
      i, mask, count, n := DigitStep(cbuf, odd, p, buf[i], i, mask, count, n, b);
    }
    DigitLoopDone(b, odd, p, mask, n, cbuf[..count]);
  }

  /**
   * The strip loop, guarded by `i < strlen(cbuf)` with `i` the byte count the digit
   * loop left: every leading '0' of cbuf[0..count) is skipped when the guard holds,
   * none otherwise.
   */
  method SkipZeros(cbuf: array<char>, count: nat, i: nat) returns (o: nat)
    requires count <= cbuf.Length
    ensures o <= count
    ensures i < count ==> cbuf[o..count] == StripZeros(cbuf[..count])
    ensures i >= count ==> o == 0
  {
    o := 0;
    if i >= count {
      return;
    }
    while o < count
      invariant o <= count
      invariant StripZeros(cbuf[o..count]) == StripZeros(cbuf[..count])
    {
      if cbuf[o] != '0' {
        break;
      }
      assert cbuf[o..count][1..] == cbuf[o + 1..count];
      o := o + 1;
    }
  }

  /** The output of a DECIMAL field of `length` bytes at `pos`, or Err(Truncated). */
  function DecimalField(f: seq<byte>, pos: nat, length: nat, decsig: nat, decdec: nat, plchold: Option<string>)
    : (r: Result<string>)
    ensures r.Ok? <==> pos + length <= |f|
    ensures r.Ok? ==> r.value == DecimalTextAsWritten(f[pos..pos + length], decsig, decdec, plchold)
  {
    match FieldBytes(f, pos, length)
    case Ok(b) => Ok(DecimalTextAsWritten(b, decsig, decdec, plchold))
    case Err(e) => Err(e)
  }

  /** clarion_dump_field_decimal: reads the field, builds its digits and prints them stripped. */
  method DumpDecimal(buf: array<byte>, f: seq<byte>, pos: nat, length: nat, decsig: nat, decdec: nat,
                     plchold: Option<string>) returns (r: Result<string>)
    requires length <= buf.Length
    modifies buf
    ensures r == DecimalField(f, pos, length, decsig, decdec, plchold)
  {
    var ok := ReadInto(buf, f, pos, length);
    if !ok {
      return Err(Truncated);
    }
    assert buf[..length] == f[pos..pos + length];
    var t := RenderDecimal(buf, length, decsig, decdec, plchold);
    return Ok(t);
  }

  /** The digits of the `length` bytes at the front of `buf`, stripped and printed. */
  method RenderDecimal(buf: array<byte>, length: nat, decsig: nat, decdec: nat, plchold: Option<string>)
    returns (t: string)
    requires length <= buf.Length
    ensures t == DecimalTextAsWritten(buf[..length], decsig, decdec, plchold)
  {
    var cbuf, count := BuildDecimal(buf, length, decsig, decdec);
    ghost var s := cbuf[..count];
    var o := SkipZeros(cbuf, count, length);
    var rest := cbuf[o..count];
    assert rest == if length < |s| then StripZeros(s) else s;
    if o < count && cbuf[o] == '.' {
      return "0" + rest;
    } else if o < count {
      return rest;
    }
    return Placeholder(plchold);
  }

  // ---------------------------------------------------------------------------
  // clarion_dump_memo_entry

  /**
   * Offset of memo block `blk`: 256 bytes a block after the 6-byte memo header. The
   * seek computes it in uint32 arithmetic, so only the low 24 bits of the block
   * number count (BlockStartWraps).
   */
  function BlockStart(blk: nat): (r: nat)
    ensures MemoHeaderSize <= r < 0x1_0000_0000
  {
    MemoBlockSize * Low24(blk) + MemoHeaderSize
  }

  /** The block number modulo 2^24, by repeated subtraction. */
  function Low24(blk: nat): (r: nat)
    ensures r < 0x100_0000
  {
    if blk < 0x100_0000 then blk else Low24(blk - 0x100_0000)
  }

  lemma {:induction false} Low24Mod(blk: nat)
    ensures Low24(blk) == blk % 0x100_0000
  {
    if blk >= 0x100_0000 {
      Low24Mod(blk - 0x100_0000);
      DivUnique(blk, 0x100_0000, (blk - 0x100_0000) / 0x100_0000 + 1, (blk - 0x100_0000) % 0x100_0000);
    }
  }

  /** The offset is `blk * 256 + 6` taken modulo 2^32, as the uint32 expression of the seek gives it. */
  lemma BlockStartWraps(blk: nat)
    ensures BlockStart(blk) == (blk * MemoBlockSize + MemoHeaderSize) % 0x1_0000_0000
  {
    Low24Mod(blk);
    var q, t := blk / 0x100_0000, blk % 0x100_0000;
    assert blk == 0x100_0000 * q + t;
    assert blk * MemoBlockSize + MemoHeaderSize == 0x1_0000_0000 * q + (MemoBlockSize * t + MemoHeaderSize);
    DivUnique(blk * MemoBlockSize + MemoHeaderSize, 0x1_0000_0000, q, MemoBlockSize * t + MemoHeaderSize);
  }

  predicate BlockFits(mem: seq<byte>, blk: nat)
  {
    BlockStart(blk) + MemoBlockSize <= |mem|
  }

  /** The block number stored in the first four bytes of block `blk`. */
  function NextBlock(mem: seq<byte>, blk: nat): nat
    requires BlockFits(mem, blk)
  {
    U32(mem, BlockStart(blk))
  }

  /** The 252 text bytes of block `blk`. */
  function BlockBytes(mem: seq<byte>, blk: nat): (r: seq<byte>)
    requires BlockFits(mem, blk)
    ensures |r| == MemoTextSize
  {
    mem[BlockStart(blk) + 4..BlockStart(blk) + MemoBlockSize]
  }

  /**
   * The bytes one block prints: its text up to the first NUL, and for the last block
   * of a chain (next pointer 0) only up to the last non-space byte of all 252.
   */
  function BlockText(mem: seq<byte>, blk: nat): seq<byte>
    requires BlockFits(mem, blk)
  {
    var raw := BlockBytes(mem, blk);
    if NextBlock(mem, blk) == 0 then CStr(raw[..TrimmedLen(raw)]) else CStr(raw)
  }

  /** A memo block as the walk sees it: its next pointer and the bytes it prints. */
  datatype Block = Block(next: nat, text: seq<byte>)

  /** The memo file as a block reader: None for a block that runs past the end of the file. */
  function Reader(mem: seq<byte>): nat -> Option<Block>
  {
    (blk: nat) => if BlockFits(mem, blk) then Some(Block(NextBlock(mem, blk), BlockText(mem, blk))) else None
  }

  /** Reading block `blk` of the memo file. */
  function ReadBlock(mem: seq<byte>, blk: nat): (r: Option<Block>)
    ensures r.Some? <==> BlockFits(mem, blk)
    ensures r.Some? ==> r.value.next == NextBlock(mem, blk) && r.value.text == BlockText(mem, blk)
  {
    Reader(mem)(blk)
  }

  /** Whether the walk stops after block `blk`, whose next pointer is `next`: 0, or the block itself. */
  predicate Ends(blk: nat, next: nat)
  {
    next == 0 || next == blk
  }

  function Append(pre: seq<byte>, r: Result<seq<byte>>): (s: Result<seq<byte>>)
    ensures s.Ok? <==> r.Ok?
    ensures r.Err? ==> s == r
    ensures r.Ok? ==> s.value == pre + r.value
  {
    match r
    case Ok(t) => Ok(pre + t)
    case Err(e) => Err(e)
  }

  lemma AppendAssoc(a: seq<byte>, b: seq<byte>, r: Result<seq<byte>>)
    ensures Append(a, Append(b, r)) == Append(a + b, r)
  {
    if r.Ok? {
      assert a + (b + r.value) == (a + b) + r.value;
    }
  }

  /**
   * The bytes printed for the chain that starts at block `blk`, following each block's next
   * pointer until it is 0 or names the block itself; `fuel` bounds the number of
   * further blocks (a longer cycle never ends in the source).
   */
  function Walk(read: nat -> Option<Block>, blk: nat, fuel: nat): (r: Result<seq<byte>>)
    ensures r.Err? ==> r.error == Truncated || r.error == Looping
    decreases fuel
  {
    match read(blk)
    case None => Err(Truncated)
    case Some(b) =>
      if Ends(blk, b.next) then Ok(b.text)
      else if fuel == 0 then Err(Looping)
      else Append(b.text, Walk(read, b.next, fuel - 1))
  }

  /** The printed bytes of the memo chain from block `blk` of the memo file `mem`. */
  function MemoChain(mem: seq<byte>, blk: nat, fuel: nat): (r: Result<seq<byte>>)
    ensures r.Err? ==> r.error == Truncated || r.error == Looping
    ensures r.Ok? ==> BlockFits(mem, blk)
    decreases fuel
  {
    if !BlockFits(mem, blk) then Err(Truncated)
    else if Ends(blk, NextBlock(mem, blk)) then Ok(BlockText(mem, blk))
    else if fuel == 0 then Err(Looping)
    else Append(BlockText(mem, blk), MemoChain(mem, NextBlock(mem, blk), fuel - 1))
  }

  /**
   * The block at which the memo chain from `blk` stops because that block's next
   * pointer names the block itself (a zero pointer is tested first); None when the
   * chain ends any other way.
   */
  function MemoLoop(mem: seq<byte>, blk: nat, fuel: nat): (r: Option<nat>)
    ensures r.Some? ==> r.value != 0 && BlockFits(mem, r.value) && NextBlock(mem, r.value) == r.value
    decreases fuel
  {
    if !BlockFits(mem, blk) || NextBlock(mem, blk) == 0 then None
    else if NextBlock(mem, blk) == blk then Some(blk)
    else if fuel == 0 then None
    else MemoLoop(mem, NextBlock(mem, blk), fuel - 1)
  }

  /** A walk that reports a block looping back to itself has printed the whole chain. */
  lemma {:induction false} MemoLoopChain(mem: seq<byte>, blk: nat, fuel: nat)
    ensures MemoLoop(mem, blk, fuel).Some? ==> MemoChain(mem, blk, fuel).Ok?
    decreases fuel
  {
    if BlockFits(mem, blk) && NextBlock(mem, blk) != 0 && NextBlock(mem, blk) != blk && fuel > 0 {
      MemoLoopChain(mem, NextBlock(mem, blk), fuel - 1);
    }
  }

  /**
   * Along a chain of blocks, the walk reports a loop exactly when the chain's last
   * block links to itself, and then names that block.
   */
  lemma MemoLoopAtEnd(mem: seq<byte>, blks: seq<nat>, fuel: nat)
    requires IsChain(Reader(mem), blks) && |blks| <= fuel + 1
    ensures var last := blks[|blks| - 1];
      BlockFits(mem, last) &&
      MemoLoop(mem, blks[0], fuel) == if NextBlock(mem, last) == last && last != 0 then Some(last) else None
  {
    ChainLinked(mem, blks);
    LinkedLoop(mem, blks, fuel);
  }

  /** `blks` are blocks of the memo file, each linking to the next, the last one ending the chain. */
  predicate Linked(mem: seq<byte>, blks: seq<nat>)
  {
    && |blks| > 0 && BlockFits(mem, blks[0])
    && if |blks| == 1 then Ends(blks[0], NextBlock(mem, blks[0]))
       else !Ends(blks[0], NextBlock(mem, blks[0])) && NextBlock(mem, blks[0]) == blks[1] && Linked(mem, blks[1..])
  }

  lemma {:induction false} ChainLinked(mem: seq<byte>, blks: seq<nat>)
    requires IsChain(Reader(mem), blks)
    ensures Linked(mem, blks)
  {
    ChainHead(mem, blks);
    if |blks| > 1 {
      ChainLinked(mem, blks[1..]);
    }
  }

  lemma {:induction false} LinkedLoop(mem: seq<byte>, blks: seq<nat>, fuel: nat)
    requires Linked(mem, blks) && |blks| <= fuel + 1
    ensures var last := blks[|blks| - 1];
      BlockFits(mem, last) &&
      MemoLoop(mem, blks[0], fuel) == if NextBlock(mem, last) == last && last != 0 then Some(last) else None
  {
    if |blks| == 1 {
      MemoLoopLast(mem, blks[0], fuel);
    } else {
      var tail := blks[1..];
      assert NextBlock(mem, blks[0]) == tail[0] && Linked(mem, tail);
      LinkedLoop(mem, tail, fuel - 1);
      assert tail[|tail| - 1] == blks[|blks| - 1];
      MemoLoopStep(mem, blks[0], fuel);
    }
  }

  /** The first block of a chain in the memo file, and how it links to the rest. */
  lemma ChainHead(mem: seq<byte>, blks: seq<nat>)
    requires IsChain(Reader(mem), blks)
    ensures BlockFits(mem, blks[0])
    ensures |blks| == 1 ==> Ends(blks[0], NextBlock(mem, blks[0]))
    ensures |blks| > 1 ==> !Ends(blks[0], NextBlock(mem, blks[0])) && NextBlock(mem, blks[0]) == blks[1]
    ensures |blks| > 1 ==> IsChain(Reader(mem), blks[1..])
  {
    assert Reader(mem)(blks[0]) == ReadBlock(mem, blks[0]);
  }

  lemma MemoLoopLast(mem: seq<byte>, blk: nat, fuel: nat)
    requires BlockFits(mem, blk) && Ends(blk, NextBlock(mem, blk))
    ensures MemoLoop(mem, blk, fuel) == if NextBlock(mem, blk) == blk && blk != 0 then Some(blk) else None
  {
  }

  lemma MemoLoopStep(mem: seq<byte>, blk: nat, fuel: nat)
    requires BlockFits(mem, blk) && !Ends(blk, NextBlock(mem, blk)) && fuel > 0
    ensures MemoLoop(mem, blk, fuel) == MemoLoop(mem, NextBlock(mem, blk), fuel - 1)
  {
  }

  /** The stderr line of clarion_dump_memo_entry for a chain that stops at a block linking to itself. */
  function LoopNote(loop: Option<nat>): string
  {
    match loop
    case None => ""
    case Some(blk) => "Memo entry " + Hex(blk, 8) + " looping back to itself\n"
  }

  /** `read` gives the blocks of the memo file `mem`. */
  ghost predicate ReadsFile(read: nat -> Option<Block>, mem: seq<byte>)
  {
    forall blk {:trigger ReadBlock(mem, blk)} :: read(blk) == ReadBlock(mem, blk)
  }

  lemma ReaderReadsFile(mem: seq<byte>)
    ensures ReadsFile(Reader(mem), mem)
  {
  }

  /** Any reader that gives the blocks of `mem` walks the chain of `mem`. */
  lemma {:induction false} WalkReadsFile(read: nat -> Option<Block>, mem: seq<byte>, blk: nat, fuel: nat)
    requires ReadsFile(read, mem)
    ensures Walk(read, blk, fuel) == MemoChain(mem, blk, fuel)
    decreases fuel
  {
    assert read(blk) == ReadBlock(mem, blk);
    if read(blk).Some? && !Ends(blk, read(blk).value.next) && fuel > 0 {
      WalkReadsFile(read, mem, read(blk).value.next, fuel - 1);
    }
  }

  /** A walk's bytes printed with "%s", or its error. */
  function Printed(c: Result<seq<byte>>): Result<string>
  {
    match c
    case Ok(t) => Ok(Text(t))
    case Err(e) => Err(e)
  }

  /** A walk that completes within some fuel completes the same way with more. */
  lemma {:induction false} WalkFuel(read: nat -> Option<Block>, blk: nat, fuel: nat, more: nat)
    requires Walk(read, blk, fuel).Ok? && fuel <= more
    ensures Walk(read, blk, more) == Walk(read, blk, fuel)
    decreases fuel
  {
    var b := read(blk).value;
    if !Ends(blk, b.next) {
      WalkFuel(read, b.next, fuel - 1, more - 1);
    }
  }

  /** Extra fuel does not change a memo chain that completes. */
  lemma MemoChainFuel(mem: seq<byte>, blk: nat, fuel: nat, more: nat)
    requires MemoChain(mem, blk, fuel).Ok? && fuel <= more
    ensures MemoChain(mem, blk, more) == MemoChain(mem, blk, fuel)
  {
    ReaderReadsFile(mem);
    WalkReadsFile(Reader(mem), mem, blk, fuel);
    WalkReadsFile(Reader(mem), mem, blk, more);
    WalkFuel(Reader(mem), blk, fuel, more);
  }

  /**
   * Blocks b0, b1, ... form a chain when each can be read, each one's next
   * pointer is the following block (neither 0 nor itself), and the last one ends the walk.
   */
  ghost predicate IsChain(read: nat -> Option<Block>, blks: seq<nat>)
  {
    if |blks| == 0 || read(blks[0]).None? then false
    else if |blks| == 1 then Ends(blks[0], read(blks[0]).value.next)
    else
      var next := read(blks[0]).value.next;
      !Ends(blks[0], next) && next == blks[1] && IsChain(read, blks[1..])
  }

  lemma {:induction false} ChainBlocksRead(read: nat -> Option<Block>, blks: seq<nat>)
    requires IsChain(read, blks)
    ensures forall k :: 0 <= k < |blks| ==> read(blks[k]).Some?
  {
    if |blks| > 1 {
      ChainBlocksRead(read, blks[1..]);
      assert forall k :: 1 <= k < |blks| ==> blks[k] == blks[1..][k - 1];
    }
  }

  /** The bytes a list of blocks prints, one after the other. */
  function BlocksText(read: nat -> Option<Block>, blks: seq<nat>): seq<byte>
    requires forall k :: 0 <= k < |blks| ==> read(blks[k]).Some?
  {
    if |blks| == 0 then [] else read(blks[0]).value.text + BlocksText(read, blks[1..])
  }

  /**
   * The walk prints exactly the blocks of the chain in order, given fuel for every
   * block after the first.
   */
  lemma {:induction false} WalkBlocks(read: nat -> Option<Block>, blks: seq<nat>, fuel: nat)
    requires IsChain(read, blks) && |blks| <= fuel + 1
    ensures (forall k :: 0 <= k < |blks| ==> read(blks[k]).Some?) &&
      Walk(read, blks[0], fuel) == Ok(BlocksText(read, blks))
  {
    ChainBlocksRead(read, blks);
    var b := read(blks[0]).value;
    if |blks| == 1 {
      assert BlocksText(read, blks[1..]) == [];
      assert BlocksText(read, blks) == b.text + [] == b.text;
    } else {
      WalkBlocks(read, blks[1..], fuel - 1);
      assert Walk(read, blks[0], fuel) == Append(b.text, Walk(read, blks[1], fuel - 1));
    }
  }

  /** The memo chain of a file prints exactly the text of its blocks, in order. */
  lemma MemoChainBlocks(mem: seq<byte>, blks: seq<nat>, fuel: nat)
    requires IsChain(Reader(mem), blks) && |blks| <= fuel + 1
    ensures (forall k :: 0 <= k < |blks| ==> Reader(mem)(blks[k]).Some?) &&
      MemoChain(mem, blks[0], fuel) == Ok(BlocksText(Reader(mem), blks))
  {
    ReaderReadsFile(mem);
    WalkReadsFile(Reader(mem), mem, blks[0], fuel);
    WalkBlocks(Reader(mem), blks, fuel);
  }

  /** What the memo buffer holds once the NUL is in place and, for a last block, it is trimmed. */
  lemma MemoBuffer(raw: seq<byte>, last: bool, buffer: seq<byte>)
    requires buffer == if last then TrimmedBuffer(raw + [0], |raw|) else raw + [0]
    ensures CStr(buffer) == if last then CStr(raw[..TrimmedLen(raw)]) else CStr(raw)
  {
    if last {
      TrimmedString(raw);
    } else {
      CStrCut(buffer, |raw|);
      assert buffer[..|raw|] == raw;
    }
  }

  /**
   * One block read into the entry buffer: its next pointer, then its 252 bytes and a
   * NUL; a last block is trimmed. The buffer then holds the C string the block prints.
   */
  method LoadMemoBlock(memo: array<byte>, mem: seq<byte>, blk: nat) returns (nxtblk: nat)
    requires memo.Length == MemoTextSize + 1 && BlockFits(mem, blk)
    modifies memo
    ensures nxtblk == NextBlock(mem, blk)
    ensures CStr(memo[..]) == BlockText(mem, blk) && |BlockText(mem, blk)| <= MemoTextSize
  {
    var p := BlockStart(blk);
    nxtblk := U32(mem, p);
    var ok := ReadInto(memo, mem, p + 4, MemoTextSize);
    ghost var raw := BlockBytes(mem, blk);
    memo[MemoTextSize] := 0;
    assert memo[..] == raw + [0];
    if nxtblk == 0 {
      Trim(memo, MemoTextSize);
      assert memo[..] == TrimmedBuffer(raw + [0], |raw|) by {
        assert (raw + [0])[..MemoTextSize] == raw;
      }
    }
    MemoBuffer(raw, nxtblk == 0, memo[..]);
  }

  /** One block of the walk: load it, then print the C string it leaves in the buffer. */
  method ReadMemoBlock(memo: array<byte>, mem: seq<byte>, blk: nat) returns (nxtblk: nat, text: seq<byte>)
    requires memo.Length == MemoTextSize + 1 && BlockFits(mem, blk)
    modifies memo
    ensures nxtblk == NextBlock(mem, blk) && text == BlockText(mem, blk)
  {
    nxtblk := LoadMemoBlock(memo, mem, blk);
    text := CStr(memo[..]);
  }

  /** Where the walk stands after printing `out`: the whole walk is `out` and then the rest from `blk`. */
  lemma WalkNext(whole: Result<seq<byte>>, read: nat -> Option<Block>, mem: seq<byte>, out: seq<byte>, blk: nat, left: nat)
    requires ReadsFile(read, mem)
    requires whole == Append(out, Walk(read, blk, left))
    ensures !BlockFits(mem, blk) ==> whole == Err(Truncated)
    ensures BlockFits(mem, blk) && Ends(blk, NextBlock(mem, blk)) ==> whole == Ok(out + BlockText(mem, blk))
    ensures BlockFits(mem, blk) && !Ends(blk, NextBlock(mem, blk)) && left == 0 ==> whole == Err(Looping)
    ensures BlockFits(mem, blk) && !Ends(blk, NextBlock(mem, blk)) && left > 0 ==>
      whole == Append(out + BlockText(mem, blk), Walk(read, NextBlock(mem, blk), left - 1))
  {
    assert read(blk) == ReadBlock(mem, blk);
    if read(blk).Some? && !Ends(blk, read(blk).value.next) && left > 0 {
      var b := read(blk).value;
      AppendAssoc(out, b.text, Walk(read, b.next, left - 1));
    }
  }

  /**
   * The walk of clarion_dump_memo_entry from block `start` of the memo file `mem`, with at
   * most `fuel` further blocks, each read into the entry buffer; `read` names the blocks.
   */
  method WalkMemo(mem: seq<byte>, ghost read: nat -> Option<Block>, start: nat, fuel: nat)
    returns (r: Result<seq<byte>>, loop: Option<nat>)
    requires ReadsFile(read, mem)
    ensures r == Walk(read, start, fuel)
    ensures loop == MemoLoop(mem, start, fuel)
  {
    var memo := new byte[MemoTextSize + 1];
    var out: seq<byte> := [];
    var curblk := start;
    var left := fuel;
    ghost var whole := Walk(read, start, fuel);
    assert whole.Ok? ==> out + whole.value == whole.value;
    while true
      invariant whole == Append(out, Walk(read, curblk, left))
      invariant MemoLoop(mem, curblk, left) == MemoLoop(mem, start, fuel)
      decreases left
    {
      WalkNext(whole, read, mem, out, curblk, left);
      if !BlockFits(mem, curblk) {
        return Err(Truncated), None;
      }
      var nxtblk, text := ReadMemoBlock(memo, mem, curblk);
      if nxtblk == 0 {
        return Ok(out + text), None;
      } else if nxtblk == curblk {
        return Ok(out + text), Some(curblk);
      }
      if left == 0 {
        return Err(Looping), None;
      }
      out := out + text;
      curblk := nxtblk;
      left := left - 1;
    }
  }

  /** The memo of a record: the placeholder for a deleted record or a zero pointer, else its chain. */
  function MemoEntry(rh: RecordHeader, mem: seq<byte>, plchold: Option<string>, fuel: nat): (r: Result<string>)
    ensures HasMask(rh.rhd, RecordDeleted) || rh.rptr == 0 ==> r == Ok(Placeholder(plchold))
  {
    if HasMask(rh.rhd, RecordDeleted) || rh.rptr == 0 then Ok(Placeholder(plchold))
    else Printed(MemoChain(mem, rh.rptr - 1, fuel))
  }

  /**
   * The stderr output of clarion_dump_memo_entry: the loop line when the chain of a
   * live record with a memo stops at a block linking to itself, else nothing.
   */
  function MemoNote(rh: RecordHeader, mem: seq<byte>, fuel: nat): (r: string)
    ensures r != "" ==> !HasMask(rh.rhd, RecordDeleted) && rh.rptr > 0 && MemoChain(mem, rh.rptr - 1, fuel).Ok?
  {
    if HasMask(rh.rhd, RecordDeleted) || rh.rptr == 0 then ""
    else
      MemoLoopChain(mem, rh.rptr - 1, fuel);
      LoopNote(MemoLoop(mem, rh.rptr - 1, fuel))
  }

  /** The walk over the blocks of the memo file, printed, and the block it found linking to itself. */
  method PrintChain(mem: seq<byte>, start: nat, fuel: nat) returns (r: Result<string>, loop: Option<nat>)
    ensures r == Printed(MemoChain(mem, start, fuel))
    ensures loop == MemoLoop(mem, start, fuel)
  {
    ReaderReadsFile(mem);
    var chain;
    chain, loop := WalkMemo(mem, Reader(mem), start, fuel);
    WalkReadsFile(Reader(mem), mem, start, fuel);
    r := Printed(chain);
  }

  /**
   * clarion_dump_memo_entry: the placeholder for a deleted record or a zero pointer,
   * otherwise the walk from block rptr - 1 with at most `fuel` further blocks.
   */
  method DumpMemoEntry(rh: RecordHeader, mem: seq<byte>, plchold: Option<string>, fuel: nat)
    returns (r: Result<string>, note: string)
    ensures HasMask(rh.rhd, RecordDeleted) || rh.rptr == 0 ==> r == Ok(Placeholder(plchold))
    ensures !HasMask(rh.rhd, RecordDeleted) && rh.rptr > 0 ==> r == Printed(MemoChain(mem, rh.rptr - 1, fuel))
    ensures note == MemoNote(rh, mem, fuel)
  {
    if HasMask(rh.rhd, RecordDeleted) || rh.rptr == 0 {
      return Ok(Placeholder(plchold)), "";
    }
    var loop;
    r, loop := PrintChain(mem, rh.rptr - 1, fuel);
    note := LoopNote(loop);
  }
}
