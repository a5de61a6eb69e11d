/**
 * Constants, on-disk records and byte-level helpers of the Clarion file format
 * (cldump.h), shared by every other module of the model.
 *
 * Files are byte sequences; multi-byte integers are little-endian on disk and are
 * decoded directly (the big-endian host path is the byte swap in module Utils).
 */
module Clarion {

  newtype byte = x: int | 0 <= x < 256

  /* File signatures */
  const DataFileSig: nat := 0x3343
  const MemoFileSig: nat := 0x334D

  /* ClarionHeader.sfatr masks */
  const FileLocked: nat := 1
  const FileOwned: nat := 2
  const RecordsEncrypted: nat := 4
  const MemoFileExists: nat := 8
  const FileCompressed: nat := 16
  const ReclaimDeleted: nat := 32
  const ReadOnly: nat := 64
  const MayBeCreated: nat := 128

  /* Field types */
  const FieldLong: nat := 1
  const FieldReal: nat := 2
  const FieldString: nat := 3
  const FieldStringPicTok: nat := 4
  const FieldByte: nat := 5
  const FieldShort: nat := 6
  const FieldGroup: nat := 7
  const FieldDecimal: nat := 8

  /* Record header (rhd) masks */
  const RecordNew: nat := 1
  const RecordOld: nat := 2
  const RecordRevised: nat := 4
  const RecordDeleted: nat := 16
  const RecordHeld: nat := 64

  /* Key types */
  const KeyTypeError: nat := 0xff
  const KeyTypeKey: nat := 0
  const KeyTypeIndex: nat := 1
  const KeyDupSw: nat := 1
  const KeyUprSw: nat := 2
  const KeyOptSw: nat := 4
  const KeyLokSw: nat := 8

  /* Command-line option masks */
  const OptDumpActive: nat := 1
  const OptDumpData: nat := 2
  const OptDumpMeta: nat := 4
  const OptCsvOutput: nat := 8
  const OptSqlOutput: nat := 16
  const OptSchema: nat := 32
  const OptNoMemo: nat := 64
  const OptUtf8: nat := 128
  const OptDecrypt: nat := 256
  const OptDefault: nat := 38  // DUMP_DATA | DUMP_META | SCHEMA

  /* Encryption key locations */
  const KeyNumdelsHi: nat := 1
  const KeyReservedHi: nat := 2
  const KeyReservedLo: nat := 3
  const KeyReservedMid: nat := 4

  /* Fixed sizes of the on-disk records */
  const HeaderSize: nat := 85
  const FieldDescSize: nat := 27
  const KeyDescSize: nat := 19
  const KeyPartSize: nat := 6
  const RecordHeaderSize: nat := 5
  const MemoBlockSize: nat := 256
  const MemoHeaderSize: nat := 6
  const MemoTextSize: nat := 252

  const Space: byte := 0x20

  /** The on-disk file header (ClarionHeader). Text fields keep their raw fixed-width bytes. */
  datatype Header = Header(
    filesig: nat, sfatr: nat, numbkeys: nat, numrecs: nat, numdels: nat,
    numflds: nat, numpics: nat, numarrs: nat, reclen: nat, offset: nat,
    logeof: nat, logbof: nat, freerec: nat,
    recname: seq<byte>, memnam: seq<byte>, filpre: seq<byte>, recpre: seq<byte>,
    memolen: nat, memowid: nat, reserved: nat, chgtime: nat, chgdate: nat, reserved2: nat)

  datatype PicDesc = PicDesc(piclen: nat, picstr: seq<byte>)

  datatype ArrPart = ArrPart(maxdim: nat, lendim: nat)

  datatype ArrDesc = ArrDesc(numdim: nat, totdim: nat, elmsiz: nat, parts: seq<ArrPart>)

  /** A field descriptor; `arrs` is the derived array-descriptor list (nbarrs == |arrs|). */
  datatype FieldDesc = FieldDesc(
    fldtype: nat, fldname: seq<byte>, foffset: nat, length: nat,
    decsig: nat, decdec: nat, arrnum: nat, picnum: nat, arrs: seq<ArrDesc>)

  /** A key component; `subparts` is synthesised for GROUP components (numparts == |subparts|). */
  datatype KeyPart = KeyPart(fldtype: nat, fldnum: nat, elmoff: nat, elmlen: nat, subparts: seq<KeyPart>)

  datatype KeyDesc = KeyDesc(
    numcomps: nat, keyname: seq<byte>, comptype: nat, complen: nat,
    parts: seq<KeyPart>, keytype: nat)

  datatype RecordHeader = RecordHeader(rhd: nat, rptr: nat)

  datatype Error =
    | BadSignature      // the file does not start with the expected signature
    | Truncated         // a read would run past the end of the file
    | BadFieldRef       // a key part names a field number outside the field table
    | OutOfRange        // a decryption span lies outside the mapped file
    | PastDataStart     // data decryption would start after the data offset
    | NoMemoFile        // the memo file cannot be opened
    | BadMemoSignature  // the memo file does not start with the memo signature
    | Looping           // a memo chain runs longer than the walk's block budget

  datatype Result<T> = Ok(value: T) | Err(error: Error)

  datatype Option<T> = None | Some(value: T)

  /** True when the bit given by the power of two `mask` is set in `x`. */
  predicate HasMask(x: nat, mask: nat)
    requires mask > 0
  {
    (x / mask) % 2 == 1
  }

  /** `x` with the bit `mask` cleared (x & ~mask). */
  function ClearMask(x: nat, mask: nat): nat
    requires mask > 0
  {
    if HasMask(x, mask) then x - mask else x
  }

  /** Little-endian unsigned 16-bit value at `i`. */
  function U16(s: seq<byte>, i: nat): nat
    requires i + 2 <= |s|
  {
    s[i] as nat + 256 * s[i + 1] as nat
  }

  /** Little-endian unsigned 32-bit value at `i`. */
  function U32(s: seq<byte>, i: nat): nat
    requires i + 4 <= |s|
  {
    U16(s, i) + 65536 * U16(s, i + 2)
  }

  function Enc16(x: nat): (r: seq<byte>)
    requires x < 0x1_0000
    ensures |r| == 2
  {
    [(x % 256) as byte, (x / 256) as byte]
  }

  function Enc32(x: nat): (r: seq<byte>)
    requires x < 0x1_0000_0000
    ensures |r| == 4
  {
    Enc16(x % 0x1_0000) + Enc16(x / 0x1_0000)
  }

  lemma U16Bound(s: seq<byte>, i: nat)
    requires i + 2 <= |s|
    ensures U16(s, i) < 0x1_0000
  {
  }

  lemma U32Bound(s: seq<byte>, i: nat)
    requires i + 4 <= |s|
    ensures U32(s, i) < 0x1_0000_0000
  {
    U16Bound(s, i);
    U16Bound(s, i + 2);
  }

  /** Decoding what Enc16 wrote gives the value back. */
  lemma U16Enc16(x: nat)
    requires x < 0x1_0000
    ensures U16(Enc16(x), 0) == x
  {
  }

  /** Encoding a decoded 16-bit value reproduces its two bytes. */
  lemma Enc16U16(s: seq<byte>, i: nat)
    requires i + 2 <= |s|
    ensures Enc16(U16(s, i)) == s[i..i + 2]
  {
    var lo, hi := s[i] as nat, s[i + 1] as nat;
    assert (lo + 256 * hi) % 256 == lo;
    assert (lo + 256 * hi) / 256 == hi;
  }

  lemma U32Enc32(x: nat)
    requires x < 0x1_0000_0000
    ensures U32(Enc32(x), 0) == x
  {
    var e := Enc32(x);
    U16Enc16(x % 0x1_0000);
    U16Enc16(x / 0x1_0000);
    assert e[0..2] == Enc16(x % 0x1_0000);
    assert e[2..4] == Enc16(x / 0x1_0000);
    assert U16(e, 0) == U16(e[0..2], 0);
    assert U16(e, 2) == U16(e[2..4], 0);
  }

  lemma Enc32U32(s: seq<byte>, i: nat)
    requires i + 4 <= |s|
    ensures Enc32(U32(s, i)) == s[i..i + 4]
  {
    var lo, hi := U16(s, i), U16(s, i + 2);
    U16Bound(s, i);
    U16Bound(s, i + 2);
    assert (lo + 65536 * hi) % 65536 == lo;
    assert (lo + 65536 * hi) / 65536 == hi;
    Enc16U16(s, i);
    Enc16U16(s, i + 2);
  }

  /** One record fewer is one record size less. */
  lemma MulPred(size: nat, count: nat)
    requires count > 0
    ensures size * count == size * (count - 1) + size
  {
  }

  /** The quotient is the only q with x == d * q + r and 0 <= r < d. */
  lemma DivUnique(x: nat, d: nat, q: int, r: int)
    requires d > 0 && x == d * q + r && 0 <= r < d
    ensures x / d == q
  {
    var q', r' := x / d, x % d;
    assert x == d * q' + r';
    MulSign(d, q - q');
  }

  /** A nonzero multiple of d is at least d away from 0. */
  lemma MulSign(d: nat, k: int)
    requires d > 0
    ensures k >= 1 ==> d * k >= d
    ensures k <= -1 ==> d * k <= -(d as int)
  {
    if k >= 1 {
      assert d * k == d * (k - 1) + d;
    } else if k <= -1 {
      assert d * k == d * (k + 1) - d;
    }
  }

  /** The C string held in a buffer: the bytes before the first NUL. */
  function CStr(s: seq<byte>): (r: seq<byte>)
    ensures |r| <= |s| && r == s[..|r|]
    ensures 0 !in r
    ensures |r| < |s| ==> s[|r|] == 0
  {
    if |s| == 0 || s[0] == 0 then [] else [s[0]] + CStr(s[1..])
  }

  /** A byte printed as a character. */
  function Chr(b: byte): char
  {
    (b as int) as char
  }

  /** Bytes printed with "%s" (the caller has already cut them at the NUL). */
  function Text(s: seq<byte>): (r: string)
    ensures |r| == |s|
    ensures forall i :: 0 <= i < |s| ==> r[i] == Chr(s[i])
  {
    seq(|s|, i requires 0 <= i < |s| => Chr(s[i]))
  }

  /** tolower() in the C locale: only 'A'..'Z' change. */
  function ToLower(b: byte): byte
  {
    if 0x41 <= b <= 0x5A then b + 0x20 else b
  }

  function LowerAll(s: seq<byte>): (r: seq<byte>)
    ensures |r| == |s|
    ensures forall i :: 0 <= i < |s| ==> r[i] == ToLower(s[i])
  {
    seq(|s|, i requires 0 <= i < |s| => ToLower(s[i]))
  }

  function DigitChar(d: nat): char
    requires d < 10
  {
    ('0' as int + d) as char
  }

  /** A natural number printed with "%d". */
  function NatToString(n: nat): (r: string)
    ensures |r| >= 1
    decreases n
  {
    if n < 10 then [DigitChar(n)] else NatToString(n / 10) + [DigitChar(n % 10)]
  }

  /** The value a string of decimal digits spells. */
  function DecValue(s: string): nat
  {
    if |s| == 0 then 0
    else
      var c := s[|s| - 1];
      10 * DecValue(s[..|s| - 1]) + (if '0' <= c <= '9' then c as int - '0' as int else 0)
  }

  /** "%d" prints only digits, and the digits spell the number. */
  lemma {:induction false} NatToStringRoundTrip(n: nat)
    ensures forall i :: 0 <= i < |NatToString(n)| ==> '0' <= NatToString(n)[i] <= '9'
    ensures DecValue(NatToString(n)) == n
    decreases n
  {
    if n >= 10 {
      NatToStringRoundTrip(n / 10);
      var r := NatToString(n);
      assert r[..|r| - 1] == NatToString(n / 10);
    }
  }

  /** A natural number below 100 printed with "%02d". */
  function Pad2(n: nat): string
  {
    if n < 10 then [DigitChar(0), DigitChar(n)] else NatToString(n)
  }

  function Concat(parts: seq<string>): string
  {
    if |parts| == 0 then "" else parts[0] + Concat(parts[1..])
  }

  // ---------------------------------------------------------------------------
  // Lowercase hex digits and "%0nx"

  /** A lowercase hex digit as written by `(l > 9) ? 'a' + (l - 10) : '0' + l`. */
  function HexChar(l: nat): char
    requires l < 16
  {
    if l > 9 then ('a' as int + (l - 10)) as char else ('0' as int + l) as char
  }

  function HexValue(c: char): nat
  {
    if 'a' <= c <= 'f' then c as int - 'a' as int + 10
    else if '0' <= c <= '9' then c as int - '0' as int
    else 0
  }

  /** `x` in `n` lowercase hex digits, most significant first, as "%0nx" prints a value below 16^n. */
  function Hex(x: nat, n: nat): (r: string)
    ensures |r| == n
  {
    if n == 0 then "" else Hex(x / 16, n - 1) + [HexChar(x % 16)]
  }

  function Pow16(n: nat): nat
  {
    if n == 0 then 1 else 16 * Pow16(n - 1)
  }

  /** The value a string of hex digits spells. */
  function HexNumber(s: string): nat
  {
    if |s| == 0 then 0 else 16 * HexNumber(s[..|s| - 1]) + HexValue(s[|s| - 1])
  }

  lemma HexDigit(l: nat)
    requires l < 16
    ensures HexValue(HexChar(l)) == l
  {
  }

  /** The digits printed for a value below 16^n spell that value. */
  lemma {:induction false} HexRoundTrip(x: nat, n: nat)
    requires x < Pow16(n)
    ensures HexNumber(Hex(x, n)) == x
  {
    if n > 0 {
      assert x / 16 < Pow16(n - 1);
      HexRoundTrip(x / 16, n - 1);
      HexDigit(x % 16);
      var h := Hex(x, n);
      assert h[..|h| - 1] == Hex(x / 16, n - 1);
    }
  }
}
