/**
 * The in-place decryptor of cl_decrypt.c. The data file is one mapped byte array;
 * every section pass XORs the encrypted spans of its section with a 2-byte key and
 * returns where its cursor ended, and the metadata parser re-reads the array after
 * each pass (the msync/reopen of the original is that re-read).
 *
 * Every pass has a pure specification on byte sequences, written so that the
 * spans it touches are visible: the methods are proved to compute exactly that
 * specification, and the lemmas show what the specifications promise (XOR twice
 * restores the buffer, exactly which bytes of the records, memo blocks and
 * pictures are XORed, and the picture and key passes end where the parser's
 * reads of those sections end).
 */
module Decrypt {
  import opened Clarion
  import opened Meta
  import opened Cldump

  // ---------------------------------------------------------------------------
  // Bitwise XOR on bytes, written arithmetically.

  function XorNat(a: nat, b: nat): nat
    decreases a + b
  {
    if a == 0 then b
    else if b == 0 then a
    else (if a % 2 == b % 2 then 0 else 1) + 2 * XorNat(a / 2, b / 2)
  }

  lemma {:induction false} XorBound(a: nat, b: nat, n: nat)
    requires a < n && b < n
    requires n == 2 || n == 4 || n == 8 || n == 16 || n == 32 || n == 64 || n == 128 || n == 256
    ensures XorNat(a, b) < n
    decreases n
  {
    if a != 0 && b != 0 && n > 2 {
      XorBound(a / 2, b / 2, n / 2);
    }
  }

  lemma {:induction false} XorSelf(k: nat)
    ensures XorNat(k, k) == 0
    decreases k
  {
    if k != 0 {
      XorSelf(k / 2);
    }
  }

  lemma {:induction false} XorZeroBoth(a: nat, b: nat)
    requires XorNat(a, b) == 0
    ensures a == b
    decreases a + b
  {
    if a != 0 && b != 0 {
      XorZeroBoth(a / 2, b / 2);
    }
  }

  /** The low bit and the remaining bits of XorNat of two non-zero values. */
  lemma XorNatParts(a: nat, k: nat)
    requires a != 0 && k != 0
    ensures XorNat(a, k) % 2 == (if a % 2 == k % 2 then 0 else 1)
    ensures XorNat(a, k) / 2 == XorNat(a / 2, k / 2)
  {
    var h := XorNat(a / 2, k / 2);
    var bit := if a % 2 == k % 2 then 0 else 1;
    assert XorNat(a, k) == bit + 2 * h;
  }

  /** XOR with the same value twice gives the original value back. */
  lemma {:induction false} XorNatTwice(a: nat, k: nat)
    ensures XorNat(XorNat(a, k), k) == a
    decreases a + k
  {
    if a == 0 {
      assert XorNat(0, k) == k;
      XorSelf(k);
    } else if k != 0 {
      var x := XorNat(a, k);
      XorNatParts(a, k);
      if x == 0 {
        XorZeroBoth(a / 2, k / 2);
        assert a == k;
        XorSelf(k);
      } else {
        XorNatTwice(a / 2, k / 2);
        XorNatParts(x, k);
        assert XorNat(x, k) % 2 == a % 2;
        assert XorNat(x, k) / 2 == a / 2;
      }
    }
  }

  function Xor(a: byte, b: byte): byte
  {
    XorBound(a as nat, b as nat, 256);
    XorNat(a as nat, b as nat) as byte
  }

  lemma XorTwice(a: byte, k: byte)
    ensures Xor(Xor(a, k), k) == a
  {
    XorBound(a as nat, k as nat, 256);
    XorNatTwice(a as nat, k as nat);
  }

  // ---------------------------------------------------------------------------
  // clarion_get_key and clarion_decrypt

  /** The static key[2]. */
  datatype Key = Key(k0: byte, k1: byte)

  /**
   * clarion_get_key: two bytes of `numdels` or `reserved`, as the mode says. Any
   * other mode leaves the static key at its initial zero value.
   */
  function GetKey(h: Header, mode: int): (r: Key)
    ensures mode == KeyNumdelsHi ==> r.k0 as nat * 256 + r.k1 as nat == h.numdels / 0x1_0000 % 0x1_0000
    ensures mode == KeyReservedHi ==> r.k0 as nat * 256 + r.k1 as nat == h.reserved / 0x1_0000 % 0x1_0000
    ensures mode == KeyReservedLo ==> r.k0 as nat * 256 + r.k1 as nat == h.reserved % 0x1_0000
    ensures mode == KeyReservedMid ==> r.k1 as nat * 256 + r.k0 as nat == h.reserved / 0x100 % 0x1_0000
    ensures !(KeyNumdelsHi <= mode <= KeyReservedMid) ==> r == Key(0, 0)
  {
    KeyHalves(h.numdels);
    KeyHalves(h.reserved);
    if mode == KeyNumdelsHi then Key((h.numdels / 0x100_0000 % 256) as byte, (h.numdels / 0x1_0000 % 256) as byte)
    else if mode == KeyReservedHi then Key((h.reserved / 0x100_0000 % 256) as byte, (h.reserved / 0x1_0000 % 256) as byte)
    else if mode == KeyReservedLo then Key((h.reserved / 0x100 % 256) as byte, (h.reserved % 256) as byte)
    else if mode == KeyReservedMid then Key((h.reserved / 0x100 % 256) as byte, (h.reserved / 0x1_0000 % 256) as byte)
    else Key(0, 0)
  }

  /** The byte pairs of clarion_get_key as 16-bit halves of a 32-bit word. */
  lemma KeyHalves(x: nat)
    ensures (x / 0x100_0000 % 256) * 256 + x / 0x1_0000 % 256 == x / 0x1_0000 % 0x1_0000
    ensures (x / 0x100 % 256) * 256 + x % 256 == x % 0x1_0000
    ensures (x / 0x1_0000 % 256) * 256 + x / 0x100 % 256 == x / 0x100 % 0x1_0000
  {
    var a, b := x / 0x100, x / 0x1_0000;
    DivChain(x, a);
    DivChain(a, a / 0x100);
    assert b == a / 0x100 by {
      DivMod(x, 0x1_0000, a / 0x100, 0x100 * (a % 0x100) + x % 0x100);
    }
    assert x / 0x100_0000 == b / 0x100 by {
      DivChain(b, b / 0x100);
      DivMod(x, 0x100_0000, b / 0x100, 0x1_0000 * (b % 0x100) + x % 0x1_0000);
    }
    SplitHalf(x);
    SplitHalf(a);
    SplitHalf(b);
  }

  /** The quotient and remainder of `x` by 256, with `a` its quotient. */
  lemma DivChain(x: nat, a: nat)
    requires a == x / 0x100
    ensures x == 0x100 * a + x % 0x100 && x % 0x100 < 0x100
  {
  }

  /** The low 16 bits of `x` as its two low bytes. */
  lemma SplitHalf(x: nat)
    ensures (x / 0x100 % 256) * 256 + x % 256 == x % 0x1_0000
  {
    var q, r := x / 0x1_0000, x % 0x1_0000;
    DivMod(x, 0x100, 0x100 * q + r / 0x100, r % 0x100);
    DivMod(0x100 * q + r / 0x100, 0x100, q, r / 0x100);
  }

  lemma DivMod(x: nat, d: nat, q: nat, r: nat)
    requires d == 0x100 || d == 0x1_0000 || d == 0x100_0000
    requires x == d * q + r && r < d
    ensures x / d == q && x % d == r
  {
    if d == 0x100 {
      assert x == 0x100 * q + r;
    } else if d == 0x1_0000 {
      assert x == 0x1_0000 * q + r;
    } else {
      assert x == 0x100_0000 * q + r;
    }
  }

  /** The four bytes of the little-endian 32-bit value at `i`, as shifts and masks select them. */
  lemma U32Bytes(f: seq<byte>, i: nat)
    requires i + 4 <= |f|
    ensures U32(f, i) % 256 == f[i] as nat
    ensures U32(f, i) / 0x100 % 256 == f[i + 1] as nat
    ensures U32(f, i) / 0x1_0000 % 256 == f[i + 2] as nat
    ensures U32(f, i) / 0x100_0000 % 256 == f[i + 3] as nat
  {
    var x := U32(f, i);
    var b0, b1, b2, b3 := f[i] as nat, f[i + 1] as nat, f[i + 2] as nat, f[i + 3] as nat;
    DivMod(x, 0x100, b1 + 256 * b2 + 0x1_0000 * b3, b0);
    DivMod(b1 + 256 * b2 + 0x1_0000 * b3, 256, b2 + 256 * b3, b1);
    DivMod(x, 0x1_0000, b2 + 256 * b3, b0 + 256 * b1);
    DivMod(b2 + 256 * b3, 256, b3, b2);
    DivMod(x, 0x100_0000, b3, b0 + 256 * b1 + 0x1_0000 * b2);
  }

  /**
   * The key as file bytes: numdels sits at offset 9 and reserved at offset 71 of
   * the encrypted header the key is taken from.
   */
  lemma KeyFromFile(f: seq<byte>)
    requires ParseHeader(f).Ok?
    ensures var h := ParseHeader(f).value;
      GetKey(h, KeyNumdelsHi) == Key(f[12], f[11]) &&
      GetKey(h, KeyReservedHi) == Key(f[74], f[73]) &&
      GetKey(h, KeyReservedLo) == Key(f[72], f[71]) &&
      GetKey(h, KeyReservedMid) == Key(f[72], f[73])
  {
    U32Bytes(f, 9);
    U32Bytes(f, 71);
  }

  /** The byte count `len & ~1` of clarion_decrypt; nothing for a negative length. */
  function Even(len: int): (n: nat)
    ensures n % 2 == 0
    ensures len >= 0 ==> n <= len && len - n < 2
    ensures len <= 0 ==> n == 0
  {
    if len <= 0 then 0 else len - len % 2
  }

  /** key[0] for the even offsets of a span, key[1] for the odd ones. */
  function KeyByte(key: Key, d: int): byte
  {
    if d % 2 == 0 then key.k0 else key.k1
  }

  /** The XOR span of clarion_decrypt(buf + start, len). */
  predicate SpanFits(s: seq<byte>, start: nat, len: int)
  {
    Even(len) == 0 || start + Even(len) <= |s|
  }

  /** `m` byte pairs from `start` decrypted, front pair first, as clarion_decrypt's loop does. */
  function XorPairs(s: seq<byte>, start: nat, m: nat, key: Key): (r: seq<byte>)
    requires m == 0 || start + 2 * m <= |s|
    ensures |r| == |s|
    decreases m
  {
    if m == 0 then s
    else XorPairs(s[start := Xor(s[start], key.k0)][start + 1 := Xor(s[start + 1], key.k1)], start + 2, m - 1, key)
  }

  function XorSpan(s: seq<byte>, start: nat, len: int, key: Key): (r: seq<byte>)
    requires SpanFits(s, start, len)
    ensures |r| == |s|
  {
    var m := Even(len) / 2;
    assert 2 * m == Even(len);
    XorPairs(s, start, m, key)
  }

  /** Each byte of XorPairs: XORed with the key byte of its parity inside the pairs, unchanged outside. */
  lemma {:induction false} XorPairsAt(s: seq<byte>, start: nat, m: nat, key: Key, i: nat)
    requires (m == 0 || start + 2 * m <= |s|) && i < |s|
    ensures XorPairs(s, start, m, key)[i] ==
      if start <= i < start + 2 * m then Xor(s[i], KeyByte(key, i - start)) else s[i]
    decreases m
  {
    if m > 0 {
      var t := s[start := Xor(s[start], key.k0)][start + 1 := Xor(s[start + 1], key.k1)];
      XorPairsAt(t, start + 2, m - 1, key, i);
      if start + 2 <= i {
        assert (i - start - 2) % 2 == (i - start) % 2;
      }
    }
  }

  /** Each byte of a decrypted span, as a formula of the original. */
  lemma XorSpanElems(s: seq<byte>, start: nat, len: int, key: Key)
    requires SpanFits(s, start, len)
    ensures forall i :: 0 <= i < |s| ==>
      XorSpan(s, start, len, key)[i] == (if start <= i < start + Even(len) then Xor(s[i], KeyByte(key, i - start)) else s[i])
  {
    var m := Even(len) / 2;
    assert 2 * m == Even(len);
    forall i | 0 <= i < |s|
      ensures XorSpan(s, start, len, key)[i] ==
        if start <= i < start + Even(len) then Xor(s[i], KeyByte(key, i - start)) else s[i]
    {
      XorPairsAt(s, start, m, key, i);
    }
  }

  /**
   * What clarion_decrypt does to each byte: byte 2i of the span is XORed with
   * key[0] and byte 2i + 1 with key[1]; an odd last byte and every byte outside
   * the span stay as they were.
   */
  lemma XorSpanBytes(s: seq<byte>, start: nat, len: int, key: Key)
    requires SpanFits(s, start, len)
    ensures var r := XorSpan(s, start, len, key);
      && (forall i :: start <= i < start + Even(len) && (i - start) % 2 == 0 ==> r[i] == Xor(s[i], key.k0))
      && (forall i :: start <= i < start + Even(len) && (i - start) % 2 == 1 ==> r[i] == Xor(s[i], key.k1))
      && (forall i :: 0 <= i < |s| && !(start <= i < start + Even(len)) ==> r[i] == s[i])
      && (len > 0 && len % 2 == 1 && start + len <= |s| ==> r[start + len - 1] == s[start + len - 1])
  {
    XorSpanElems(s, start, len, key);
  }

  /** Decrypting the same span twice with the same key restores the buffer. */
  lemma XorSpanTwice(s: seq<byte>, start: nat, len: int, key: Key)
    requires SpanFits(s, start, len)
    ensures XorSpan(XorSpan(s, start, len, key), start, len, key) == s
  {
    var t := XorSpan(s, start, len, key);
    XorSpanElems(s, start, len, key);
    XorSpanElems(t, start, len, key);
    forall i | 0 <= i < |s| ensures XorSpan(t, start, len, key)[i] == s[i] {
      if start <= i < start + Even(len) {
        XorTwice(s[i], KeyByte(key, i - start));
      }
    }
  }

  /** Two spans that do not overlap can be decrypted in either order. */
  lemma XorSpanCommute(s: seq<byte>, a: nat, la: int, b: nat, lb: int, key: Key)
    requires SpanFits(s, a, la) && SpanFits(s, b, lb)
    requires Even(la) == 0 || a + Even(la) <= b
    ensures XorSpan(XorSpan(s, a, la, key), b, lb, key) == XorSpan(XorSpan(s, b, lb, key), a, la, key)
  {
    var sa, sb := XorSpan(s, a, la, key), XorSpan(s, b, lb, key);
    XorSpanElems(s, a, la, key);
    XorSpanElems(s, b, lb, key);
    XorSpanElems(sa, b, lb, key);
    XorSpanElems(sb, a, la, key);
  }

  /** Bytes outside a span keep their values. */
  lemma XorSpanOutside(s: seq<byte>, start: nat, len: int, key: Key, i: nat)
    requires SpanFits(s, start, len) && i < |s| && !(start <= i < start + Even(len))
    ensures XorSpan(s, start, len, key)[i] == s[i]
  {
    XorSpanElems(s, start, len, key);
  }

  /** clarion_decrypt, in place: the XOR loop over the span's byte pairs. */
  method DecryptSpan(buf: array<byte>, start: nat, len: int, key: Key)
    requires SpanFits(buf[..], start, len)
    modifies buf
    ensures buf[..] == XorSpan(old(buf[..]), start, len, key)
  {
    ghost var s := buf[..];
    var n := Even(len);
    var i := 0;
    ghost var left := n / 2;
    while i < n
      invariant 0 <= i <= n && n - i == 2 * left
      invariant start + n <= |s| || n == 0
      invariant XorPairs(buf[..], start + i, left, key) == XorSpan(s, start, len, key)
    {
      ghost var b := buf[..];
      buf[start + i] := Xor(buf[start + i], key.k0);
      buf[start + i + 1] := Xor(buf[start + i + 1], key.k1);
      assert buf[..] == b[start + i := Xor(b[start + i], key.k0)][start + i + 1 := Xor(b[start + i + 1], key.k1)];
      i := i + 2;
      left := left - 1;
    }
  }

  // ---------------------------------------------------------------------------
  // Section passes, as functions on the buffer

  /** A pass's buffer (partly decrypted when the pass stops early) and where its cursor ended. */
  datatype Sweep = Sweep(buf: seq<byte>, res: Result<nat>)

  /** clarion_decrypt_header: the 81 bytes after the signature and sfatr. */
  function HeaderPass(s: seq<byte>, key: Key): (r: seq<byte>)
    requires |s| >= HeaderSize
    ensures |r| == |s|
  {
    XorSpan(s, 4, 81, key)
  }

  /** The header pass leaves the signature, sfatr and the last header byte alone. */
  lemma HeaderPassFrame(s: seq<byte>, key: Key)
    requires |s| >= HeaderSize
    ensures var r := HeaderPass(s, key);
      r[..4] == s[..4] && r[84] == s[84] && r[HeaderSize..] == s[HeaderSize..]
    ensures U16(HeaderPass(s, key), 0) == U16(s, 0) && U16(HeaderPass(s, key), 2) == U16(s, 2)
  {
    var r := HeaderPass(s, key);
    XorSpanElems(s, 4, 81, key);
    assert r[84] == s[84];
    assert r[..4] == s[..4];
    assert r[HeaderSize..] == s[HeaderSize..];
  }

  /** `n` spans of `size` bytes each from `p`: the field descriptors, and the parts of one key. */
  function RepeatPass(s: seq<byte>, p: nat, n: nat, size: nat, key: Key): (r: Sweep)
    ensures |r.buf| == |s|
    ensures r.res.Err? ==> r.res.error == OutOfRange
    decreases n
  {
    if n == 0 then Sweep(s, Ok(p))
    else if !SpanFits(s, p, size) then Sweep(s, Err(OutOfRange))
    else RepeatPass(XorSpan(s, p, size, key), p + size, n - 1, size, key)
  }

  /** A fixed-length pass that succeeds ends `n` records of `size` bytes after its start. */
  lemma {:induction false} RepeatEnd(s: seq<byte>, p: nat, n: nat, size: nat, key: Key)
    requires RepeatPass(s, p, n, size, key).res.Ok?
    ensures RepeatPass(s, p, n, size, key).res.value == p + size * n
    decreases n
  {
    if n > 0 {
      RepeatEnd(XorSpan(s, p, size, key), p + size, n - 1, size, key);
      MulPred(size, n);
    }
  }

  /**
   * clarion_decrypt_schema, key section: each key's 19 bytes are decrypted first
   * and its component count is then read from the decrypted first byte.
   */
  function KeysPass(s: seq<byte>, p: nat, n: nat, key: Key): (r: Sweep)
    ensures |r.buf| == |s|
    ensures r.res.Err? ==> r.res.error == OutOfRange
    ensures r.res.Ok? ==> r.res.value >= p
    decreases n
  {
    if n == 0 then Sweep(s, Ok(p))
    else if p + Even(KeyDescSize) > |s| then Sweep(s, Err(OutOfRange))
    else
      var k := OneKeyPass(s, p, key);
      if k.res.Err? then k
      else KeysPass(k.buf, k.res.value, n - 1, key)
  }

  /** One key: its 19 bytes, then its component count from the decrypted first byte, then 6 per component. */
  function OneKeyPass(s: seq<byte>, p: nat, key: Key): (r: Sweep)
    requires p + Even(KeyDescSize) <= |s|
    ensures |r.buf| == |s|
    ensures r.res.Ok? ==> r.res.value == p + KeyDescSize + KeyPartSize * XorSpan(s, p, KeyDescSize, key)[p] as nat
    ensures r.res.Err? ==> r.res.error == OutOfRange
  {
    var s1 := XorSpan(s, p, KeyDescSize, key);
    var w := RepeatPass(s1, p + KeyDescSize, s1[p] as nat, KeyPartSize, key);
    if w.res.Ok? then RepeatEnd(s1, p + KeyDescSize, s1[p] as nat, KeyPartSize, key); w else w
  }

  /**
   * clarion_decrypt_schema, picture section: each length prefix is read as it is
   * on disk and the picture bytes after it are decrypted.
   */
  function PicsPass(s: seq<byte>, p: nat, n: nat, key: Key): (r: Sweep)
    ensures |r.buf| == |s|
    ensures r.res.Err? ==> r.res.error == OutOfRange
    ensures r.res.Ok? ==> r.res.value >= p
    decreases n
  {
    if n == 0 then Sweep(s, Ok(p))
    else if p + 2 > |s| then Sweep(s, Err(OutOfRange))
    else
      var piclen := U16(s, p);
      if !SpanFits(s, p + 2, piclen) then Sweep(s, Err(OutOfRange))
      else PicsPass(XorSpan(s, p + 2, piclen, key), p + 2 + piclen, n - 1, key)
  }

  /**
   * clarion_decrypt_schema, array section for one field: descriptors up to the data
   * offset, each with its 6-byte head decrypted first and its `totdim` read from it.
   */
  function ArrLoop(s: seq<byte>, p: nat, offset: nat, key: Key): (r: Sweep)
    ensures |r.buf| == |s|
    ensures r.res.Err? ==> r.res.error == OutOfRange
    ensures r.res.Ok? ==> r.res.value >= p && r.res.value >= offset
    decreases offset - p
  {
    if p >= offset then Sweep(s, Ok(p))
    else if p + 6 > |s| then Sweep(s, Err(OutOfRange))
    else
      var s1 := XorSpan(s, p, 6, key);
      var totdim := U16(s1, p + 2);
      if p + 6 + 4 * totdim > |s| then Sweep(s1, Err(OutOfRange))
      else ArrLoop(XorSpan(s1, p + 6, 4 * totdim, key), p + 6 + 4 * totdim, offset, key)
  }

  /** The array section: the descriptor loop for every field with a non-zero arrnum. */
  function ArrsPass(s: seq<byte>, fields: seq<FieldDesc>, i: nat, p: nat, offset: nat, key: Key): (r: Sweep)
    requires i <= |fields|
    ensures |r.buf| == |s|
    ensures r.res.Err? ==> r.res.error == OutOfRange
    ensures r.res.Ok? ==> r.res.value >= p
    decreases |fields| - i
  {
    if i == |fields| then Sweep(s, Ok(p))
    else if fields[i].arrnum == 0 then ArrsPass(s, fields, i + 1, p, offset, key)
    else
      var c := ArrLoop(s, p, offset, key);
      if c.res.Err? then c
      else ArrsPass(c.buf, fields, i + 1, c.res.value, offset, key)
  }

  /**
   * clarion_decrypt_data: bytes 5 .. reclen - 1 of each record; the pass stops
   * before a record that would run past the end of the file.
   */
  function DataPass(s: seq<byte>, p: nat, n: nat, reclen: nat, key: Key): (r: Sweep)
    ensures |r.buf| == |s|
    ensures r.res.Ok? && r.res.value >= p
    decreases n
  {
    if n == 0 || p + reclen > |s| then Sweep(s, Ok(p))
    else DataPass(XorSpan(s, p + RecordHeaderSize, reclen - RecordHeaderSize, key), p + reclen, n - 1, reclen, key)
  }

  /**
   * clarion_decrypt_memo: after the 6-byte memo file header, bytes 4 .. 255 of
   * every full 256-byte block; a partial last block is left alone.
   */
  function MemoPass(s: seq<byte>, p: nat, key: Key): (r: seq<byte>)
    ensures |r| == |s|
    decreases |s| - p
  {
    if p >= |s| || p + MemoBlockSize > |s| then s
    else MemoPass(XorSpan(s, p + 4, MemoTextSize, key), p + MemoBlockSize, key)
  }

  // ---------------------------------------------------------------------------
  // What the passes promise

  /** A fixed-length pass only touches bytes from its start on. */
  lemma {:induction false} RepeatBelow(s: seq<byte>, p: nat, n: nat, size: nat, key: Key)
    ensures forall i :: 0 <= i < p && i < |s| ==> RepeatPass(s, p, n, size, key).buf[i] == s[i]
    decreases n
  {
    if n > 0 && SpanFits(s, p, size) {
      XorSpanElems(s, p, size, key);
      RepeatBelow(XorSpan(s, p, size, key), p + size, n - 1, size, key);
    }
  }

  /** A span below the start of a fixed-length pass can be decrypted before or after it. */
  lemma {:induction false} RepeatCommute(t: seq<byte>, q: nat, m: nat, size: nat, key: Key, a: nat, la: int)
    requires SpanFits(t, a, la) && a + Even(la) <= q
    ensures var w := RepeatPass(t, q, m, size, key);
      RepeatPass(XorSpan(t, a, la, key), q, m, size, key) == Sweep(XorSpan(w.buf, a, la, key), w.res)
    decreases m
  {
    if m > 0 && SpanFits(t, q, size) {
      XorSpanCommute(t, a, la, q, size, key);
      RepeatCommute(XorSpan(t, q, size, key), q + size, m - 1, size, key, a, la);
    }
  }

  /**
   * The field pass (and the parts of a key) is its own inverse, even when it stops
   * early: running it again over its own output restores the input.
   */
  lemma {:induction false} RepeatTwice(s: seq<byte>, p: nat, n: nat, size: nat, key: Key)
    ensures var w := RepeatPass(s, p, n, size, key);
      RepeatPass(w.buf, p, n, size, key) == Sweep(s, w.res)
    decreases n
  {
    if n > 0 && SpanFits(s, p, size) {
      var x := XorSpan(s, p, size, key);
      var w := RepeatPass(x, p + size, n - 1, size, key);
      var w' := RepeatPass(s, p + size, n - 1, size, key);
      RepeatCommute(x, p + size, n - 1, size, key, p, size);
      XorSpanTwice(s, p, size, key);
      assert w'.buf == XorSpan(w.buf, p, size, key) && w'.res == w.res;
      RepeatTwice(s, p + size, n - 1, size, key);
      assert RepeatPass(w.buf, p, n, size, key) == RepeatPass(w'.buf, p + size, n - 1, size, key);
    }
  }

  /** The key pass only touches bytes from its start on. */
  lemma {:induction false} KeysBelow(s: seq<byte>, p: nat, n: nat, key: Key)
    ensures forall i :: 0 <= i < p && i < |s| ==> KeysPass(s, p, n, key).buf[i] == s[i]
    decreases n
  {
    if n > 0 && p + Even(KeyDescSize) <= |s| {
      var s1 := XorSpan(s, p, KeyDescSize, key);
      XorSpanElems(s, p, KeyDescSize, key);
      RepeatBelow(s1, p + KeyDescSize, s1[p] as nat, KeyPartSize, key);
      var k := OneKeyPass(s, p, key);
      if k.res.Ok? {
        KeysBelow(k.buf, k.res.value, n - 1, key);
      }
    }
  }

  /**
   * Read again after the key pass, the keys end where the pass ended: each key's
   * component count is read from its decrypted first byte, as the pass read it.
   */
  lemma KeysRereadEnd(s: seq<byte>, p: nat, m: nat, i: nat, n: nat, key: Key, datfile: string,
                      keyfiles: map<string, byte>, fields: seq<FieldDesc>)
    requires |datfile| >= 3 && i + m == n <= 255
    requires KeysPass(s, p, m, key).res.Ok?
    requires KeysFrom(KeysPass(s, p, m, key).buf, p, i, n, datfile, keyfiles, fields).Ok?
    ensures KeysFrom(KeysPass(s, p, m, key).buf, p, i, n, datfile, keyfiles, fields).value.next
            == KeysPass(s, p, m, key).res.value
  {
    KeysPassWalk(s, p, m, key);
    KeysFromWalk(KeysPass(s, p, m, key).buf, p, i, n, datfile, keyfiles, fields);
  }

  /** The cursor after `m` keys from `p`, each 19 bytes plus 6 per component counted by its first byte. */
  function KeyWalk(b: seq<byte>, p: nat, m: nat): Option<nat>
    decreases m
  {
    if m == 0 then Some(p)
    else if p + Even(KeyDescSize) > |b| then None
    else KeyWalk(b, p + KeyDescSize + KeyPartSize * b[p] as nat, m - 1)
  }

  /** The key pass ends where the walk over the decrypted count bytes ends. */
  lemma {:induction false} KeysPassWalk(s: seq<byte>, p: nat, m: nat, key: Key)
    requires KeysPass(s, p, m, key).res.Ok?
    ensures KeyWalk(KeysPass(s, p, m, key).buf, p, m) == Some(KeysPass(s, p, m, key).res.value)
    decreases m
  {
    if m > 0 {
      KeysPassGuard(s, p, m, key);
      var k := OneKeyPass(s, p, key);
      var w := KeysPass(k.buf, k.res.value, m - 1, key);
      assert KeysPass(s, p, m, key) == w;
      KeyHeadKept(s, p, m - 1, key);
      KeysPassWalk(k.buf, k.res.value, m - 1, key);
      assert k.res.value == p + KeyDescSize + KeyPartSize * w.buf[p] as nat;
    }
  }

  /** The parser's keys end where the walk over their count bytes ends. */
  lemma {:induction false} KeysFromWalk(b: seq<byte>, p: nat, i: nat, n: nat, datfile: string,
                                        keyfiles: map<string, byte>, fields: seq<FieldDesc>)
    requires |datfile| >= 3 && i <= n <= 255
    requires KeysFrom(b, p, i, n, datfile, keyfiles, fields).Ok?
    ensures KeyWalk(b, p, n - i).Some?
    ensures KeyWalk(b, p, n - i).value == KeysFrom(b, p, i, n, datfile, keyfiles, fields).value.next
    decreases n - i
  {
    if i < n {
      var k := KeyAt(b, p, i, datfile, keyfiles, fields).value;
      KeysFromWalk(b, k.next, i + 1, n, datfile, keyfiles, fields);
      assert KeyWalk(b, p, n - i) == KeyWalk(b, k.next, n - (i + 1));
    }
  }

  /** A key pass that succeeds had room for its first key, and that key's pass succeeded. */
  lemma KeysPassGuard(s: seq<byte>, p: nat, m: nat, key: Key)
    requires m > 0 && KeysPass(s, p, m, key).res.Ok?
    ensures p + Even(KeyDescSize) <= |s| && OneKeyPass(s, p, key).res.Ok?
  {
  }

  /** The keys after the first leave its decrypted count byte alone. */
  lemma KeyHeadKept(s: seq<byte>, p: nat, m: nat, key: Key)
    requires p + Even(KeyDescSize) <= |s| && OneKeyPass(s, p, key).res.Ok?
    ensures p < |s| && |KeysPass(OneKeyPass(s, p, key).buf, OneKeyPass(s, p, key).res.value, m, key).buf| == |s|
    ensures KeysPass(OneKeyPass(s, p, key).buf, OneKeyPass(s, p, key).res.value, m, key).buf[p]
            == XorSpan(s, p, KeyDescSize, key)[p]
  {
    var s1 := XorSpan(s, p, KeyDescSize, key);
    var k := OneKeyPass(s, p, key);
    RepeatBelow(s1, p + KeyDescSize, s1[p] as nat, KeyPartSize, key);
    KeysBelow(k.buf, k.res.value, m, key);
  }

  /** The picture pass only touches bytes from its start on. */
  lemma {:induction false} PicsBelow(s: seq<byte>, p: nat, n: nat, key: Key)
    ensures forall i :: 0 <= i < p && i < |s| ==> PicsPass(s, p, n, key).buf[i] == s[i]
    decreases n
  {
    if n > 0 && p + 2 <= |s| && SpanFits(s, p + 2, U16(s, p)) {
      XorSpanElems(s, p + 2, U16(s, p), key);
      PicsBelow(XorSpan(s, p + 2, U16(s, p), key), p + 2 + U16(s, p), n - 1, key);
    }
  }

  /** A span below the start of the data pass can be decrypted before or after it. */
  lemma {:induction false} DataCommute(t: seq<byte>, q: nat, m: nat, reclen: nat, key: Key, a: nat, la: int)
    requires SpanFits(t, a, la) && (Even(la) == 0 || a + Even(la) <= q)
    ensures var w := DataPass(t, q, m, reclen, key);
      DataPass(XorSpan(t, a, la, key), q, m, reclen, key) == Sweep(XorSpan(w.buf, a, la, key), w.res)
    decreases m
  {
    if m > 0 && q + reclen <= |t| {
      var b, lb := q + RecordHeaderSize, reclen - RecordHeaderSize;
      var ta := XorSpan(t, a, la, key);
      var tb := XorSpan(t, b, lb, key);
      XorSpanCommute(t, a, la, b, lb, key);
      DataCommute(tb, q + reclen, m - 1, reclen, key, a, la);
      assert DataPass(t, q, m, reclen, key) == DataPass(tb, q + reclen, m - 1, reclen, key);
      assert DataPass(ta, q, m, reclen, key) == DataPass(XorSpan(ta, b, lb, key), q + reclen, m - 1, reclen, key);
    }
  }

  /** The data pass is its own inverse. */
  lemma {:induction false} DataTwice(s: seq<byte>, p: nat, n: nat, reclen: nat, key: Key)
    ensures var w := DataPass(s, p, n, reclen, key);
      DataPass(w.buf, p, n, reclen, key) == Sweep(s, w.res)
    decreases n
  {
    if n > 0 && p + reclen <= |s| {
      var a, la := p + RecordHeaderSize, reclen - RecordHeaderSize;
      var x := XorSpan(s, a, la, key);
      DataCommute(x, p + reclen, n - 1, reclen, key, a, la);
      XorSpanTwice(s, a, la, key);
      DataTwice(s, p + reclen, n - 1, reclen, key);
    }
  }

  /** A span below the start of the memo pass can be decrypted before or after it. */
  lemma {:induction false} MemoCommute(t: seq<byte>, q: nat, key: Key, a: nat, la: int)
    requires SpanFits(t, a, la) && a + Even(la) <= q
    ensures MemoPass(XorSpan(t, a, la, key), q, key) == XorSpan(MemoPass(t, q, key), a, la, key)
    decreases |t| - q
  {
    if q < |t| && q + MemoBlockSize <= |t| {
      XorSpanCommute(t, a, la, q + 4, MemoTextSize, key);
      MemoCommute(XorSpan(t, q + 4, MemoTextSize, key), q + MemoBlockSize, key, a, la);
    }
  }

  /** The memo pass is its own inverse. */
  lemma {:induction false} MemoTwice(s: seq<byte>, p: nat, key: Key)
    ensures MemoPass(MemoPass(s, p, key), p, key) == s
    decreases |s| - p
  {
    if p < |s| && p + MemoBlockSize <= |s| {
      var x := XorSpan(s, p + 4, MemoTextSize, key);
      MemoCommute(x, p + MemoBlockSize, key, p + 4, MemoTextSize);
      XorSpanTwice(s, p + 4, MemoTextSize, key);
      MemoTwice(s, p + MemoBlockSize, key);
    }
  }

  // ---------------------------------------------------------------------------
  // The passes over the mapped array

  /** The loop `for (i = 0; i < n; i++) { clarion_decrypt(pos, size); pos += size; }`. */
  method DecryptRepeat(buf: array<byte>, p: nat, n: nat, size: nat, key: Key) returns (r: Result<nat>)
    modifies buf
    ensures var w := RepeatPass(old(buf[..]), p, n, size, key); buf[..] == w.buf && r == w.res
  {
    ghost var target := RepeatPass(buf[..], p, n, size, key);
    var cur: nat := p;
    var i := 0;
    while i < n
      invariant 0 <= i <= n
      invariant RepeatPass(buf[..], cur, n - i, size, key) == target
    {
      if !(Even(size) == 0 || cur + Even(size) <= buf.Length) {
        return Err(OutOfRange);
      }
      DecryptSpan(buf, cur, size, key);
      cur := cur + size;
      i := i + 1;
    }
    return Ok(cur);
  }

  /** The key loop of clarion_decrypt_schema. */
  method DecryptKeys(buf: array<byte>, p: nat, n: nat, key: Key) returns (r: Result<nat>)
    modifies buf
    ensures var w := KeysPass(old(buf[..]), p, n, key); buf[..] == w.buf && r == w.res
  {
    ghost var target := KeysPass(buf[..], p, n, key);
    var cur: nat := p;
    var i := 0;
    while i < n
      invariant 0 <= i <= n
      invariant KeysPass(buf[..], cur, n - i, key) == target
    {
      if cur + Even(KeyDescSize) > buf.Length {
        return Err(OutOfRange);
      }
      var k := DecryptKey(buf, cur, key);
      if k.Err? {
        return k;
      }
      cur := k.value;
      i := i + 1;
    }
    return Ok(cur);
  }

  /** One key of the key loop: the descriptor, then `numcomps = pos[0]` parts. */
  method DecryptKey(buf: array<byte>, p: nat, key: Key) returns (r: Result<nat>)
    requires p + Even(KeyDescSize) <= buf.Length
    modifies buf
    ensures var w := OneKeyPass(old(buf[..]), p, key); buf[..] == w.buf && r == w.res
  {
    DecryptSpan(buf, p, KeyDescSize, key);
    var numcomps := buf[p] as nat;
    r := DecryptRepeat(buf, p + KeyDescSize, numcomps, KeyPartSize, key);
  }

  /** One descriptor of the array loop. */
  lemma ArrStep(s: seq<byte>, p: nat, offset: nat, key: Key, s1: seq<byte>, totdim: nat, s2: seq<byte>)
    requires p < offset && p + 6 <= |s|
    requires s1 == XorSpan(s, p, 6, key) && totdim == U16(s1, p + 2)
    requires p + 6 + 4 * totdim <= |s| && s2 == XorSpan(s1, p + 6, 4 * totdim, key)
    ensures ArrLoop(s, p, offset, key) == ArrLoop(s2, p + 6 + 4 * totdim, offset, key)
  {
  }

  /** A descriptor whose parts run past the end of the buffer stops the array loop. */
  lemma ArrStopStep(s: seq<byte>, p: nat, offset: nat, key: Key, s1: seq<byte>, totdim: nat)
    requires p < offset && p + 6 <= |s|
    requires s1 == XorSpan(s, p, 6, key) && totdim == U16(s1, p + 2)
    requires p + 6 + 4 * totdim > |s|
    ensures ArrLoop(s, p, offset, key) == Sweep(s1, Err(OutOfRange))
  {
  }

  /** One iteration of the picture loop: the picture at `p`, with `m` pictures still to go. */
  method DecryptPic(buf: array<byte>, p: nat, ghost m: nat, key: Key) returns (r: Result<nat>)
    requires m > 0
    modifies buf
    ensures r.Err? ==> buf[..] == old(buf[..]) && PicsPass(old(buf[..]), p, m, key) == Sweep(buf[..], Err(OutOfRange))
    ensures r.Ok? ==> PicsPass(buf[..], r.value, m - 1, key) == PicsPass(old(buf[..]), p, m, key)
    ensures r.Ok? ==> p + 2 <= buf.Length && r.value == p + 2 + U16(old(buf[..]), p)
    ensures r.Ok? ==> SpanFits(old(buf[..]), p + 2, U16(old(buf[..]), p))
    ensures r.Ok? ==> buf[..] == XorSpan(old(buf[..]), p + 2, U16(old(buf[..]), p), key)
  {
    if p + 2 > buf.Length {
      return Err(OutOfRange);
    }
    var piclen := buf[p + 1] as nat * 256 + buf[p] as nat;
    assert piclen == U16(buf[..], p);
    if !(Even(piclen) == 0 || p + 2 + Even(piclen) <= buf.Length) {
      return Err(OutOfRange);
    }
    DecryptSpan(buf, p + 2, piclen, key);
    r := Ok(p + 2 + piclen);
  }

  /** The picture loop of clarion_decrypt_schema. */
  method DecryptPics(buf: array<byte>, p: nat, n: nat, key: Key) returns (r: Result<nat>)
    modifies buf
    ensures var w := PicsPass(old(buf[..]), p, n, key); buf[..] == w.buf && r == w.res
  {
    ghost var target := PicsPass(buf[..], p, n, key);
    var cur: nat := p;
    var i := 0;
    while i < n
      invariant 0 <= i <= n
      invariant PicsPass(buf[..], cur, n - i, key) == target
    {
      var step := DecryptPic(buf, cur, n - i, key);
      if step.Err? {
        return Err(OutOfRange);
      }
      cur := step.value;
      i := i + 1;
    }
    return Ok(cur);
  }

  /** The `while ((pos - base) < offset)` loop of clarion_decrypt_schema for one field. */
  method DecryptArrLoop(buf: array<byte>, p: nat, offset: nat, key: Key) returns (r: Result<nat>)
    modifies buf
    ensures var w := ArrLoop(old(buf[..]), p, offset, key); buf[..] == w.buf && r == w.res
  {
    ghost var target := ArrLoop(buf[..], p, offset, key);
    var cur: nat := p;
    while cur < offset
      invariant ArrLoop(buf[..], cur, offset, key) == target
      decreases offset - cur
    {
      var step := DecryptArr(buf, cur, offset, key);
      if step.Err? {
        return Err(OutOfRange);
      }
      cur := step.value;
    }
    return Ok(cur);
  }

  /** One iteration of the array loop: the descriptor at `p`, its head first, then its parts. */
  method DecryptArr(buf: array<byte>, p: nat, offset: nat, key: Key) returns (r: Result<nat>)
    requires p < offset
    modifies buf
    ensures r.Err? ==> ArrLoop(old(buf[..]), p, offset, key) == Sweep(buf[..], Err(OutOfRange))
    ensures r.Ok? ==> r.value > p && ArrLoop(buf[..], r.value, offset, key) == ArrLoop(old(buf[..]), p, offset, key)
  {
    if p + 6 > buf.Length {
      return Err(OutOfRange);
    }
    ghost var s0 := buf[..];
    DecryptSpan(buf, p, 6, key);
    ghost var s1 := buf[..];
    var totdim := buf[p + 3] as nat * 256 + buf[p + 2] as nat;
    assert totdim == U16(s1, p + 2);
    if p + 6 + 4 * totdim > buf.Length {
      ArrStopStep(s0, p, offset, key, s1, totdim);
      return Err(OutOfRange);
    }
    DecryptSpan(buf, p + 6, 4 * totdim, key);
    ghost var s2 := buf[..];
    ArrStep(s0, p, offset, key, s1, totdim, s2);
    r := Ok(p + 6 + 4 * totdim);
  }

  /** The array loop of clarion_decrypt_schema over the field table. */
  method DecryptArrs(buf: array<byte>, fields: seq<FieldDesc>, p: nat, offset: nat, key: Key) returns (r: Result<nat>)
    modifies buf
    ensures var w := ArrsPass(old(buf[..]), fields, 0, p, offset, key); buf[..] == w.buf && r == w.res
  {
    ghost var target := ArrsPass(buf[..], fields, 0, p, offset, key);
    var cur: nat := p;
    var i := 0;
    while i < |fields|
      invariant 0 <= i <= |fields|
      invariant ArrsPass(buf[..], fields, i, cur, offset, key) == target
    {
      if fields[i].arrnum != 0 {
        var c := DecryptArrLoop(buf, cur, offset, key);
        if c.Err? {
          return c;
        }
        cur := c.value;
      }
      i := i + 1;
    }
    return Ok(cur);
  }

  /** The record loop of clarion_decrypt_data, after its start check. */
  method DecryptRecords(buf: array<byte>, p: nat, numrecs: nat, reclen: nat, key: Key) returns (next: nat)
    modifies buf
    ensures var w := DataPass(old(buf[..]), p, numrecs, reclen, key); buf[..] == w.buf && Ok(next) == w.res
  {
    ghost var target := DataPass(buf[..], p, numrecs, reclen, key);
    var cur: nat := p;
    var i := 0;
    while i < numrecs
      invariant 0 <= i <= numrecs
      invariant DataPass(buf[..], cur, numrecs - i, reclen, key) == target
    {
      if cur + reclen > buf.Length {
        break;
      }
      DecryptSpan(buf, cur + RecordHeaderSize, reclen - RecordHeaderSize, key);
      cur := cur + reclen;
      i := i + 1;
    }
    return cur;
  }

  /** The block loop of clarion_decrypt_memo over the mapped memo file. */
  method DecryptMemo(mem: array<byte>, key: Key)
    modifies mem
    ensures mem[..] == MemoPass(old(mem[..]), MemoHeaderSize, key)
  {
    ghost var target := MemoPass(mem[..], MemoHeaderSize, key);
    var cur: nat := MemoHeaderSize;
    while cur < mem.Length
      invariant MemoPass(mem[..], cur, key) == target
      decreases mem.Length - cur
    {
      if cur + MemoBlockSize > mem.Length {
        break;
      }
      DecryptSpan(mem, cur + 4, MemoTextSize, key);
      cur := cur + MemoBlockSize;
    }
  }

  // ---------------------------------------------------------------------------
  // clarion_decrypt_all

  /** A pass over the array descriptors of one field only touches bytes from its start on. */
  lemma {:induction false} ArrLoopBelow(s: seq<byte>, p: nat, offset: nat, key: Key)
    ensures forall i :: 0 <= i < p && i < |s| ==> ArrLoop(s, p, offset, key).buf[i] == s[i]
    decreases offset - p
  {
    if p < offset && p + 6 <= |s| {
      var s1 := XorSpan(s, p, 6, key);
      XorSpanElems(s, p, 6, key);
      var totdim := U16(s1, p + 2);
      if p + 6 + 4 * totdim <= |s| {
        var s2 := XorSpan(s1, p + 6, 4 * totdim, key);
        XorSpanElems(s1, p + 6, 4 * totdim, key);
        ArrStep(s, p, offset, key, s1, totdim, s2);
        ArrLoopBelow(s2, p + 6 + 4 * totdim, offset, key);
      } else {
        ArrStopStep(s, p, offset, key, s1, totdim);
      }
    }
  }

  /** The array section only touches bytes from its start on. */
  lemma {:induction false} ArrsBelow(s: seq<byte>, fields: seq<FieldDesc>, i: nat, p: nat, offset: nat, key: Key)
    requires i <= |fields|
    ensures forall j :: 0 <= j < p && j < |s| ==> ArrsPass(s, fields, i, p, offset, key).buf[j] == s[j]
    decreases |fields| - i
  {
    if i < |fields| {
      if fields[i].arrnum == 0 {
        ArrsBelow(s, fields, i + 1, p, offset, key);
      } else {
        ArrLoopBelow(s, p, offset, key);
        var c := ArrLoop(s, p, offset, key);
        if c.res.Ok? {
          ArrsBelow(c.buf, fields, i + 1, c.res.value, offset, key);
        }
      }
    }
  }

  /** The data pass only touches bytes from its start on. */
  lemma {:induction false} DataBelow(s: seq<byte>, p: nat, n: nat, reclen: nat, key: Key)
    ensures forall i :: 0 <= i < p && i < |s| ==> DataPass(s, p, n, reclen, key).buf[i] == s[i]
    decreases n
  {
    if n > 0 && p + reclen <= |s| {
      XorSpanElems(s, p + RecordHeaderSize, reclen - RecordHeaderSize, key);
      DataBelow(XorSpan(s, p + RecordHeaderSize, reclen - RecordHeaderSize, key), p + reclen, n - 1, reclen, key);
    }
  }

  // ---------------------------------------------------------------------------
  // Which bytes the passes decrypt

  /** A run of bytes decrypted as one span from its first byte. */
  function XorBytes(b: seq<byte>, key: Key): (r: seq<byte>)
    ensures |r| == |b|
    ensures forall k :: 0 <= k < Even(|b|) ==> r[k] == Xor(b[k], KeyByte(key, k))
    ensures |b| % 2 == 1 ==> r[|b| - 1] == b[|b| - 1]
  {
    XorSpanElems(b, 0, |b|, key);
    XorSpan(b, 0, |b|, key)
  }

  /** The span of a decrypted buffer holds the span's original bytes, decrypted on their own. */
  lemma XorSpanSlice(s: seq<byte>, a: nat, len: nat, key: Key)
    requires a + len <= |s|
    ensures XorSpan(s, a, len, key)[a..a + len] == XorBytes(s[a..a + len], key)
  {
    var b := s[a..a + len];
    var r := XorSpan(s, a, len, key);
    forall k | 0 <= k < len ensures r[a..a + len][k] == XorBytes(b, key)[k] {
      XorSpanAt(s, a, len, key, a + k);
      assert r[a..a + len][k] == r[a + k] && b[k] == s[a + k];
    }
  }

  /** The parser's read of the pictures from `q` depends on no byte before `q`. */
  lemma {:induction false} PicsFromFrame(s: seq<byte>, t: seq<byte>, q: nat, n: nat)
    requires |s| == |t| && forall i :: q <= i < |s| ==> s[i] == t[i]
    ensures PicsFrom(s, q, n) == PicsFrom(t, q, n)
    decreases n
  {
    if n > 0 && q + 2 <= |s| {
      assert U16(s, q) == U16(t, q);
      var piclen := U16(s, q);
      if q + 2 + piclen <= |s| {
        assert s[q + 2..q + 2 + piclen] == t[q + 2..q + 2 + piclen];
        PicsFromFrame(s, t, q + 2 + piclen, n - 1);
      }
    }
  }

  /** The picture strings of `pics`, each decrypted as a span of its own. */
  function DecryptedPics(pics: seq<PicDesc>, key: Key): (r: seq<PicDesc>)
    ensures |r| == |pics|
    ensures forall k :: 0 <= k < |pics| ==> r[k] == PicDesc(pics[k].piclen, XorBytes(pics[k].picstr, key))
  {
    if pics == [] then []
    else [PicDesc(pics[0].piclen, XorBytes(pics[0].picstr, key))] + DecryptedPics(pics[1..], key)
  }

  /**
   * On pictures the parser can read, the picture pass ends where the parser's read
   * ends; read again afterwards, the pictures have the same length prefixes and
   * each picture string is decrypted as a span of its own.
   */
  lemma PicsDecrypted(s: seq<byte>, p: nat, n: nat, key: Key)
    requires PicsFrom(s, p, n).Ok?
    ensures var w := PicsPass(s, p, n, key); var before := PicsFrom(s, p, n).value;
      w.res == Ok(before.next) && PicsFrom(w.buf, p, n) == Ok(Meta.Parsed(DecryptedPics(before.value, key), before.next))
  {
    PicsPassEnd(s, p, n, key);
    PicsReread(s, p, n, key);
  }

  /** On pictures the parser can read, the picture pass ends where the parser's read ends. */
  lemma {:induction false} PicsPassEnd(s: seq<byte>, p: nat, n: nat, key: Key)
    requires PicsFrom(s, p, n).Ok?
    ensures PicsPass(s, p, n, key).res == Ok(PicsFrom(s, p, n).value.next)
    decreases n
  {
    if n > 0 {
      var q := p + 2 + U16(s, p);
      var s1 := XorSpan(s, p + 2, U16(s, p), key);
      PicsTailNext(s, p, n, key);
      PicsPassEnd(s1, q, n - 1, key);
      PicsPassStep(s, p, n, key);
    }
  }

  /** Read again after the picture pass, each picture string is decrypted as a span of its own. */
  lemma {:induction false} PicsReread(s: seq<byte>, p: nat, n: nat, key: Key)
    requires PicsFrom(s, p, n).Ok?
    ensures var before := PicsFrom(s, p, n).value;
      PicsFrom(PicsPass(s, p, n, key).buf, p, n) == Ok(Meta.Parsed(DecryptedPics(before.value, key), before.next))
    decreases n
  {
    if n > 0 {
      var piclen := U16(s, p);
      var q := p + 2 + piclen;
      var s1 := XorSpan(s, p + 2, piclen, key);
      PicsRestKept(s, p, n, key);
      PicsReread(s1, q, n - 1, key);
      PicsStepHead(s, p, n, key);
      RereadCons(s, PicsPass(s1, q, n - 1, key).buf, p, n, PicsFrom(s, q, n - 1).value, key);
      PicsPassStep(s, p, n, key);
    }
  }

  /**
   * One step of PicsReread: `b` holds the first picture of `s` decrypted, and the
   * later pictures read from `b` as those of `s` decrypted.
   */
  lemma RereadCons(s: seq<byte>, b: seq<byte>, p: nat, n: nat, rest: Meta.Parsed<seq<PicDesc>>, key: Key)
    requires n > 0 && p + 2 <= |s| && p + 2 + U16(s, p) <= |s| && |b| == |s|
    requires PicsFrom(s, p + 2 + U16(s, p), n - 1) == Ok(rest)
    requires PicsFrom(b, p + 2 + U16(s, p), n - 1) == Ok(Meta.Parsed(DecryptedPics(rest.value, key), rest.next))
    requires U16(b, p) == U16(s, p) && b[p + 2..p + 2 + U16(s, p)] == XorBytes(s[p + 2..p + 2 + U16(s, p)], key)
    ensures PicsFrom(s, p, n).Ok?
    ensures PicsFrom(b, p, n) == Ok(Meta.Parsed(DecryptedPics(PicsFrom(s, p, n).value.value, key), rest.next))
  {
    var q := p + 2 + U16(s, p);
    PicsFromStep(s, p, n);
    PicsFromStep(b, p, n);
    DecryptedPicsCons(PicDesc(U16(s, p), s[p + 2..q]), rest.value, key);
  }

  lemma DecryptedPicsCons(d: PicDesc, rest: seq<PicDesc>, key: Key)
    ensures DecryptedPics([d] + rest, key) == [PicDesc(d.piclen, XorBytes(d.picstr, key))] + DecryptedPics(rest, key)
  {
    assert ([d] + rest)[1..] == rest;
  }

  /** Decrypting the first picture string leaves the parser's read of the later pictures as it was. */
  lemma PicsRestKept(s: seq<byte>, p: nat, n: nat, key: Key)
    requires n > 0 && p + 2 <= |s| && p + 2 + U16(s, p) <= |s|
    ensures var q := p + 2 + U16(s, p);
      PicsFrom(XorSpan(s, p + 2, U16(s, p), key), q, n - 1) == PicsFrom(s, q, n - 1)
  {
    SpanFrame(s, p + 2, U16(s, p), key);
    PicsFromFrame(s, XorSpan(s, p + 2, U16(s, p), key), p + 2 + U16(s, p), n - 1);
  }

  /** One step of the picture pass. */
  lemma PicsPassStep(s: seq<byte>, p: nat, n: nat, key: Key)
    requires n > 0 && p + 2 <= |s| && p + 2 + U16(s, p) <= |s|
    ensures PicsPass(s, p, n, key) == PicsPass(XorSpan(s, p + 2, U16(s, p), key), p + 2 + U16(s, p), n - 1, key)
  {
  }

  /** One step of the parser's read of the pictures. */
  lemma PicsFromStep(f: seq<byte>, p: nat, n: nat)
    requires n > 0 && p + 2 <= |f| && p + 2 + U16(f, p) <= |f| && PicsFrom(f, p + 2 + U16(f, p), n - 1).Ok?
    ensures var q := p + 2 + U16(f, p); var rest := PicsFrom(f, q, n - 1).value;
      PicsFrom(f, p, n) == Ok(Meta.Parsed([PicDesc(U16(f, p), f[p + 2..q])] + rest.value, rest.next))
  {
  }

  /** The parser's read of the pictures ends where its read of the later pictures, after the first is decrypted, ends. */
  lemma PicsTailNext(s: seq<byte>, p: nat, n: nat, key: Key)
    requires n > 0 && PicsFrom(s, p, n).Ok?
    ensures p + 2 <= |s| && p + 2 + U16(s, p) <= |s|
    ensures var q := p + 2 + U16(s, p); var t := PicsFrom(XorSpan(s, p + 2, U16(s, p), key), q, n - 1);
      t.Ok? && t.value.next == PicsFrom(s, p, n).value.next
  {
    PicsFromNext(s, p, n);
    PicsRestKept(s, p, n, key);
  }

  /** The parser's read of the pictures ends where its read of the later pictures ends. */
  lemma PicsFromNext(f: seq<byte>, p: nat, n: nat)
    requires n > 0 && p + 2 <= |f| && p + 2 + U16(f, p) <= |f|
    ensures var q := p + 2 + U16(f, p);
      PicsFrom(f, p, n).Ok? == PicsFrom(f, q, n - 1).Ok? &&
      (PicsFrom(f, p, n).Ok? ==> PicsFrom(f, p, n).value.next == PicsFrom(f, q, n - 1).value.next)
  {
  }

  /** A decrypted span: the bytes outside it are kept, and the span is decrypted on its own. */
  lemma SpanFrame(s: seq<byte>, a: nat, len: nat, key: Key)
    requires a + len <= |s|
    ensures var s1 := XorSpan(s, a, len, key);
      && (forall i :: 0 <= i < |s| && (i < a || a + len <= i) ==> s1[i] == s[i])
      && s1[a..a + len] == XorBytes(s[a..a + len], key)
  {
    XorSpanElems(s, a, len, key);
    XorSpanSlice(s, a, len, key);
  }

  /** After the picture pass, the first length prefix is as it was and the first picture string is decrypted. */
  lemma PicsHead(s: seq<byte>, p: nat, n: nat, key: Key)
    requires n > 0 && p + 2 <= |s| && p + 2 + U16(s, p) <= |s|
    ensures var q := p + 2 + U16(s, p); var b := PicsPass(s, p, n, key).buf;
      U16(b, p) == U16(s, p) && b[p + 2..q] == XorBytes(s[p + 2..q], key)
  {
    PicsStepHead(s, p, n, key);
    PicsPassStep(s, p, n, key);
  }

  /** The first picture as the pass on the later pictures leaves it: its prefix kept, its string decrypted. */
  lemma PicsStepHead(s: seq<byte>, p: nat, n: nat, key: Key)
    requires n > 0 && p + 2 <= |s| && p + 2 + U16(s, p) <= |s|
    ensures var q := p + 2 + U16(s, p); var b := PicsPass(XorSpan(s, p + 2, U16(s, p), key), q, n - 1, key).buf;
      U16(b, p) == U16(s, p) && b[p + 2..q] == XorBytes(s[p + 2..q], key)
  {
    var piclen := U16(s, p);
    var q := p + 2 + piclen;
    var s1 := XorSpan(s, p + 2, piclen, key);
    SpanFrame(s, p + 2, piclen, key);
    PicsBelow(s1, q, n - 1, key);
    HeadKept(s, s1, PicsPass(s1, q, n - 1, key).buf, p, q, key);
  }

  /** A buffer that agrees below `q` with `s1`, itself `s` with only [p + 2, q) decrypted. */
  lemma HeadKept(s: seq<byte>, s1: seq<byte>, b: seq<byte>, p: nat, q: nat, key: Key)
    requires p + 2 <= q <= |s| && |s1| == |s| && |b| == |s|
    requires forall i :: 0 <= i < q && i < |s1| ==> b[i] == s1[i]
    requires forall i :: 0 <= i < |s| && (i < p + 2 || q <= i) ==> s1[i] == s[i]
    requires s1[p + 2..q] == XorBytes(s[p + 2..q], key)
    ensures U16(b, p) == U16(s, p) && b[p + 2..q] == XorBytes(s[p + 2..q], key)
  {
    assert b[p] == s[p] && b[p + 1] == s[p + 1];
    assert b[p + 2..q] == s1[p + 2..q];
  }

  /** How many of `n` records of `reclen` bytes from `p` lie wholly within `len` bytes. */
  function Fitting(len: nat, p: nat, n: nat, reclen: nat): (m: nat)
    ensures m <= n
    ensures m > 0 ==> p + reclen * m <= len
    ensures m < n ==> p + reclen * (m + 1) > len
  {
    if p > len then 0
    else if reclen == 0 then n
    else
      var q := (len - p) / reclen;
      assert reclen * q + (len - p) % reclen == len - p;
      assert reclen * (q + 1) == reclen * q + reclen;
      if q < n then q
      else
        assert reclen * q - reclen * n == reclen * (q - n);
        MulSign(reclen, q - n);
        n
  }

  /** Division by `d` of a value one `d` larger. */
  lemma DivShift(x: nat, d: nat)
    requires d > 0
    ensures (x + d) / d == x / d + 1 && (x + d) % d == x % d
  {
    assert x == d * (x / d) + x % d;
    assert d * (x / d + 1) == d * (x / d) + d;
    DivUnique(x + d, d, x / d + 1, x % d);
  }

  /** The count of records that fit, one record at a time. */
  lemma FittingStep(len: nat, p: nat, n: nat, reclen: nat)
    ensures n == 0 || p + reclen > len ==> Fitting(len, p, n, reclen) == 0
    ensures n > 0 && p + reclen <= len ==> Fitting(len, p, n, reclen) == 1 + Fitting(len, p + reclen, n - 1, reclen)
  {
    if reclen > 0 && p <= len {
      if p + reclen > len {
        DivUnique(len - p, reclen, 0, len - p);
      } else {
        DivShift(len - p - reclen, reclen);
      }
    }
  }

  /** The data pass ends `reclen` bytes on for every record that lies within the file. */
  lemma {:induction false} DataPassEnd(s: seq<byte>, p: nat, n: nat, reclen: nat, key: Key)
    ensures DataPass(s, p, n, reclen, key).res == Ok(p + reclen * Fitting(|s|, p, n, reclen))
    decreases n
  {
    FittingStep(|s|, p, n, reclen);
    if n > 0 && p + reclen <= |s| {
      var s1 := XorSpan(s, p + RecordHeaderSize, reclen - RecordHeaderSize, key);
      DataPassEnd(s1, p + reclen, n - 1, reclen, key);
      MulPred(reclen, Fitting(|s|, p, n, reclen));
    }
  }

  /**
   * Byte `i` lies in the decrypted part of one of the first `m` records of
   * `reclen` bytes from `p`: past the record's 5-byte header, and within the even
   * count of its remaining bytes.
   */
  predicate InRecordText(p: nat, reclen: nat, m: nat, i: nat)
  {
    && reclen > 0 && p <= i && (i - p) / reclen < m
    && RecordHeaderSize <= (i - p) % reclen < RecordHeaderSize + Even(reclen - RecordHeaderSize)
  }

  /**
   * Each byte after the data pass: bytes 5 .. reclen - 1 of every record that fits
   * in the file are XORed, key[0] on the even offsets from byte 5; the record
   * headers, the records that do not fit and every byte outside the records keep
   * their values.
   */
  lemma {:induction false} DataPassByte(s: seq<byte>, p: nat, n: nat, reclen: nat, key: Key, i: nat)
    requires i < |s|
    ensures DataPass(s, p, n, reclen, key).buf[i] ==
      if InRecordText(p, reclen, Fitting(|s|, p, n, reclen), i)
      then Xor(s[i], KeyByte(key, (i - p) % reclen - RecordHeaderSize)) else s[i]
    decreases n
  {
    FittingStep(|s|, p, n, reclen);
    if n > 0 && p + reclen <= |s| {
      var a, la := p + RecordHeaderSize, reclen - RecordHeaderSize;
      var s1 := XorSpan(s, a, la, key);
      var w := DataPass(s1, p + reclen, n - 1, reclen, key);
      assert DataPass(s, p, n, reclen, key) == w;
      XorSpanAt(s, a, la, key, i);
      DataPassByte(s1, p + reclen, n - 1, reclen, key, i);
      DataByteStep(p, reclen, Fitting(|s|, p, n, reclen), i, s[i], s1[i], w.buf[i], key);
    } else {
      RecordNone(p, reclen, i);
    }
  }

  /**
   * One step of DataPassByte, on the byte's values: `x` before the first record's
   * span is decrypted, `y` after it, and `z` after the later records' pass.
   */
  lemma DataByteStep(p: nat, reclen: nat, m: nat, i: nat, x: byte, y: byte, z: byte, key: Key)
    requires m > 0
    requires y == if p + RecordHeaderSize <= i < p + RecordHeaderSize + Even(reclen - RecordHeaderSize)
      then Xor(x, KeyByte(key, i - (p + RecordHeaderSize))) else x
    requires z == if InRecordText(p + reclen, reclen, m - 1, i)
      then Xor(y, KeyByte(key, (i - (p + reclen)) % reclen - RecordHeaderSize)) else y
    ensures z == if InRecordText(p, reclen, m, i) then Xor(x, KeyByte(key, (i - p) % reclen - RecordHeaderSize)) else x
  {
    if reclen == 0 || i < p {
      assert !InRecordText(p, reclen, m, i) && !InRecordText(p + reclen, reclen, m - 1, i);
    } else if i < p + reclen {
      RecordFirst(p, reclen, m, i);
    } else {
      RecordLater(p, reclen, m, i);
    }
  }

  /** No byte is in the decrypted part of no records. */
  lemma RecordNone(p: nat, reclen: nat, i: nat)
    ensures !InRecordText(p, reclen, 0, i)
  {
    if reclen > 0 && p <= i {
      var x := i - p;
      assert x == reclen * (x / reclen) + x % reclen;
      MulSign(reclen, x / reclen);
    }
  }

  /** One byte of a decrypted span. */
  lemma XorSpanAt(s: seq<byte>, start: nat, len: int, key: Key, i: nat)
    requires SpanFits(s, start, len) && i < |s|
    ensures XorSpan(s, start, len, key)[i] == if start <= i < start + Even(len) then Xor(s[i], KeyByte(key, i - start)) else s[i]
  {
    var m := Even(len) / 2;
    assert 2 * m == Even(len);
    XorPairsAt(s, start, m, key, i);
  }

  /** A byte of the first record is in its decrypted part exactly when it lies in the record's span. */
  lemma RecordFirst(p: nat, reclen: nat, m: nat, i: nat)
    requires reclen > 0 && m > 0 && p <= i < p + reclen
    ensures (i - p) % reclen == i - p
    ensures InRecordText(p, reclen, m, i) <==> p + RecordHeaderSize <= i < p + RecordHeaderSize + Even(reclen - RecordHeaderSize)
    ensures !InRecordText(p + reclen, reclen, m - 1, i)
  {
    DivUnique(i - p, reclen, 0, i - p);
  }

  /** A byte past the first record is in the decrypted part of the records from `p` as of those after it. */
  lemma RecordLater(p: nat, reclen: nat, m: nat, i: nat)
    requires reclen > 0 && m > 0 && p + reclen <= i
    ensures (i - p) % reclen == (i - (p + reclen)) % reclen
    ensures InRecordText(p, reclen, m, i) <==> InRecordText(p + reclen, reclen, m - 1, i)
  {
    DivShift(i - p - reclen, reclen);
  }

  /**
   * Byte `i` lies in the text of one of the full 256-byte memo blocks from `p`
   * within `len` bytes: past the block's 4-byte link.
   */
  predicate InMemoText(p: nat, len: nat, i: nat)
  {
    p <= i < len && (i - p) / MemoBlockSize < (len - p) / MemoBlockSize && 4 <= (i - p) % MemoBlockSize
  }

  /**
   * Each byte after the memo pass: bytes 4 .. 255 of every full block from `p` are
   * XORed, key[0] on the even offsets from byte 4; the block links, a partial last
   * block and every byte before `p` keep their values.
   */
  lemma {:induction false} MemoPassByte(s: seq<byte>, p: nat, key: Key, i: nat)
    requires i < |s|
    ensures MemoPass(s, p, key)[i] ==
      if InMemoText(p, |s|, i) then Xor(s[i], KeyByte(key, (i - p) % MemoBlockSize - 4)) else s[i]
    decreases |s| - p
  {
    if p < |s| && p + MemoBlockSize <= |s| {
      var s1 := XorSpan(s, p + 4, MemoTextSize, key);
      XorSpanAt(s, p + 4, MemoTextSize, key, i);
      MemoPassByte(s1, p + MemoBlockSize, key, i);
      MemoByteStep(p, |s|, i, s[i], s1[i], MemoPass(s1, p + MemoBlockSize, key)[i], key);
    } else if p < |s| {
      DivUnique(|s| - p, MemoBlockSize, 0, |s| - p);
    }
  }

  /**
   * One step of MemoPassByte, on the byte's values: `x` before the first block's
   * text is decrypted, `y` after it, and `z` after the later blocks' pass.
   */
  lemma MemoByteStep(p: nat, len: nat, i: nat, x: byte, y: byte, z: byte, key: Key)
    requires p + MemoBlockSize <= len && i < len
    requires y == if p + 4 <= i < p + 4 + Even(MemoTextSize) then Xor(x, KeyByte(key, i - (p + 4))) else x
    requires z == if InMemoText(p + MemoBlockSize, len, i) then Xor(y, KeyByte(key, (i - (p + MemoBlockSize)) % MemoBlockSize - 4)) else y
    ensures z == if InMemoText(p, len, i) then Xor(x, KeyByte(key, (i - p) % MemoBlockSize - 4)) else x
  {
    DivShift(len - p - MemoBlockSize, MemoBlockSize);
    if p <= i < p + MemoBlockSize {
      DivUnique(i - p, MemoBlockSize, 0, i - p);
    } else if p + MemoBlockSize <= i {
      DivShift(i - p - MemoBlockSize, MemoBlockSize);
    }
  }

  /** The bit arithmetic of `sfatr & ~(CL_FILE_OWNED | CL_RECORDS_ENCRYPTED)`. */
  lemma ClearedBits(x: nat)
    ensures ClearMask(ClearMask(x, FileOwned), RecordsEncrypted) == 8 * (x / 8) + x % 2
  {
    var q, r := x / 8, x % 8;
    assert x == 8 * q + r;
    ClearedLowBits(q, r);
  }

  lemma ClearedLowBits(q: nat, r: nat)
    requires r < 8
    ensures ClearMask(ClearMask(8 * q + r, FileOwned), RecordsEncrypted) == 8 * q + r % 2
  {
    var x := 8 * q + r;
    var r0, r1, r2 := r % 2, (r / 2) % 2, r / 4;
    DivideBy(x, 2, 4 * q + r / 2, r0);
    DivideBy(4 * q + r / 2, 2, 2 * q + r2, r1);
    var y := x - 2 * r1;
    assert y == ClearMask(x, FileOwned);
    DivideBy(y, 4, 2 * q + r2, r0);
    DivideBy(2 * q + r2, 2, q, r2);
  }

  /** Division of `x` by a small constant `d` that splits it as d*h + b. */
  lemma DivideBy(x: nat, d: nat, h: nat, b: nat)
    requires d == 2 || d == 4
    requires x == d * h + b && b < d
    ensures x / d == h && x % d == b
  {
  }

  /** sfatr with the OWNED and ENCRYPTED bits cleared and every other bit kept. */
  function ClearedSfatr(sfatr: nat): (r: nat)
    ensures r <= sfatr && r / 8 == sfatr / 8 && r % 2 == sfatr % 2
    ensures !HasMask(r, FileOwned) && !HasMask(r, RecordsEncrypted)
  {
    ClearedBits(sfatr);
    ClearMask(ClearMask(sfatr, FileOwned), RecordsEncrypted)
  }

  /** The file after the flags write of clarion_decrypt_all: the new sfatr little-endian at offset 2. */
  function ClearFlags(s: seq<byte>): (r: seq<byte>)
    requires |s| >= HeaderSize
    ensures |r| == |s| && r[..2] == s[..2] && r[4..] == s[4..]
    ensures U16(r, 2) == ClearedSfatr(U16(s, 2))
  {
    U16Bound(s, 2);
    var e := Enc16(ClearedSfatr(U16(s, 2)));
    U16Enc16(ClearedSfatr(U16(s, 2)));
    var r := s[..2] + e + s[4..];
    assert r[2..4] == e;
    r
  }

  /**
   * clarion_decrypt_schema from the cursor the header read leaves (85): the field
   * descriptors by the count of the re-read header, then the parser re-reads them
   * and the key section follows. The result is the cursor the array reader leaves,
   * where the data pass starts.
   */
  function SchemaPass(s: seq<byte>, h: Header, key: Key, datfile: string, keyfiles: map<string, byte>): (r: Sweep)
    requires |datfile| >= 3 && h.numbkeys <= 255
    ensures |r.buf| == |s|
  {
    var f := RepeatPass(s, HeaderSize, h.numflds, FieldDescSize, key);
    if f.res.Err? then f
    else match FieldTable(f.buf, HeaderSize, h.numflds)
    case Err(e) => Sweep(f.buf, Err(e))
    case Ok(fd) => KeysStage(f.buf, fd.next, h, fd.value, key, datfile, keyfiles)
  }

  /** The key section from `p`, then the key descriptors are re-read and the picture section follows. */
  function KeysStage(s: seq<byte>, p: nat, h: Header, fields: seq<FieldDesc>, key: Key, datfile: string,
                     keyfiles: map<string, byte>): (r: Sweep)
    requires |datfile| >= 3 && h.numbkeys <= 255
    ensures |r.buf| == |s|
  {
    var k := KeysPass(s, p, h.numbkeys, key);
    if k.res.Err? then k
    else match KeysFrom(k.buf, p, 0, h.numbkeys, datfile, keyfiles, fields)
    case Err(e) => Sweep(k.buf, Err(e))
    case Ok(kd) => PicsStage(k.buf, kd.next, h, fields, key)
  }

  /**
   * The picture section from `p`; the result of re-reading the pictures is not
   * checked, and a short read leaves the cursor at the end of the file.
   */
  function PicsStage(s: seq<byte>, p: nat, h: Header, fields: seq<FieldDesc>, key: Key): (r: Sweep)
    ensures |r.buf| == |s|
  {
    var w := PicsPass(s, p, h.numpics, key);
    if w.res.Err? then w
    else
      var next := match PicsFrom(w.buf, p, h.numpics) case Ok(pd) => pd.next case Err(_) => |s|;
      ArrsStage(w.buf, next, h, fields, key)
  }

  /** The array section from `p` for the re-read fields, then the array reader; it gives the data start. */
  function ArrsStage(s: seq<byte>, p: nat, h: Header, fields: seq<FieldDesc>, key: Key): (r: Sweep)
    ensures |r.buf| == |s|
  {
    var a := ArrsPass(s, fields, 0, p, h.offset, key);
    if a.res.Err? then a
    else
      var next := match ArrsFrom(a.buf, fields, 0, p, h.offset) case Ok(ad) => ad.next case Err(_) => |s|;
      Sweep(a.buf, Ok(next))
  }

  /** clarion_decrypt_data: refused when its start lies past the data offset. */
  function DataStart(s: seq<byte>, p: nat, h: Header, key: Key): (r: Sweep)
    ensures |r.buf| == |s|
    ensures r.res.Err? <==> p > h.offset
    ensures r.res.Err? ==> r.buf == s && r.res.error == PastDataStart
  {
    if p > h.offset then Sweep(s, Err(PastDataStart))
    else DataPass(s, p, h.numrecs, h.reclen, key)
  }

  /**
   * The data file after clarion_decrypt_all: the flags are cleared, the key is taken
   * from the header as first read, then header, schema and data are decrypted in
   * that order. A failing step leaves the buffer as far as it got.
   */
  function DatPass(s: seq<byte>, mode: int, datfile: string, keyfiles: map<string, byte>): (r: Sweep)
    requires |s| >= HeaderSize && |datfile| >= 3
    ensures |r.buf| == |s|
  {
    var key := GetKey(DecodeHeader(s), mode);
    var s1 := HeaderPass(ClearFlags(s), key);
    match ParseHeader(s1)
    case Err(e) => Sweep(s1, Err(e))
    case Ok(h) =>
      var sc := SchemaPass(s1, h, key, datfile, keyfiles);
      if sc.res.Err? then sc
      else DataStart(sc.buf, sc.res.value, h, key)
  }

  /** Both files after clarion_decrypt_all, and whether it succeeded. */
  datatype Outcome = Outcome(dat: seq<byte>, mem: Option<seq<byte>>, res: Result<()>)

  /**
   * clarion_decrypt_all on the data file `dat` and the memo file `mem` (None when
   * it cannot be opened): after the data file, the memo file is opened and swept
   * when the re-read header says it exists.
   */
  function AllPass(dat: seq<byte>, mem: Option<seq<byte>>, mode: int, datfile: string, keyfiles: map<string, byte>)
    : (r: Outcome)
    requires |dat| >= HeaderSize && |datfile| >= 3
    ensures |r.dat| == |dat|
    ensures r.mem.Some? <==> mem.Some?
    ensures mem.Some? ==> |r.mem.value| == |mem.value|
  {
    var key := GetKey(DecodeHeader(dat), mode);
    var d := DatPass(dat, mode, datfile, keyfiles);
    if d.res.Err? then Outcome(d.buf, mem, Err(d.res.error))
    else
      var sfatr := U16(HeaderPass(ClearFlags(dat), key), 2);
      match OpenMemo(sfatr, mem)
      case Err(e) => Outcome(d.buf, mem, Err(e))
      case Ok(isOpen) =>
        if isOpen then Outcome(d.buf, Some(MemoPass(mem.value, MemoHeaderSize, key)), Ok(()))
        else Outcome(d.buf, mem, Ok(()))
  }

  /** The key is the same whether it is taken before or after the flags write. */
  lemma KeyIgnoresFlags(s: seq<byte>, mode: int)
    requires |s| >= HeaderSize
    ensures GetKey(DecodeHeader(ClearFlags(s)), mode) == GetKey(DecodeHeader(s), mode)
  {
    var c := ClearFlags(s);
    assert c[9..13] == s[9..13] && c[71..75] == s[71..75] by {
      assert c[4..] == s[4..];
      assert c[9..13] == c[4..][5..9] && c[71..75] == c[4..][67..71];
    }
    assert U32(c, 9) == U32(s, 9) && U32(c, 71) == U32(s, 71) by {
      assert c[9] == s[9] && c[10] == s[10] && c[11] == s[11] && c[12] == s[12];
      assert c[71] == s[71] && c[72] == s[72] && c[73] == s[73] && c[74] == s[74];
    }
  }

  /** The array stage only touches bytes from its start on, and the data start lies past the header. */
  lemma ArrsStageBelow(s: seq<byte>, p: nat, h: Header, fields: seq<FieldDesc>, key: Key)
    requires 4 <= p && |s| >= HeaderSize
    ensures ArrsStage(s, p, h, fields, key).buf[..4] == s[..4]
    ensures ArrsStage(s, p, h, fields, key).res.Ok? ==> ArrsStage(s, p, h, fields, key).res.value >= 4
  {
    ArrsBelow(s, fields, 0, p, h.offset, key);
  }

  lemma PicsStageBelow(s: seq<byte>, p: nat, h: Header, fields: seq<FieldDesc>, key: Key)
    requires 4 <= p && |s| >= HeaderSize
    ensures PicsStage(s, p, h, fields, key).buf[..4] == s[..4]
    ensures PicsStage(s, p, h, fields, key).res.Ok? ==> PicsStage(s, p, h, fields, key).res.value >= 4
  {
    var w := PicsPass(s, p, h.numpics, key);
    PicsBelow(s, p, h.numpics, key);
    if w.res.Ok? {
      PicsFromShape(w.buf, p, h.numpics);
      var next := match PicsFrom(w.buf, p, h.numpics) case Ok(pd) => pd.next case Err(_) => |s|;
      ArrsStageBelow(w.buf, next, h, fields, key);
    }
  }

  lemma KeysStageBelow(s: seq<byte>, p: nat, h: Header, fields: seq<FieldDesc>, key: Key, datfile: string,
                       keyfiles: map<string, byte>)
    requires |datfile| >= 3 && h.numbkeys <= 255 && 4 <= p && |s| >= HeaderSize
    ensures KeysStage(s, p, h, fields, key, datfile, keyfiles).buf[..4] == s[..4]
    ensures KeysStage(s, p, h, fields, key, datfile, keyfiles).res.Ok? ==>
      KeysStage(s, p, h, fields, key, datfile, keyfiles).res.value >= 4
  {
    var k := KeysPass(s, p, h.numbkeys, key);
    KeysBelow(s, p, h.numbkeys, key);
    var kd := KeysFrom(k.buf, p, 0, h.numbkeys, datfile, keyfiles, fields);
    if k.res.Ok? && kd.Ok? {
      PicsStageBelow(k.buf, kd.value.next, h, fields, key);
    }
  }

  /** The schema pass only touches bytes from offset 4 on. */
  lemma SchemaBelow(s: seq<byte>, h: Header, key: Key, datfile: string, keyfiles: map<string, byte>)
    requires |datfile| >= 3 && h.numbkeys <= 255 && |s| >= HeaderSize
    ensures SchemaPass(s, h, key, datfile, keyfiles).buf[..4] == s[..4]
    ensures SchemaPass(s, h, key, datfile, keyfiles).res.Ok? ==> SchemaPass(s, h, key, datfile, keyfiles).res.value >= 4
  {
    var f := RepeatPass(s, HeaderSize, h.numflds, FieldDescSize, key);
    RepeatBelow(s, HeaderSize, h.numflds, FieldDescSize, key);
    var fd := FieldTable(f.buf, HeaderSize, h.numflds);
    if f.res.Ok? && fd.Ok? {
      KeysStageBelow(f.buf, fd.value.next, h, fd.value.value, key, datfile, keyfiles);
    }
  }

  /**
   * Whatever the outcome, the data file keeps its signature and holds the cleared
   * sfatr at offset 2: no XOR pass touches the first four bytes.
   */
  lemma DatPassClearsFlags(s: seq<byte>, mode: int, datfile: string, keyfiles: map<string, byte>)
    requires |s| >= HeaderSize && |datfile| >= 3
    ensures var r := DatPass(s, mode, datfile, keyfiles).buf;
      r[..2] == s[..2] && U16(r, 2) == ClearedSfatr(U16(s, 2))
    ensures var r := DatPass(s, mode, datfile, keyfiles).buf;
      !HasMask(U16(r, 2), FileOwned) && !HasMask(U16(r, 2), RecordsEncrypted)
  {
    var key := GetKey(DecodeHeader(s), mode);
    var c := ClearFlags(s);
    var s1 := HeaderPass(c, key);
    HeaderPassFrame(c, key);
    assert s1[..4] == s[..2] + c[2..4];
    var r := DatPass(s, mode, datfile, keyfiles).buf;
    if ParseHeader(s1).Ok? {
      var h := ParseHeader(s1).value;
      SchemaBelow(s1, h, key, datfile, keyfiles);
      var sc := SchemaPass(s1, h, key, datfile, keyfiles);
      if sc.res.Ok? && sc.res.value <= h.offset {
        DataBelow(sc.buf, sc.res.value, h.numrecs, h.reclen, key);
      }
    }
    assert r[..4] == s1[..4];
    assert r[..2] == s[..2];
    assert U16(r, 2) == U16(c, 2);
  }

  /** clarion_decrypt_header: the 81 header bytes, then the header is read again. */
  method DecryptHeader(buf: array<byte>, key: Key) returns (r: Result<Header>)
    requires buf.Length >= HeaderSize
    modifies buf
    ensures buf[..] == HeaderPass(old(buf[..]), key) && r == ParseHeader(buf[..])
  {
    DecryptSpan(buf, 4, 81, key);
    r := ParseHeader(buf[..]);
  }

  /** clarion_decrypt_schema: each section is decrypted, then read back from the buffer. */
  method DecryptSchema(buf: array<byte>, h: Header, key: Key, datfile: string, keyfiles: map<string, byte>)
    returns (r: Result<nat>)
    requires |datfile| >= 3 && h.numbkeys <= 255
    modifies buf
    ensures var w := SchemaPass(old(buf[..]), h, key, datfile, keyfiles); buf[..] == w.buf && r == w.res
  {
    var f := DecryptRepeat(buf, HeaderSize, h.numflds, FieldDescSize, key);
    if f.Err? {
      return f;
    }
    var fd := ReadFieldDescs(buf[..], HeaderSize, h.numflds);
    if fd.Err? {
      return Err(fd.error);
    }
    var fields := fd.value.value;
    var k := DecryptKeys(buf, fd.value.next, h.numbkeys, key);
    if k.Err? {
      return k;
    }
    var kd, _ := ReadKeyDescs(buf[..], fd.value.next, h.numbkeys, datfile, keyfiles, fields);
    if kd.Err? {
      return Err(kd.error);
    }
    var pics := DecryptPics(buf, kd.value.next, h.numpics, key);
    if pics.Err? {
      return pics;
    }
    var pd := ReadPicDescs(buf[..], kd.value.next, h.numpics);
    var cur := if pd.Ok? then pd.value.next else buf.Length;
    var arrs := DecryptArrs(buf, fields, cur, h.offset, key);
    if arrs.Err? {
      return arrs;
    }
    var ad := ReadArrDescs(buf[..], cur, fields, h.offset);
    return Ok(if ad.Ok? then ad.value.next else buf.Length);
  }

  /** clarion_decrypt_data from the cursor the schema left. */
  method DecryptData(buf: array<byte>, p: nat, h: Header, key: Key) returns (r: Result<nat>)
    modifies buf
    ensures var w := DataStart(old(buf[..]), p, h, key); buf[..] == w.buf && r == w.res
  {
    if p > h.offset {
      return Err(PastDataStart);
    }
    var next := DecryptRecords(buf, p, h.numrecs, h.reclen, key);
    return Ok(next);
  }

  /** The flags write of clarion_decrypt_all: `sfatr &= ~(OWNED | ENCRYPTED)`, stored little-endian at offset 2. */
  method WriteFlags(dat: array<byte>)
    requires dat.Length >= HeaderSize
    modifies dat
    ensures dat[..] == ClearFlags(old(dat[..]))
  {
    var sfatr := ClearedSfatr(dat[3] as nat * 256 + dat[2] as nat);
    assert sfatr == ClearedSfatr(U16(dat[..], 2));
    dat[2] := (sfatr % 256) as byte;
    dat[3] := (sfatr / 256) as byte;
  }

  /**
   * clarion_decrypt_all on the mapped data file `dat` and the memo file `mem`
   * (`hasMem` false when it cannot be opened).
   */
  method DecryptAll(dat: array<byte>, mem: array<byte>, hasMem: bool, mode: int, datfile: string,
                    keyfiles: map<string, byte>) returns (r: Result<()>)
    requires dat.Length >= HeaderSize && |datfile| >= 3 && dat != mem
    modifies dat, mem
    ensures var o := AllPass(old(dat[..]), if hasMem then Some(old(mem[..])) else None, mode, datfile, keyfiles);
      dat[..] == o.dat && r == o.res && (hasMem ==> o.mem == Some(mem[..])) && (!hasMem ==> mem[..] == old(mem[..]))
  {
    var key := GetKey(DecodeHeader(dat[..]), mode);
    WriteFlags(dat);
    var h := DecryptHeader(dat, key);
    if h.Err? {
      return Err(h.error);
    }
    var sc := DecryptSchema(dat, h.value, key, datfile, keyfiles);
    if sc.Err? {
      return Err(sc.error);
    }
    var d := DecryptData(dat, sc.value, h.value, key);
    if d.Err? {
      return Err(d.error);
    }
    var memo := OpenMemo(h.value.sfatr, if hasMem then Some(mem[..]) else None);
    if memo.Err? {
      return Err(memo.error);
    }
    if memo.value {
      DecryptMemo(mem, key);
    }
    return Ok(());
  }
}
