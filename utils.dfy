/**
 * Text and byte utilities of cl_utils.c: trailing-space trimming of fixed-width
 * buffers (in place, by writing a NUL), collapsing of space runs inside a C string
 * (in place, with memmove), and the element byte swap that cl_fread applies on a
 * big-endian host.
 */
module Utils {
  import opened Clarion

  // ---------------------------------------------------------------------------
  // clarion_trim

  /** Length of `s` once its trailing 0x20 bytes are dropped. */
  function TrimmedLen(s: seq<byte>): (n: nat)
    ensures n <= |s|
    ensures forall i :: n <= i < |s| ==> s[i] == Space
    ensures n > 0 ==> s[n - 1] != Space
  {
    if |s| == 0 then 0
    else if s[|s| - 1] == Space then TrimmedLen(s[..|s| - 1])
    else |s|
  }

  /** The bytes of `s` up to its last non-space byte. */
  function TrimEnd(s: seq<byte>): seq<byte>
  {
    s[..TrimmedLen(s)]
  }

  /** The three facts of TrimmedLen's contract determine it. */
  lemma {:induction false} TrimmedLenUnique(s: seq<byte>, n: nat)
    requires n <= |s|
    requires forall i :: n <= i < |s| ==> s[i] == Space
    requires n > 0 ==> s[n - 1] != Space
    ensures TrimmedLen(s) == n
  {
    if |s| > 0 && n < |s| {
      TrimmedLenUnique(s[..|s| - 1], n);
    }
  }

  /**
   * clarion_trim(data, length): writes a NUL just after the last non-space byte of
   * data[0..length), or at index 0 when they are all spaces; nothing else changes.
   */
  method Trim(data: array<byte>, length: int)
    requires 0 <= length < data.Length
    modifies data
    ensures data[..] == old(data[..])[TrimmedLen(old(data[..length])) := 0]
  {
    ghost var s := data[..length];
    var i := length - 1;
    while i >= 0
      invariant -1 <= i < length
      invariant forall k :: i < k < length ==> data[k] == Space
      invariant data[..] == old(data[..])
    {
      if data[i] != Space {
        TrimmedLenUnique(s, i + 1);
        data[i + 1] := 0;
        return;
      }
      i := i - 1;
    }
    TrimmedLenUnique(s, 0);
    data[0] := 0;
  }

  /** The buffer clarion_trim leaves behind, as a value. */
  function TrimmedBuffer(s: seq<byte>, length: nat): seq<byte>
    requires length < |s|
  {
    s[TrimmedLen(s[..length]) := 0]
  }

  /** Trimming is idempotent. */
  lemma TrimEndIdempotent(s: seq<byte>)
    ensures TrimEnd(TrimEnd(s)) == TrimEnd(s)
  {
    var t := TrimEnd(s);
    TrimmedLenUnique(t, |t|);
  }

  /** Only 0x20 counts as a space: a buffer is left whole exactly when it does not end in 0x20. */
  lemma TrimEndKeepsIff(s: seq<byte>)
    ensures TrimEnd(s) == s <==> (|s| == 0 || s[|s| - 1] != Space)
  {
    if |s| > 0 && s[|s| - 1] != Space {
      TrimmedLenUnique(s, |s|);
    }
  }

  /**
   * Trimming a buffer a second time leaves the C string it holds unchanged
   * (the second pass may write a second NUL, but after the first one).
   */
  lemma TrimTwiceSameString(s: seq<byte>, length: nat)
    requires length < |s|
    ensures CStr(TrimmedBuffer(TrimmedBuffer(s, length), length)) == CStr(TrimmedBuffer(s, length))
  {
    var n := TrimmedLen(s[..length]);
    var t := TrimmedBuffer(s, length);
    var u := TrimmedBuffer(t, length);
    CStrCut(t, n);
    if n < length {
      assert t[..length][n] == 0;
      TrimmedLenUnique(t[..length], n + 1);
      assert u == t[n + 1 := 0];
    } else {
      assert t[..length] == s[..length];
      assert u == t;
    }
    CStrCut(u, n);
  }

  /** A NUL at `n` with none before it ends the C string there. */
  lemma {:induction false} CStrAt(s: seq<byte>, n: nat)
    requires n < |s| && s[n] == 0
    requires forall k :: 0 <= k < n ==> s[k] != 0
    ensures CStr(s) == s[..n]
  {
    if n > 0 {
      CStrAt(s[1..], n - 1);
    }
  }

  /** A NUL at `n` cuts the C string at `n` or earlier. */
  lemma {:induction false} CStrCut(s: seq<byte>, n: nat)
    requires n < |s| && s[n] == 0
    ensures CStr(s) == CStr(s[..n])
  {
    if n > 0 && s[0] != 0 {
      CStrCut(s[1..], n - 1);
      assert s[1..][..n - 1] == s[..n][1..];
    }
  }

  // ---------------------------------------------------------------------------
  // clarion_singlespace

  function Spaces(n: nat): (r: seq<byte>)
    ensures |r| == n
    ensures forall i :: 0 <= i < n ==> r[i] == Space
  {
    seq(n, _ => Space)
  }

  /**
   * Left-to-right reading of clarion_singlespace: `pend` spaces have been seen and
   * not yet emitted; they become one space if a non-space follows, and are kept as
   * they are at the end of the string.
   */
  function CollapseFrom(s: seq<byte>, pend: nat): seq<byte>
    decreases |s|
  {
    if |s| == 0 then Spaces(pend)
    else if s[0] == Space then CollapseFrom(s[1..], pend + 1)
    else (if pend > 0 then [Space] else []) + [s[0]] + CollapseFrom(s[1..], 0)
  }

  /** The string clarion_singlespace leaves. */
  function Collapse(s: seq<byte>): seq<byte>
  {
    CollapseFrom(s, 0)
  }

  /** The non-space bytes of `s`, in order. */
  function NonSpaces(s: seq<byte>): seq<byte>
  {
    if |s| == 0 then []
    else if s[0] == Space then NonSpaces(s[1..])
    else [s[0]] + NonSpaces(s[1..])
  }

  /** No run of two or more spaces is followed by a non-space. */
  ghost predicate Collapsed(r: seq<byte>)
  {
    forall i :: 0 < i && i + 1 < |r| && r[i] == Space && r[i + 1] != Space ==> r[i - 1] != Space
  }

  lemma {:induction false} CollapseFromNotLonger(s: seq<byte>, pend: nat)
    ensures |CollapseFrom(s, pend)| <= |s| + pend
    decreases |s|
  {
    if |s| > 0 {
      if s[0] == Space {
        CollapseFromNotLonger(s[1..], pend + 1);
      } else {
        CollapseFromNotLonger(s[1..], 0);
      }
    }
  }

  /** Collapsing never lengthens the string. */
  lemma CollapseNotLonger(s: seq<byte>)
    ensures |Collapse(s)| <= |s|
  {
    CollapseFromNotLonger(s, 0);
  }

  lemma {:induction false} NonSpacesConcat(a: seq<byte>, b: seq<byte>)
    ensures NonSpaces(a + b) == NonSpaces(a) + NonSpaces(b)
    decreases |a|
  {
    if |a| == 0 {
      assert a + b == b;
    } else {
      var t := a + b;
      assert t[0] == a[0] && t[1..] == a[1..] + b;
      NonSpacesConcat(a[1..], b);
      if a[0] != Space {
        assert NonSpaces(t) == [a[0]] + NonSpaces(a[1..] + b);
        assert NonSpaces(a) == [a[0]] + NonSpaces(a[1..]);
      }
    }
  }

  lemma {:induction false} NonSpacesOfSpaces(n: nat)
    ensures NonSpaces(Spaces(n)) == []
  {
    if n > 0 {
      assert Spaces(n)[1..] == Spaces(n - 1);
      NonSpacesOfSpaces(n - 1);
    }
  }

  lemma {:induction false} CollapseFromNonSpaces(s: seq<byte>, pend: nat)
    ensures NonSpaces(CollapseFrom(s, pend)) == NonSpaces(s)
    decreases |s|
  {
    if |s| == 0 {
      NonSpacesOfSpaces(pend);
    } else if s[0] == Space {
      CollapseFromNonSpaces(s[1..], pend + 1);
    } else {
      CollapseFromNonSpaces(s[1..], 0);
      NonSpacesKept(s, pend);
    }
  }

  /** The step of CollapseFromNonSpaces at a non-space byte. */
  lemma NonSpacesKept(s: seq<byte>, pend: nat)
    requires |s| > 0 && s[0] != Space && NonSpaces(CollapseFrom(s[1..], 0)) == NonSpaces(s[1..])
    ensures NonSpaces(CollapseFrom(s, pend)) == NonSpaces(s)
  {
    var rest := CollapseFrom(s[1..], 0);
    var kept := [s[0]] + rest;
    assert NonSpaces(kept) == [s[0]] + NonSpaces(rest);
    if pend > 0 {
      assert CollapseFrom(s, pend) == [Space] + kept;
      assert ([Space] + kept)[1..] == kept;
    } else {
      assert CollapseFrom(s, pend) == kept;
    }
  }

  /** Collapsing keeps every non-space byte, in the same order (hence the same multiset). */
  lemma CollapseKeepsNonSpaces(s: seq<byte>)
    ensures NonSpaces(Collapse(s)) == NonSpaces(s)
    ensures multiset(NonSpaces(Collapse(s))) == multiset(NonSpaces(s))
  {
    CollapseFromNonSpaces(s, 0);
  }

  lemma CollapsedAfterNonSpace(c: byte, r: seq<byte>)
    requires c != Space && Collapsed(r)
    ensures Collapsed([c] + r) && Collapsed([Space, c] + r)
  {
    var a := [c] + r;
    forall i | 0 < i && i + 1 < |a| && a[i] == Space && a[i + 1] != Space
      ensures a[i - 1] != Space
    {
      if i > 1 {
        assert r[i - 1] == Space && r[i] != Space;
      }
    }
    var b := [Space, c] + r;
    forall i | 0 < i && i + 1 < |b| && b[i] == Space && b[i + 1] != Space
      ensures b[i - 1] != Space
    {
      if i > 2 {
        assert r[i - 2] == Space && r[i - 1] != Space;
      }
    }
  }

  lemma {:induction false} CollapseFromCollapsed(s: seq<byte>, pend: nat)
    ensures Collapsed(CollapseFrom(s, pend))
    decreases |s|
  {
    if |s| > 0 {
      if s[0] == Space {
        CollapseFromCollapsed(s[1..], pend + 1);
      } else {
        CollapseFromCollapsed(s[1..], 0);
        CollapsedAfterNonSpace(s[0], CollapseFrom(s[1..], 0));
      }
    }
  }

  /** After collapsing, every space run that a non-space follows is a single space. */
  lemma CollapseIsCollapsed(s: seq<byte>)
    ensures Collapsed(Collapse(s))
  {
    CollapseFromCollapsed(s, 0);
  }

  /** In a collapsed string, two spaces are never followed by a non-space. */
  lemma NoLongRun(r: seq<byte>, p: nat)
    requires Collapsed(r) && 2 <= p < |r| && r[p - 1] == Space && r[p - 2] == Space
    ensures r[p] == Space
  {
  }

  lemma {:induction false} CollapseFromFixed(s: seq<byte>, pend: nat)
    requires Collapsed(Spaces(pend) + s)
    ensures CollapseFrom(s, pend) == Spaces(pend) + s
    decreases |s|
  {
    var r := Spaces(pend) + s;
    if |s| == 0 {
    } else if s[0] == Space {
      assert Spaces(pend + 1) + s[1..] == r;
      CollapseFromFixed(s[1..], pend + 1);
    } else {
      if pend >= 2 {
        NoLongRun(r, pend);
        assert false;
      }
      var t := s[1..];
      assert Collapsed(Spaces(0) + t) by {
        forall i | 0 < i && i + 1 < |t| && t[i] == Space && t[i + 1] != Space
          ensures t[i - 1] != Space
        {
          assert r[pend + 1 + i] == t[i] && r[pend + 2 + i] == t[i + 1] && r[pend + i] == t[i - 1];
        }
        assert Spaces(0) + t == t;
      }
      CollapseFromFixed(t, 0);
      assert Spaces(pend) == (if pend > 0 then [Space] else []);
    }
  }

  /** Collapsing a collapsed string changes nothing; so collapsing is idempotent. */
  lemma CollapseIdempotent(s: seq<byte>)
    ensures Collapse(Collapse(s)) == Collapse(s)
  {
    var r := Collapse(s);
    CollapseIsCollapsed(s);
    assert Spaces(0) + r == r;
    CollapseFromFixed(r, 0);
  }

  /** The buffer memmove(s + dst, s + src, count) leaves. */
  function Moved(s: seq<byte>, dst: nat, src: nat, count: nat): (r: seq<byte>)
    requires src + count <= |s|
    ensures |r| == |s|
  {
    seq(|s|, i requires 0 <= i < |s| => if dst <= i < dst + count then s[i - dst + src] else s[i])
  }

  /** memmove(a + dst, a + src, count) for dst <= src. */
  method MoveDown(a: array<byte>, dst: nat, src: nat, count: nat)
    requires dst <= src && src + count <= a.Length
    modifies a
    ensures a[..] == Moved(old(a[..]), dst, src, count)
  {
    var k := 0;
    while k < count
      invariant 0 <= k <= count
      invariant forall m :: 0 <= m < dst ==> a[m] == old(a[m])
      invariant forall i :: dst <= i < dst + k ==> a[i] == old(a[i - dst + src])
      invariant forall m :: dst + k <= m < a.Length ==> a[m] == old(a[m])
    {
      a[dst + k] := a[src + k];
      k := k + 1;
    }
    assert a[..] == Moved(old(a[..]), dst, src, count);
  }

  /** strlen(a + from). */
  method StrLen(a: array<byte>, from: nat) returns (len: nat)
    requires from < a.Length && 0 in a[from..]
    ensures from + len < a.Length && a[from + len] == 0
    ensures forall k :: from <= k < from + len ==> a[k] != 0
  {
    len := 0;
    while a[from + len] != 0
      invariant from + len < a.Length
      invariant forall k :: from <= k < from + len ==> a[k] != 0
      invariant 0 in a[from + len..]
      decreases a.Length - from - len
    {
      assert a[from + len..][0] != 0;
      assert a[from + len + 1..] == a[from + len..][1..];
      len := len + 1;
    }
  }

  /** One step of CollapseFrom, on a suffix of `s`. */
  lemma CollapseFromStep(s: seq<byte>, j: nat, pend: nat)
    requires j < |s|
    ensures s[j] == Space ==> CollapseFrom(s[j..], pend) == CollapseFrom(s[j + 1..], pend + 1)
    ensures s[j] != Space && pend == 0 ==> CollapseFrom(s[j..], pend) == [s[j]] + CollapseFrom(s[j + 1..], 0)
    ensures s[j] != Space && pend > 0 ==> CollapseFrom(s[j..], pend) == [Space, s[j]] + CollapseFrom(s[j + 1..], 0)
  {
    assert s[j..][1..] == s[j + 1..];
  }

  /** The spec side of the non-space step: the pending run becomes one space, then the byte. */
  lemma CollapseStepNonSpace(target: seq<byte>, done: seq<byte>, orig: seq<byte>, j: nat, pend: nat)
    requires j < |orig| && orig[j] != Space
    requires target == done + CollapseFrom(orig[j..], pend)
    ensures target == done + (if pend > 0 then [Space, orig[j]] else [orig[j]]) + CollapseFrom(orig[j + 1..], 0)
  {
    CollapseFromStep(orig, j, pend);
  }

  /** The bytes before index `d` form `done` followed by `pend` spaces. */
  ghost predicate DoneThenSpaces(a: seq<byte>, d: nat, done: seq<byte>, pend: nat)
  {
    |done| + pend == d <= |a| &&
    (forall k :: 0 <= k < |done| ==> a[k] == done[k]) &&
    (forall k :: |done| <= k < d ==> a[k] == Space)
  }

  /** Bytes from `d` on hold the unprocessed suffix orig[j..] and its NUL. */
  ghost predicate TailIs(a: seq<byte>, d: nat, orig: seq<byte>, j: nat)
  {
    j <= |orig| && d + |orig| - j < |a| &&
    (forall i :: d <= i < d + |orig| - j ==> a[i] == orig[i - d + j]) &&
    a[d + |orig| - j] == 0
  }

  lemma TailHead(a: seq<byte>, d: nat, orig: seq<byte>, j: nat)
    requires TailIs(a, d, orig, j) && 0 !in orig
    ensures d < |a|
    ensures a[d] == 0 <==> j == |orig|
    ensures j < |orig| ==> a[d] == orig[j]
  {
  }

  lemma TailAdvance(a: seq<byte>, d: nat, orig: seq<byte>, j: nat)
    requires TailIs(a, d, orig, j) && j < |orig|
    ensures TailIs(a, d + 1, orig, j + 1)
  {
  }

  lemma DoneAdvance(a: seq<byte>, d: nat, done: seq<byte>, pend: nat, c: byte)
    requires DoneThenSpaces(a, d, done, pend) && d < |a| && a[d] == c
    ensures c == Space ==> DoneThenSpaces(a, d + 1, done, pend + 1)
    ensures pend == 0 ==> DoneThenSpaces(a, d + 1, done + [c], 0)
  {
  }

  /**
   * The memmove step of clarion_singlespace: the unprocessed suffix at `d` moves
   * down to just after the first of the `pend` pending spaces.
   */
  method CloseGap(data: array<byte>, d: nat, pend: nat, ghost orig: seq<byte>, ghost j: nat, ghost done: seq<byte>)
    requires 0 < pend && j < |orig| && 0 !in orig
    requires TailIs(data[..], d, orig, j) && DoneThenSpaces(data[..], d, done, pend)
    modifies data
    ensures TailIs(data[..], d - pend + 1, orig, j)
    ensures DoneThenSpaces(data[..], d - pend + 1, done + [Space], 0)
    ensures forall i :: d + |orig| - j < i < data.Length ==> data[i] == old(data[i])
  {
    var n := |orig|;
    var p := d - pend;
    var rest := StrLen(data, d);
    assert rest == n - j;
    ghost var before := data[..];
    MoveDown(data, p + 1, d, rest + 1);
    GapClosed(before, data[..], d, pend, orig, j, done);
  }

  /** What the memmove of CloseGap leaves, stated on the buffer before and after it. */
  lemma GapClosed(before: seq<byte>, after: seq<byte>, d: nat, pend: nat, orig: seq<byte>, j: nat, done: seq<byte>)
    requires 0 < pend
    requires TailIs(before, d, orig, j) && DoneThenSpaces(before, d, done, pend)
    requires after == Moved(before, d - pend + 1, d, |orig| - j + 1)
    ensures TailIs(after, d - pend + 1, orig, j)
    ensures DoneThenSpaces(after, d - pend + 1, done + [Space], 0)
    ensures forall i :: d + |orig| - j < i < |after| ==> after[i] == before[i]
  {
    var q := d - pend + 1;
    forall i | q <= i < q + |orig| - j
      ensures after[i] == orig[i - q + j]
    {
      assert after[i] == before[i - q + d];
    }
    assert after[q + |orig| - j] == before[q + |orig| - j - q + d];
  }

  /** A buffer holding a NUL holds its C string, then that NUL. */
  lemma CStrTail(s: seq<byte>)
    requires 0 in s
    ensures TailIs(s, 0, CStr(s), 0) && 0 !in CStr(s)
  {
  }

  /**
   * clarion_singlespace(data): collapses, in place, each run of spaces that a
   * non-space follows into one space; a run at the end is kept. The buffer must
   * hold a NUL. Bytes after the original NUL are untouched.
   */
  method SingleSpace(data: array<byte>)
    requires 0 in data[..]
    modifies data
    ensures CStr(data[..]) == Collapse(CStr(old(data[..])))
    ensures forall i :: |CStr(old(data[..]))| < i < data.Length ==> data[i] == old(data[i])
  {
    ghost var orig := CStr(data[..]);
    CStrTail(data[..]);
    var d := CollapseInPlace(data, orig);
    CStrAt(data[..], d);
  }

  /**
   * One byte of clarion_singlespace's walk: a space extends the pending run; any
   * other byte closes a pending run down to one space and is kept.
   */
  method CollapseStep(data: array<byte>, d: nat, pend: nat, ghost orig: seq<byte>, ghost j: nat,
                      ghost done: seq<byte>, ghost target: seq<byte>)
    returns (d': nat, pend': nat, ghost done': seq<byte>)
    requires d <= j < |orig| && 0 !in orig
    requires TailIs(data[..], d, orig, j) && DoneThenSpaces(data[..], d, done, pend) && 0 !in done
    requires target == done + CollapseFrom(orig[j..], pend)
    modifies data
    ensures d' <= j + 1
    ensures TailIs(data[..], d', orig, j + 1) && DoneThenSpaces(data[..], d', done', pend') && 0 !in done'
    ensures target == done' + CollapseFrom(orig[j + 1..], pend')
    ensures forall i :: |orig| < i < data.Length ==> data[i] == old(data[i])
  {
    TailHead(data[..], d, orig, j);
    CollapseFromStep(orig, j, pend);
    TailAdvance(data[..], d, orig, j);
    if data[d] == Space {
      DoneAdvance(data[..], d, done, pend, Space);
      return d + 1, pend + 1, done;
    }
    CollapseStepNonSpace(target, done, orig, j, pend);
    ghost var emitted: seq<byte> := if pend > 0 then [Space, orig[j]] else [orig[j]];
    d' := d;
    if pend > 0 {
      CloseGap(data, d, pend, orig, j, done);
      d' := d - pend + 1;
      TailAdvance(data[..], d', orig, j);
      DoneAdvance(data[..], d', done + [Space], 0, orig[j]);
    } else {
      DoneAdvance(data[..], d, done, 0, orig[j]);
    }
    assert done + emitted == (if pend > 0 then done + [Space] else done) + [orig[j]];
    return d' + 1, 0, done + emitted;
  }

  /** The walk of clarion_singlespace over the C string `orig` held at the start of `data`. */
  method CollapseInPlace(data: array<byte>, ghost orig: seq<byte>) returns (d: nat)
    requires TailIs(data[..], 0, orig, 0) && 0 !in orig
    modifies data
    ensures d < data.Length && data[d] == 0 && data[..d] == Collapse(orig)
    ensures forall k :: 0 <= k < d ==> data[k] != 0
    ensures forall i :: |orig| < i < data.Length ==> data[i] == old(data[i])
  {
    ghost var n := |orig|;
    ghost var target := Collapse(orig);
    ghost var j := 0;
    ghost var done: seq<byte> := [];
    d := 0;
    var pend := 0;  // spaces seen since the pointer `p` of the source was set (p == d - pend)
    while data[d] != 0
      invariant 0 <= d <= j <= n
      invariant TailIs(data[..], d, orig, j)
      invariant DoneThenSpaces(data[..], d, done, pend)
      invariant 0 !in done
      invariant target == done + CollapseFrom(orig[j..], pend)
      invariant forall i :: n < i < data.Length ==> data[i] == old(data[i])
      decreases n - j
    {
      TailHead(data[..], d, orig, j);
      d, pend, done := CollapseStep(data, d, pend, orig, j, done, target);
      j := j + 1;
    }
    TailHead(data[..], d, orig, j);
    assert orig[j..] == [];
    assert data[..d] == done + Spaces(pend);
  }

  // ---------------------------------------------------------------------------
  // cl_fread (big-endian host): byte swap of every element read

  function Rev(x: seq<byte>): (r: seq<byte>)
    ensures |r| == |x|
  {
    seq(|x|, i requires 0 <= i < |x| => x[|x| - 1 - i])
  }

  predicate SwappedSize(size: nat)
  {
    size == 2 || size == 4 || size == 8
  }

  /** The buffer after cl_fread swapped `count` elements of `size` bytes. */
  function Swapped(s: seq<byte>, size: nat, count: nat): (r: seq<byte>)
    ensures |r| == |s|
    decreases count
  {
    if count == 0 || !SwappedSize(size) || |s| < size then s
    else Rev(s[..size]) + Swapped(s[size..], size, count - 1)
  }

  /** Swapping twice restores the buffer: each swap is an involution. */
  lemma {:induction false} SwappedTwice(s: seq<byte>, size: nat, count: nat)
    ensures Swapped(Swapped(s, size, count), size, count) == s
    decreases count
  {
    if count > 0 && SwappedSize(size) && |s| >= size {
      var t := Swapped(s, size, count);
      SwappedTwice(s[size..], size, count - 1);
      assert t[..size] == Rev(s[..size]);
      assert t[size..] == Swapped(s[size..], size, count - 1);
      assert Rev(Rev(s[..size])) == s[..size];
    }
  }

  lemma {:induction false} SwappedAppend(x: seq<byte>, y: seq<byte>, size: nat, count: nat)
    requires |x| == size * count && SwappedSize(size)
    ensures Swapped(x + y, size, count) == Swapped(x, size, count) + y
    decreases count
  {
    if count == 0 {
      assert x == [];
      assert x + y == y;
    } else {
      MulPred(size, count);
      assert (x + y)[..size] == x[..size];
      assert (x + y)[size..] == x[size..] + y;
      SwappedAppend(x[size..], y, size, count - 1);
    }
  }

  lemma {:induction false} SwappedSnoc(x: seq<byte>, y: seq<byte>, size: nat, count: nat)
    requires |x| == size * count && |y| == size && SwappedSize(size)
    ensures Swapped(x + y, size, count + 1) == Swapped(x, size, count) + Rev(y)
    decreases count
  {
    if count == 0 {
      assert x == [];
      assert x + y == y;
      assert (x + y)[size..] == [];
    } else {
      assert (x + y)[..size] == x[..size];
      assert (x + y)[size..] == x[size..] + y;
      SwappedSnoc(x[size..], y, size, count - 1);
    }
  }

  /** Reverses a[b..b+size) in place (bswap_16/32/64). */
  method ReverseChunk(a: array<byte>, b: nat, size: nat)
    requires b + size <= a.Length
    modifies a
    ensures forall i :: 0 <= i < b ==> a[i] == old(a[i])
    ensures forall i :: b <= i < b + size ==> a[i] == old(a[2 * b + size - 1 - i])
    ensures forall i :: b + size <= i < a.Length ==> a[i] == old(a[i])
  {
    var k := 0;
    while k < size / 2
      invariant 0 <= k <= size / 2
      invariant forall i :: 0 <= i < b ==> a[i] == old(a[i])
      invariant forall i :: b + size <= i < a.Length ==> a[i] == old(a[i])
      invariant forall i :: b <= i < b + k ==> a[i] == old(a[2 * b + size - 1 - i])
      invariant forall i :: b + size - k <= i < b + size ==> a[i] == old(a[2 * b + size - 1 - i])
      invariant forall i :: b + k <= i < b + size - k ==> a[i] == old(a[i])
    {
      a[b + k], a[b + size - 1 - k] := a[b + size - 1 - k], a[b + k];
      k := k + 1;
    }
  }

  /** The index form of ReverseChunk's effect, as sequences. */
  lemma ChunkReversed(before: seq<byte>, after: seq<byte>, b: nat, size: nat)
    requires |after| == |before| && b + size <= |before|
    requires forall i :: 0 <= i < b ==> after[i] == before[i]
    requires forall i :: b <= i < b + size ==> after[i] == before[2 * b + size - 1 - i]
    requires forall i :: b + size <= i < |after| ==> after[i] == before[i]
    ensures after[..b] == before[..b]
    ensures after[b..b + size] == Rev(before[b..b + size])
    ensures after[b + size..] == before[b + size..]
  {
  }

  /** One element more of the buffer is swapped after ReverseChunk. */
  lemma SwapStep(s: seq<byte>, before: seq<byte>, after: seq<byte>, b: nat, size: nat, e: nat)
    requires SwappedSize(size) && b == e * size && b + size <= |s| == |before| == |after|
    requires before[..b] == Swapped(s[..b], size, e) && before[b..] == s[b..]
    requires forall i :: 0 <= i < b ==> after[i] == before[i]
    requires forall i :: b <= i < b + size ==> after[i] == before[2 * b + size - 1 - i]
    requires forall i :: b + size <= i < |after| ==> after[i] == before[i]
    ensures after[..b + size] == Swapped(s[..b + size], size, e + 1)
    ensures after[b + size..] == s[b + size..]
  {
    ChunkReversed(before, after, b, size);
    assert before[b..b + size] == s[b..b + size] by {
      assert before[b..b + size] == before[b..][..size];
    }
    SwapStepPrefix(s, after, b, size, e);
    assert before[b + size..] == s[b + size..] by {
      assert before[b + size..] == before[b..][size..];
    }
  }

  /** The swapped prefix grows by one reversed element. */
  lemma SwapStepPrefix(s: seq<byte>, after: seq<byte>, b: nat, size: nat, e: nat)
    requires SwappedSize(size) && b == e * size && b + size <= |s| == |after|
    requires after[..b] == Swapped(s[..b], size, e) && after[b..b + size] == Rev(s[b..b + size])
    ensures after[..b + size] == Swapped(s[..b + size], size, e + 1)
  {
    SwappedSnoc(s[..b], s[b..b + size], size, e);
    calc {
      after[..b + size];
      { assert after[..b + size] == after[..b] + after[b..b + size]; }
      after[..b] + after[b..b + size];
      Swapped(s[..b] + s[b..b + size], size, e + 1);
      { assert s[..b] + s[b..b + size] == s[..b + size]; }
      Swapped(s[..b + size], size, e + 1);
    }
  }

  lemma MulStep(e: nat, count: nat, size: nat)
    requires e < count
    ensures (e + 1) * size == e * size + size
    ensures (e + 1) * size <= count * size
  {
  }

  /**
   * The swap cl_fread applies to the `count` elements it read: elements of 2, 4 or
   * 8 bytes are reversed in place, any other size is left untouched.
   */
  method SwapElements(a: array<byte>, size: nat, count: nat)
    requires size * count <= a.Length
    modifies a
    ensures a[..] == Swapped(old(a[..]), size, count)
  {
    if !SwappedSize(size) {
      return;
    }
    ghost var s := a[..];
    var e := 0;
    var b := 0;
    while e < count
      invariant 0 <= e <= count && b == e * size
      invariant a[..b] == Swapped(s[..b], size, e)
      invariant a[b..] == s[b..]
    {
      MulStep(e, count, size);
      ghost var before := a[..];
      ReverseChunk(a, b, size);
      SwapStep(s, before, a[..], b, size, e);
      b := b + size;
      e := e + 1;
    }
    SwapDone(s, a[..], b, size, count);
  }

  lemma SwapDone(s: seq<byte>, t: seq<byte>, b: nat, size: nat, count: nat)
    requires SwappedSize(size) && b == size * count && b <= |s| == |t|
    requires t[..b] == Swapped(s[..b], size, count) && t[b..] == s[b..]
    ensures t == Swapped(s, size, count)
  {
    SwappedAppend(s[..b], s[b..], size, count);
    assert s == s[..b] + s[b..];
    assert t == t[..b] + t[b..];
  }

  /** After the swap, a 2-byte element read big-endian gives its little-endian value. */
  lemma {:induction false} SwapGivesLittleEndian16(s: seq<byte>, count: nat, j: nat)
    requires 2 * count <= |s| && j < count
    ensures var t := Swapped(s, 2, count); 256 * t[2 * j] as nat + t[2 * j + 1] as nat == U16(s, 2 * j)
    decreases j
  {
    if j > 0 {
      SwapGivesLittleEndian16(s[2..], count - 1, j - 1);
    }
  }

  /** After the swap, a 4-byte element read big-endian gives its little-endian value. */
  lemma {:induction false} SwapGivesLittleEndian32(s: seq<byte>, count: nat, j: nat)
    requires 4 * count <= |s| && j < count
    ensures var t := Swapped(s, 4, count);
      16777216 * t[4 * j] as nat + 65536 * t[4 * j + 1] as nat + 256 * t[4 * j + 2] as nat + t[4 * j + 3] as nat
      == U32(s, 4 * j)
    decreases j
  {
    if j > 0 {
      SwapGivesLittleEndian32(s[4..], count - 1, j - 1);
    }
  }
}
