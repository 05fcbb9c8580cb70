/** The circular delay line: block writes and reads that advance an offset by a fixed
    increment and wrap it once. The six typed versions of the library share this code. */
module CircularBuffer {
  import opened Arith
  import opened FixedPoint

  /** The buffer's slots and the offset of the next access. */
  datatype Ring<T> = Ring(data: seq<T>, offset: int) {
    predicate Valid() { 0 <= offset < |data| }
  }

  /** `offset += inc; if (offset >= L) offset -= L;` */
  function Advance(offset: int, inc: int, L: int): int {
    if offset + inc >= L then offset + inc - L else offset + inc
  }

  /** One subtraction brings every offset back into the buffer exactly for increments from
      0 to L; a negative increment is not corrected although the code's comment names it. */
  lemma AdvanceStaysInExactlyWhen(inc: int, L: int)
    requires L > 0
    ensures (forall o :: 0 <= o < L ==> 0 <= Advance(o, inc, L) < L) <==> 0 <= inc <= L
  {
    if inc < 0 {
      assert Advance(0, inc, L) < 0;
    } else if inc > L {
      assert Advance(L - 1, inc, L) >= L;
    }
  }

  /** The ring after writing xs, one sample at a time. */
  function WriteAll<T>(r: Ring<T>, inc: int, xs: seq<T>): (w: Ring<T>)
    requires r.Valid() && 0 <= inc <= |r.data|
    ensures w.Valid() && |w.data| == |r.data|
  {
    if xs == [] then r
    else
      var p := WriteAll(r, inc, xs[..|xs| - 1]);
      Ring(p.data[p.offset := xs[|xs| - 1]], Advance(p.offset, inc, |r.data|))
  }

  /** Where `src` points after k steps. */
  function SrcIndex(start: int, step: int, k: nat): int { start + k * step }

  lemma SrcAdvances(start: int, step: int, k: nat)
    ensures SrcIndex(start, step, k) + step == SrcIndex(start, step, k + 1)
  {
  }

  /** The first n samples found from `start` in steps of `step`. */
  function Strided<T>(s: seq<T>, start: int, step: int, n: nat): (xs: seq<T>)
    requires forall k: nat :: k < n ==> 0 <= SrcIndex(start, step, k) < |s|
    ensures |xs| == n && forall k: nat :: k < n ==> xs[k] == s[SrcIndex(start, step, k)]
  {
    seq(n, k requires 0 <= k < n => s[SrcIndex(start, step, k)])
  }

  method CircularWrite<T>(circBuffer: array<T>, L: int, writeOffset: Uint16, bufferInc: int,
                          src: array<T>, start: int, srcInc: int, blockSize: Uint32)
    returns (newOffset: Uint16)
    requires circBuffer.Length == L && L <= 0x1_0000 && writeOffset < L
    requires 0 <= bufferInc <= L && src != circBuffer
    requires forall k: nat :: k < blockSize ==> 0 <= SrcIndex(start, srcInc, k) < src.Length
    modifies circBuffer
    ensures Ring(circBuffer[..], newOffset)
         == WriteAll(Ring(old(circBuffer[..]), writeOffset), bufferInc, Strided(src[..], start, srcInc, blockSize))
  {
    hide WriteAll, SrcIndex;
    ghost var r := Ring(circBuffer[..], writeOffset);
    ghost var xs := Strided(src[..], start, srcInc, blockSize);
    var wOffset: int := writeOffset;
    var p := start;
    var i := blockSize;
    SrcStart(start, srcInc);
    WriteNone(r, bufferInc, xs);
    while i > 0
      invariant 0 <= i <= blockSize && p == SrcIndex(start, srcInc, blockSize - i)
      invariant src[..] == old(src[..])
      invariant Ring(circBuffer[..], wOffset) == WriteAll(r, bufferInc, xs[..blockSize - i])
    {
      ghost var k := blockSize - i;
      SrcAdvances(start, srcInc, k);
      WriteOne(r, bufferInc, xs, k);
      ghost var before := circBuffer[..];
      circBuffer[wOffset] := src[p];
      assert circBuffer[..] == before[wOffset := xs[k]];
      p := p + srcInc;
      wOffset := wOffset + bufferInc;
      if wOffset >= L {
        wOffset := wOffset - L;
      }
      i := i - 1;
    }
    assert xs[..blockSize] == xs;
    newOffset := wOffset % 0x1_0000;
  }

  lemma SrcStart(start: int, step: int)
    ensures SrcIndex(start, step, 0) == start
  {
  }

  lemma WriteNone<T>(r: Ring<T>, inc: int, xs: seq<T>)
    requires r.Valid() && 0 <= inc <= |r.data|
    ensures WriteAll(r, inc, xs[..0]) == r
  {
  }

  lemma WriteOne<T>(r: Ring<T>, inc: int, xs: seq<T>, k: nat)
    requires r.Valid() && 0 <= inc <= |r.data| && k < |xs|
    ensures var p := WriteAll(r, inc, xs[..k]);
            WriteAll(r, inc, xs[..k + 1])
              == Ring(p.data[p.offset := xs[k]], Advance(p.offset, inc, |r.data|))
  {
    assert xs[..k + 1][..k] == xs[..k];
  }

  // ----- reading -----

  /** The destination, the read offset and the destination cursor. */
  datatype Cursor<T> = Cursor(dst: seq<T>, offset: int, pos: int)

  /** The cursor goes back to the base when it reaches the end, and only then. */
  function NextPos(pos: int, dstInc: int, base: int, length: int): int {
    if pos + dstInc == base + length then base else pos + dstInc
  }

  function PosAfter(pos: int, dstInc: int, base: int, length: int, n: nat): int {
    if n == 0 then pos else NextPos(PosAfter(pos, dstInc, base, length, n - 1), dstInc, base, length)
  }

  function ReadAll<T>(data: seq<T>, inc: int, c: Cursor<T>, dstInc: int, base: int, length: int, n: nat): (r: Cursor<T>)
    requires 0 <= c.offset < |data| && 0 <= inc <= |data|
    requires forall k: nat :: k < n ==> 0 <= PosAfter(c.pos, dstInc, base, length, k) < |c.dst|
    ensures 0 <= r.offset < |data| && |r.dst| == |c.dst|
    ensures r.pos == PosAfter(c.pos, dstInc, base, length, n)
  {
    if n == 0 then c
    else
      var p := ReadAll(data, inc, c, dstInc, base, length, n - 1);
      Cursor(p.dst[p.pos := data[p.offset]], Advance(p.offset, inc, |data|), NextPos(p.pos, dstInc, base, length))
  }

  method CircularRead<T>(circBuffer: array<T>, L: int, readOffset: int, bufferInc: int,
                         dst: array<T>, start: int, base: int, length: int, dstInc: int, blockSize: Uint32)
    returns (newOffset: int)
    requires circBuffer.Length == L && L <= 0x7FFF_FFFF && 0 <= readOffset < L
    requires L - 1 + bufferInc <= 0x7FFF_FFFF
    requires 0 <= bufferInc <= L && dst != circBuffer
    requires forall k: nat :: k < blockSize ==> 0 <= PosAfter(start, dstInc, base, length, k) < dst.Length
    modifies dst
    ensures var from := Cursor(old(dst[..]), readOffset, start);
            var c := ReadAll(circBuffer[..], bufferInc, from, dstInc, base, length, blockSize);
            dst[..] == c.dst && newOffset == c.offset
  {
    ghost var data, c := circBuffer[..], Cursor(dst[..], readOffset, start);
    var rOffset, p := readOffset, start;
    var dstEnd := base + length;
    var i := blockSize;
    while i > 0
      invariant 0 <= i <= blockSize && circBuffer[..] == data
      invariant Cursor(dst[..], rOffset, p) == ReadAll(data, bufferInc, c, dstInc, base, length, blockSize - i)
    {
      ghost var before := dst[..];
      assert p == PosAfter(start, dstInc, base, length, blockSize - i);
      dst[p] := circBuffer[rOffset];
      assert dst[..] == before[p := data[rOffset]];
      p := p + dstInc;
      if p == dstEnd {
        p := base;
      }
      rOffset := rOffset + bufferInc;
      if rOffset >= L {
        rOffset := rOffset - L;
      }
      i := i - 1;
    }
    newOffset := rOffset;
  }

  // ----- where the k-th access lands -----

  /** Slot of the k-th access from offset o. */
  function Slot(o: int, inc: int, k: nat, L: nat): (s: int)
    requires L > 0
    ensures 0 <= s < L
  {
    (o + k * inc) % L
  }

  /** The single conditional subtraction keeps the offset reduced modulo L. */
  lemma AdvanceIsModular(o: int, inc: int, k: nat, L: nat, cur: int)
    requires 0 < L && 0 <= inc <= L && cur == Slot(o, inc, k, L)
    ensures Advance(cur, inc, L) == Slot(o, inc, k + 1, L)
  {
    var q := (o + k * inc) / L;
    assert o + (k + 1) * inc == o + k * inc + inc;
    assert o + k * inc == L * q + cur;
    if cur + inc >= L {
      DivUnique(o + (k + 1) * inc, L, q + 1, cur + inc - L);
    } else {
      DivUnique(o + (k + 1) * inc, L, q, cur + inc);
    }
  }

  lemma SlotZero(o: int, inc: int, L: nat)
    requires 0 <= o < L
    ensures Slot(o, inc, 0, L) == o
  {
    DivUnique(o, L, 0, o);
  }

  lemma {:induction false} OffsetAfterWrite<T>(r: Ring<T>, inc: int, xs: seq<T>)
    requires r.Valid() && 0 <= inc <= |r.data|
    ensures WriteAll(r, inc, xs).offset == Slot(r.offset, inc, |xs|, |r.data|)
  {
    if xs == [] {
      SlotZero(r.offset, inc, |r.data|);
    } else {
      var prefix := xs[..|xs| - 1];
      OffsetAfterWrite(r, inc, prefix);
      AdvanceIsModular(r.offset, inc, |prefix|, |r.data|, WriteAll(r, inc, prefix).offset);
    }
  }

  lemma {:induction false} OffsetAfterRead<T>(
      data: seq<T>, inc: int, c: Cursor<T>, dstInc: int, base: int, length: int, n: nat)
    requires 0 <= c.offset < |data| && 0 <= inc <= |data|
    requires forall k: nat :: k < n ==> 0 <= PosAfter(c.pos, dstInc, base, length, k) < |c.dst|
    ensures ReadAll(data, inc, c, dstInc, base, length, n).offset == Slot(c.offset, inc, n, |data|)
  {
    if n == 0 {
      SlotZero(c.offset, inc, |data|);
    } else {
      OffsetAfterRead(data, inc, c, dstInc, base, length, n - 1);
      var p := ReadAll(data, inc, c, dstInc, base, length, n - 1);
      AdvanceIsModular(c.offset, inc, n - 1, |data|, p.offset);
    }
  }

  /** A contiguous read into [base, base + length): sample k of the read is the slot of
      the k-th access, and nothing else in the destination changes. */
  lemma {:induction false} ReadContiguous<T>(data: seq<T>, inc: int, c: Cursor<T>, length: nat, n: nat)
    requires 0 <= c.offset < |data| && 0 <= inc <= |data|
    requires n <= length && 0 <= c.pos && c.pos + length <= |c.dst|
    ensures forall k: nat :: k < n ==> PosAfter(c.pos, 1, c.pos, length, k) == c.pos + k
    ensures var r := ReadAll(data, inc, c, 1, c.pos, length, n);
            forall k: nat :: k < |c.dst| ==>
              r.dst[k] == if c.pos <= k < c.pos + n then data[Slot(c.offset, inc, k - c.pos, |data|)] else c.dst[k]
  {
    if n > 0 {
      ReadContiguous(data, inc, c, length, n - 1);
      if n > 1 {
        assert PosAfter(c.pos, 1, c.pos, length, n - 2) == c.pos + (n - 2);
      }
      OffsetAfterRead(data, inc, c, 1, c.pos, length, n - 1);
    }
  }

  /** Where the destination cursor is after k steps from the base. It comes back to the base
      only when the step divides the length, because only the exact end is recognised. */
  lemma {:induction false} CursorAfter(dstInc: nat, base: int, length: nat, k: nat)
    requires dstInc > 0 && length > 0
    ensures PosAfter(base, dstInc, base, length, k) ==
      base + if length % dstInc == 0 then (k * dstInc) % length else k * dstInc
  {
    if k > 0 {
      CursorAfter(dstInc, base, length, k - 1);
      assert k * dstInc == (k - 1) * dstInc + dstInc;
      if length % dstInc == 0 {
        CursorWraps(dstInc, length, k - 1);
      } else if k * dstInc == length {
        DivUnique(length, dstInc, k, 0);
      }
    } else {
      DivUnique(0, length, 0, 0);
    }
  }

  lemma CursorWraps(d: nat, n: nat, k: nat)
    requires d > 0 && n > 0 && n % d == 0
    ensures ((k + 1) * d) % n == if (k * d) % n + d == n then 0 else (k * d) % n + d
  {
    var m, q, r := n / d, (k * d) / n, (k * d) % n;
    assert n == m * d && k * d == q * n + r;
    assert r == (k - q * m) * d by { assert q * n == (q * m) * d; }
    var j := k - q * m;
    if j >= m { MulLe(m, j, d); }
    MulLe(j + 1, m, d);
    assert (k + 1) * d == q * n + (r + d);
    if r + d == n { DivUnique((k + 1) * d, n, q + 1, 0); } else { DivUnique((k + 1) * d, n, q, r + d); }
  }

  /** So the destination is never overrun, however long the read, exactly when the step
      divides the length. */
  lemma CursorStaysExactlyWhen(dstInc: nat, base: int, length: nat)
    requires dstInc > 0 && length > 0
    ensures (forall k: nat :: base <= PosAfter(base, dstInc, base, length, k) < base + length) <==>
      length % dstInc == 0
  {
    if length % dstInc == 0 {
      forall k: nat ensures base <= PosAfter(base, dstInc, base, length, k) < base + length {
        CursorAfter(dstInc, base, length, k);
      }
    } else {
      CursorAfter(dstInc, base, length, length);
      MulLe(1, dstInc, length);
    }
  }

  /** The last of n accesses, counted from 0, that goes to position j of the destination. */
  function LastTo(j: nat, length: nat, n: nat): (t: int)
    requires j < length && j < n
    ensures 0 <= t < n && t % length == j && n - t <= length
  {
    LastAccess(j, length, n);
    n - 1 - (n - 1 - j) % length
  }

  lemma LastAccess(j: nat, length: nat, n: nat)
    requires j < length && j < n
    ensures var t := n - 1 - (n - 1 - j) % length; 0 <= t < n && t % length == j && n - t <= length
  {
    var q := (n - 1 - j) / length;
    assert n - 1 - (n - 1 - j) % length == j + q * length;
    MulLe(0, q, length);
    DivUnique(j + q * length, length, q, j);
  }

  lemma SlotsDiffer(a: int, b: int, L: nat)
    requires L > 0 && a < b < a + L
    ensures a % L != b % L
  {
    var q := a / L;
    if a % L == b % L {
      var k := b / L - q;
      assert b - a == k * L;
      if k >= 1 { MulLe(1, k, L); } else { MulLe(k, 0, L); }
      assert false;
    }
  }

  lemma LastUnique(j: nat, length: nat, n: nat, t: nat)
    requires j < length && j < n && t < n && t % length == j && n - t <= length
    ensures LastTo(j, length, n) == t
  {
    hide LastTo;
    var u := LastTo(j, length, n);
    if u < t { SlotsDiffer(u, t, length); }
    if t < u { SlotsDiffer(t, u, length); }
  }

  lemma LastToNext(j: nat, length: nat, n: nat)
    requires j < length && j < n
    ensures (n - 1) % length != j ==> j < n - 1
    ensures LastTo(j, length, n) == if (n - 1) % length == j then n - 1 else LastTo(j, length, n - 1)
  {
    hide LastTo;
    if (n - 1) % length == j {
      LastUnique(j, length, n, n - 1);
    } else {
      if j == n - 1 { DivUnique(n - 1, length, 0, n - 1); }
      var t := LastTo(j, length, n - 1);
      if n - 1 - t == length { DivUnique(n - 1, length, t / length + 1, j); }
      LastUnique(j, length, n, t);
    }
  }

  lemma CursorInside(base: int, length: nat)
    requires length > 0
    ensures forall k: nat :: base <= PosAfter(base, 1, base, length, k) < base + length
  {
    forall k: nat ensures base <= PosAfter(base, 1, base, length, k) < base + length {
      CursorAfter(1, base, length, k);
    }
  }

  /** A read of any number of samples with step 1: position j of the destination holds the
      last sample that went there, and nothing outside it changes. */
  lemma {:induction false} ReadWraps<T>(data: seq<T>, inc: int, c: Cursor<T>, length: nat, n: nat, k: nat)
    requires 0 <= c.offset < |data| && 0 <= inc <= |data|
    requires 0 < length && 0 <= c.pos && c.pos + length <= |c.dst| && k < |c.dst|
    ensures forall i: nat :: i < n ==> 0 <= PosAfter(c.pos, 1, c.pos, length, i) < |c.dst|
    ensures ReadAll(data, inc, c, 1, c.pos, length, n).dst[k] ==
      if c.pos <= k < c.pos + length && k - c.pos < n
      then data[Slot(c.offset, inc, LastTo(k - c.pos, length, n), |data|)] else c.dst[k]
  {
    hide Slot, LastTo, PosAfter, NextPos, Advance;
    CursorInside(c.pos, length);
    if n > 0 {
      ReadWraps(data, inc, c, length, n - 1, k);
      OffsetAfterRead(data, inc, c, 1, c.pos, length, n - 1);
      CursorAfter(1, c.pos, length, n - 1);
      if c.pos <= k < c.pos + length && k - c.pos < n {
        LastToNext(k - c.pos, length, n);
      } else if k == c.pos + (n - 1) % length {
        RemainderAtMost(n - 1, length);
      }
    }
  }

  lemma RemainderAtMost(n: nat, m: nat)
    requires m > 0
    ensures 0 <= n % m <= n && n % m < m
  {
  }

  // ----- writes compose -----

  lemma {:induction false} WritesCompose<T>(r: Ring<T>, inc: int, xs: seq<T>, ys: seq<T>)
    requires r.Valid() && 0 <= inc <= |r.data|
    ensures WriteAll(r, inc, xs + ys) == WriteAll(WriteAll(r, inc, xs), inc, ys)
  {
    if ys == [] {
      assert xs + ys == xs;
    } else {
      var prefix := ys[..|ys| - 1];
      WritesCompose(r, inc, xs, prefix);
      assert (xs + ys)[..|xs + ys| - 1] == xs + prefix;
    }
  }

  /** A sequence of block writes. */
  function WriteBlocks<T>(r: Ring<T>, inc: int, blocks: seq<seq<T>>): (w: Ring<T>)
    requires r.Valid() && 0 <= inc <= |r.data|
    ensures w.Valid() && |w.data| == |r.data|
  {
    if blocks == [] then r
    else WriteAll(WriteBlocks(r, inc, blocks[..|blocks| - 1]), inc, blocks[|blocks| - 1])
  }

  function Stream<T>(blocks: seq<seq<T>>): seq<T> {
    if blocks == [] then [] else Stream(blocks[..|blocks| - 1]) + blocks[|blocks| - 1]
  }

  /** Block boundaries leave no trace. */
  lemma {:induction false} BlocksAreOneStream<T>(r: Ring<T>, inc: int, blocks: seq<seq<T>>)
    requires r.Valid() && 0 <= inc <= |r.data|
    ensures WriteBlocks(r, inc, blocks) == WriteAll(r, inc, Stream(blocks))
  {
    if blocks != [] {
      var prefix := blocks[..|blocks| - 1];
      BlocksAreOneStream(r, inc, prefix);
      WritesCompose(r, inc, Stream(prefix), blocks[|blocks| - 1]);
    }
  }

  // ----- the buffer as history -----

  /** Sample t of the stream, while it is among the last L, sits at (offset + t) mod L;
      slots the stream has not reached keep what they held. */
  lemma {:induction false} HistorySlot<T>(r: Ring<T>, xs: seq<T>, t: nat)
    requires r.Valid() && |xs| - |r.data| <= t && (t < |xs| || t < |r.data|)
    ensures WriteAll(r, 1, xs).data[Slot(r.offset, 1, t, |r.data|)]
         == if t < |xs| then xs[t] else r.data[Slot(r.offset, 1, t, |r.data|)]
  {
    if xs != [] {
      var prefix, last := xs[..|xs| - 1], |xs| - 1;
      OffsetAfterWrite(r, 1, prefix);
      if t != last {
        HistorySlot(r, prefix, t);
        if t < last { SlotsDiffer(r.offset + t, r.offset + last, |r.data|); }
        else { SlotsDiffer(r.offset + last, r.offset + t, |r.data|); }
      }
    }
  }

  function Min(a: int, b: int): int { if a < b then a else b }

  /** After any sequence of block writes with increment 1, whatever the block sizes, the
      buffer is the history of the stream: the newest min(T, L) samples, in order. */
  lemma BufferIsHistory<T>(r: Ring<T>, blocks: seq<seq<T>>, t: nat)
    requires r.Valid()
    requires var T := |Stream(blocks)|; T - Min(T, |r.data|) <= t < T
    ensures WriteBlocks(r, 1, blocks).data[Slot(r.offset, 1, t, |r.data|)] == Stream(blocks)[t]
    ensures WriteBlocks(r, 1, blocks).offset == Slot(r.offset, 1, |Stream(blocks)|, |r.data|)
  {
    BlocksAreOneStream(r, 1, blocks);
    HistorySlot(r, Stream(blocks), t);
    OffsetAfterWrite(r, 1, Stream(blocks));
  }

  /** The offset k slots before `offset`. */
  function Back(offset: int, k: nat, L: nat): (o: int)
    requires L > 0
    ensures 0 <= o < L
  {
    (offset - k) % L
  }

  lemma BackThenForward(o: int, T: nat, b: nat, k: nat, L: nat)
    requires L > 0 && b <= T
    ensures Slot(Back(Slot(o, 1, T, L), b, L), 1, k, L) == Slot(o, 1, T - b + k, L)
  {
    var q1 := (o + T) / L;
    var s := Slot(o, 1, T, L);
    var q2 := (s - b) / L;
    var m := Back(s, b, L) + k;
    var q3 := m / L;
    assert o + T - b + k == L * q1 + L * q2 + L * q3 + m % L;
    assert L * q1 + L * q2 + L * q3 == (q1 + q2 + q3) * L;
    DivUnique(o + T - b + k, L, q1 + q2 + q3, m % L);
  }

  lemma SpliceAt<T>(dst: seq<T>, pos: nat, mid: seq<T>, k: nat)
    requires pos + |mid| <= |dst| && k < |dst|
    ensures (dst[..pos] + mid + dst[pos + |mid|..])[k]
         == if pos <= k < pos + |mid| then mid[k - pos] else dst[k]
  {
  }

  /** A read of n samples that starts d + n samples back returns exactly that window of
      the stream, as long as the window is within the last min(T, L) samples. */
  lemma DelayedWindow<T>(r: Ring<T>, blocks: seq<seq<T>>, d: nat, n: nat, dst: seq<T>, pos: nat, length: nat)
    requires r.Valid() && n <= length && pos + length <= |dst|
    requires var T := |Stream(blocks)|; d + n <= Min(T, |r.data|)
    ensures var w, T := WriteBlocks(r, 1, blocks), |Stream(blocks)|;
            var c := Cursor(dst, Back(w.offset, d + n, |r.data|), pos);
            && (forall k: nat :: k < n ==> PosAfter(pos, 1, pos, length, k) == pos + k)
            && ReadAll(w.data, 1, c, 1, pos, length, n).dst
                 == dst[..pos] + Stream(blocks)[T - d - n..T - d] + dst[pos + n..]
  {
    hide Slot, Back;
    var xs, L := Stream(blocks), |r.data|;
    var w, from := WriteBlocks(r, 1, blocks), |xs| - d - n;
    BlocksAreOneStream(r, 1, blocks);
    OffsetAfterWrite(r, 1, xs);
    var c := Cursor(dst, Back(w.offset, d + n, L), pos);
    ReadContiguous(w.data, 1, c, length, n);
    var got := ReadAll(w.data, 1, c, 1, pos, length, n).dst;
    var want := dst[..pos] + xs[from..from + n] + dst[pos + n..];
    forall k | 0 <= k < |dst| ensures got[k] == want[k] {
      SpliceAt(dst, pos, xs[from..from + n], k);
      if pos <= k < pos + n {
        var t := |xs| - (d + n) + (k - pos);
        BackThenForward(r.offset, |xs|, d + n, k - pos, L);
        HistorySlot(r, xs, t);
        assert c.pos <= k < c.pos + n;
        assert got[k] == ReadAll(w.data, 1, c, 1, c.pos, length, n).dst[k]
                      == w.data[Slot(c.offset, 1, k - pos, L)];
        assert xs[from..from + n][k - pos] == xs[t];
      }
    }
    assert got == want;
  }

  // ----- strided access -----

  function Gcd(a: nat, b: nat): (g: nat)
    ensures b > 0 ==> g > 0
    decreases b
  {
    if b == 0 then a else Gcd(b, a % b)
  }

  /** The gcd divides both numbers and is an integer combination of them. */
  lemma {:induction false} Bezout(a: nat, b: nat) returns (u: int, v: int, p: nat, q: nat)
    ensures u * a + v * b == Gcd(a, b)
    ensures a == p * Gcd(a, b) && b == q * Gcd(a, b)
    decreases b
  {
    if b == 0 {
      u, v, p, q := 1, 0, 1, 0;
    } else {
      u, v, p, q := Bezout(b, a % b);
      u, v, p, q := BezoutStep(a, b, a / b, a % b, Gcd(a, b), u, v, p, q);
    }
  }

  lemma BezoutStep(a: nat, b: nat, k: nat, c: nat, g: nat, u: int, v: int, p: nat, q: nat)
    returns (u': int, v': int, p': nat, q': nat)
    requires a == b * k + c && u * b + v * c == g && b == p * g && c == q * g
    ensures u' * a + v' * b == g && a == p' * g && b == q' * g
  {
    u', v', p', q' := v, u - v * k, p * k + q, p;
    assert v * a == v * k * b + v * c;
    assert (p * k + q) * g == p * g * k + q * g;
  }

  ghost predicate DistinctSlots(o: int, inc: int, n: nat, L: nat)
    requires L > 0
  {
    forall j: nat, k: nat :: j < k < n ==> Slot(o, inc, j, L) != Slot(o, inc, k, L)
  }

  /** Two accesses m steps apart hit the same slot only if m*gcd is a multiple of L. */
  lemma SameSlotFar(o: int, inc: nat, j: nat, k: nat, L: nat)
    requires L > 0 && j < k && Slot(o, inc, j, L) == Slot(o, inc, k, L)
    ensures (k - j) * Gcd(inc, L) >= L
  {
    var u, v, p, q := Bezout(inc, L);
    var c := (o + k * inc) / L - (o + j * inc) / L;
    SameSlotMultiple(o + j * inc, o + k * inc, L);
    assert (k - j) * inc == c * L;
    Combine(u, v, inc, L, Gcd(inc, L), k - j, c);
  }

  lemma SameSlotMultiple(a: int, b: int, L: nat)
    requires L > 0 && a % L == b % L
    ensures b - a == (b / L - a / L) * L
  {
  }

  lemma Combine(u: int, v: int, inc: int, L: nat, g: nat, m: nat, c: int)
    requires u * inc + v * L == g && m * inc == c * L && g > 0 && m > 0
    ensures m * g >= L
  {
    var h := u * c + v * m;
    assert m * g == h * L by {
      assert m * g == u * (m * inc) + v * m * L;
      assert u * (c * L) == u * c * L;
    }
    MulLe(1, m, g);
    if h <= 0 { MulLe(h, 0, L); } else { MulLe(1, h, L); }
  }

  /** L / gcd accesses come back to the first slot. */
  lemma SlotPeriod(o: int, inc: nat, L: nat, g: nat, p: nat, q: nat)
    requires L > 0 && inc == p * g && L == q * g
    ensures Slot(o, inc, q, L) == Slot(o, inc, 0, L)
  {
    assert q * inc == p * L by { assert q * (p * g) == p * (q * g); }
    DivUnique(o + q * inc, L, o / L + p, o % L);
  }

  lemma FewAccessesDistinct(o: int, inc: nat, n: nat, L: nat)
    requires L > 0 && n * Gcd(inc, L) <= L
    ensures DistinctSlots(o, inc, n, L)
  {
    hide Slot, Gcd;
    forall j: nat, k: nat | j < k < n ensures Slot(o, inc, j, L) != Slot(o, inc, k, L) {
      if Slot(o, inc, j, L) == Slot(o, inc, k, L) {
        SameSlotFar(o, inc, j, k, L);
        MulLe(k - j + 1, n, Gcd(inc, L));
        assert false;
      }
    }
  }

  lemma ManyAccessesRepeat(o: int, inc: nat, n: nat, L: nat)
    requires L > 0 && n * Gcd(inc, L) > L
    ensures !DistinctSlots(o, inc, n, L)
  {
    hide Slot, Gcd;
    var u, v, p, q := Bezout(inc, L);
    SlotPeriod(o, inc, L, Gcd(inc, L), p, q);
    if n <= q { MulLe(n, q, Gcd(inc, L)); }
    if q == 0 { MulLe(q, 0, Gcd(inc, L)); }
    assert Slot(o, inc, 0, L) == Slot(o, inc, q, L);
  }

  /** The first n accesses hit distinct slots exactly when n <= L / gcd(inc, L). */
  lemma DistinctExactlyWhen(o: int, inc: nat, n: nat, L: nat)
    requires L > 0 && inc <= L
    ensures DistinctSlots(o, inc, n, L) <==> n * Gcd(inc, L) <= L
  {
    hide *;
    if n * Gcd(inc, L) <= L {
      FewAccessesDistinct(o, inc, n, L);
    } else {
      ManyAccessesRepeat(o, inc, n, L);
    }
  }

  /** Writing xs in steps over distinct slots leaves sample t at its own slot. */
  lemma {:induction false} StridedSlot<T>(r: Ring<T>, inc: nat, xs: seq<T>, t: nat)
    requires r.Valid() && inc <= |r.data| && t < |xs|
    requires DistinctSlots(r.offset, inc, |xs|, |r.data|)
    ensures WriteAll(r, inc, xs).data[Slot(r.offset, inc, t, |r.data|)] == xs[t]
  {
    var prefix, last := xs[..|xs| - 1], |xs| - 1;
    OffsetAfterWrite(r, inc, prefix);
    if t < last {
      StridedSlot(r, inc, prefix, t);
      assert Slot(r.offset, inc, t, |r.data|) != Slot(r.offset, inc, last, |r.data|);
    }
  }

  /** Writing at most L / gcd(inc, L) samples and reading as many from the same offset
      with the same increment returns them in order, and both offsets end equal. */
  lemma StridedRoundTrip<T>(r: Ring<T>, inc: nat, xs: seq<T>, dst: seq<T>, pos: nat, length: nat)
    requires r.Valid() && inc <= |r.data| && |xs| * Gcd(inc, |r.data|) <= |r.data|
    requires |xs| <= length && pos + length <= |dst|
    ensures forall k: nat :: k < |xs| ==> PosAfter(pos, 1, pos, length, k) == pos + k
    ensures var w := WriteAll(r, inc, xs);
            var back := ReadAll(w.data, inc, Cursor(dst, r.offset, pos), 1, pos, length, |xs|);
            && back.dst == dst[..pos] + xs + dst[pos + |xs|..]
            && back.offset == w.offset && 0 <= w.offset < |r.data|
  {
    var w, c := WriteAll(r, inc, xs), Cursor(dst, r.offset, pos);
    DistinctExactlyWhen(r.offset, inc, |xs|, |r.data|);
    ReadContiguous(w.data, inc, c, length, |xs|);
    OffsetAfterWrite(r, inc, xs);
    OffsetAfterRead(w.data, inc, c, 1, pos, length, |xs|);
    var got := ReadAll(w.data, inc, c, 1, pos, length, |xs|).dst;
    var want := dst[..pos] + xs + dst[pos + |xs|..];
    forall k | 0 <= k < |dst| ensures got[k] == want[k] {
      SpliceAt(dst, pos, xs, k);
      if pos <= k < pos + |xs| {
        StridedSlot(r, inc, xs, k - pos);
      }
    }
    assert got == want;
  }
}
