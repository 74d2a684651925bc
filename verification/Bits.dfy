/**
  Buffers seen bit by bit: bit k of a buffer is bit k % 8 of element k / 8.  What
  an element's own bits are is left open here.
 */
module Bits {
  type Selector<!B> = (B, nat) -> bool

  function Select<B>(bytes: seq<B>, bit: Selector<B>, k: nat): bool
    requires k < 8 * |bytes|
  {
    bit(bytes[k / 8], k % 8)
  }

  function FirstBits<B>(bytes: seq<B>, bit: Selector<B>, n: nat): (bits: seq<bool>)
    requires n <= 8 * |bytes|
    ensures |bits| == n
  {
    if n == 0 then [] else FirstBits(bytes, bit, n - 1) + [Select(bytes, bit, n - 1)]
  }

  function Unpack<B>(bytes: seq<B>, bit: Selector<B>): (bits: seq<bool>)
    ensures |bits| == 8 * |bytes|
  {
    FirstBits(bytes, bit, 8 * |bytes|)
  }

  lemma {:induction false} FirstBitsAt<B>(bytes: seq<B>, bit: Selector<B>, n: nat, k: nat)
    requires k < n <= 8 * |bytes|
    ensures FirstBits(bytes, bit, n)[k] == Select(bytes, bit, k)
  {
    if k < n - 1 {
      FirstBitsAt(bytes, bit, n - 1, k);
    }
  }

  lemma UnpackAt<B>(bytes: seq<B>, bit: Selector<B>, k: nat)
    requires k < 8 * |bytes|
    ensures Unpack(bytes, bit)[k] == Select(bytes, bit, k)
  {
    FirstBitsAt(bytes, bit, 8 * |bytes|, k);
  }

  /** Replacing an element by one that differs in one bit. */
  lemma OneBit<B>(bytes: seq<B>, bit: Selector<B>, k: nat, x: B, on: bool)
    requires k < 8 * |bytes|
    requires forall j: nat | j < 8 :: bit(x, j) == if j == k % 8 then on else bit(bytes[k / 8], j)
    ensures Unpack(bytes[k / 8 := x], bit) == Unpack(bytes, bit)[k := on]
  {
    var after := bytes[k / 8 := x];
    forall j | 0 <= j < 8 * |bytes|
      ensures Unpack(after, bit)[j] == Unpack(bytes, bit)[k := on][j]
    {
      UnpackAt(after, bit, j);
      UnpackAt(bytes, bit, j);
      if j / 8 == k / 8 {
        assert bit(x, j % 8) == if j % 8 == k % 8 then on else bit(bytes[k / 8], j % 8);
      }
    }
  }

  /** n bits of src from `from` on, in place of those of dest from `at` on. */
  function Copied(dest: seq<bool>, at: nat, src: seq<bool>, from: nat, n: nat): (bits: seq<bool>)
    requires at + n <= |dest| && from + n <= |src|
    ensures |bits| == |dest|
  {
    if n == 0 then dest else Copied(dest, at, src, from, n - 1)[at + n - 1 := src[from + n - 1]]
  }

  lemma {:induction false} CopiedAt(dest: seq<bool>, at: nat, src: seq<bool>, from: nat, n: nat, k: nat)
    requires at + n <= |dest| && from + n <= |src| && k < |dest|
    ensures Copied(dest, at, src, from, n)[k] == if at <= k < at + n then src[from + k - at] else dest[k]
  {
    if n > 0 {
      CopiedAt(dest, at, src, from, n - 1, k);
    }
  }

  function Falses(n: nat): (bits: seq<bool>)
    ensures |bits| == n
  {
    if n == 0 then [] else Falses(n - 1) + [false]
  }

  lemma {:induction false} FalsesAt(n: nat, k: nat)
    requires k < n
    ensures !Falses(n)[k]
  {
    if k < n - 1 {
      FalsesAt(n - 1, k);
    }
  }

  /** n bits of src from `from` on, zeros past its end. */
  function Window(src: seq<bool>, from: nat, n: nat): (bits: seq<bool>)
    ensures |bits| == n
  {
    if n == 0 then [] else Window(src, from, n - 1) + [from + n - 1 < |src| && src[from + n - 1]]
  }

  lemma {:induction false} WindowAt(src: seq<bool>, from: nat, n: nat, k: nat)
    requires k < n
    ensures Window(src, from, n)[k] == (from + k < |src| && src[from + k])
  {
    if k < n - 1 {
      WindowAt(src, from, n - 1, k);
    }
  }

  /** Zeros up to `total` bits. */
  function Filled(bits: seq<bool>, total: nat): (r: seq<bool>)
    requires |bits| <= total
    ensures |r| == total
  {
    bits + Falses(total - |bits|)
  }

  lemma FilledAt(bits: seq<bool>, total: nat, k: nat)
    requires |bits| <= total && k < total
    ensures Filled(bits, total)[k] == (k < |bits| && bits[k])
  {
    if k >= |bits| {
      FalsesAt(total - |bits|, k - |bits|);
    }
  }

  /** Copying what there is of a window right after the bits so far puts the whole window there. */
  lemma CopiedWindow(before: seq<bool>, total: nat, src: seq<bool>, from: nat, size: nat, n: nat)
    requires |before| + size <= total && n <= size && from + n <= |src| && (n == size || from + n == |src|)
    ensures Copied(Filled(before, total), |before|, src, from, n) == Filled(before + Window(src, from, size), total)
  {
    forall k | 0 <= k < total
      ensures Copied(Filled(before, total), |before|, src, from, n)[k]
              == Filled(before + Window(src, from, size), total)[k]
    {
      CopiedAt(Filled(before, total), |before|, src, from, n, k);
      FilledAt(before, total, k);
      FilledAt(before + Window(src, from, size), total, k);
      if |before| <= k < |before| + size {
        WindowAt(src, from, size, k - |before|);
      }
    }
  }

  function CopiedBytes<B>(dest: seq<B>, at: nat, src: seq<B>, n: nat): (bytes: seq<B>)
    requires at + n <= |dest| && n <= |src|
    ensures |bytes| == |dest|
  {
    dest[..at] + src[..n] + dest[at + n..]
  }

  /** Copying whole bytes is copying their bits. */
  lemma ByteCopyIsBitCopy<B>(dest: seq<B>, at: nat, src: seq<B>, n: nat, bit: Selector<B>)
    requires at + n <= |dest| && n <= |src|
    ensures Unpack(CopiedBytes(dest, at, src, n), bit)
            == Copied(Unpack(dest, bit), 8 * at, Unpack(src, bit), 0, 8 * n)
  {
    var bytes := CopiedBytes(dest, at, src, n);
    forall k | 0 <= k < 8 * |dest|
      ensures Unpack(bytes, bit)[k] == Copied(Unpack(dest, bit), 8 * at, Unpack(src, bit), 0, 8 * n)[k]
    {
      SelectCopied(dest, at, src, n, bit, k);
      ByteCopyAt(bytes, dest, at, src, n, bit, k);
    }
  }

  lemma ByteCopyAt<B>(bytes: seq<B>, dest: seq<B>, at: nat, src: seq<B>, n: nat, bit: Selector<B>, k: nat)
    requires at + n <= |dest| == |bytes| && n <= |src| && k < 8 * |dest|
    requires Select(bytes, bit, k) ==
             if 8 * at <= k < 8 * (at + n) then Select(src, bit, k - 8 * at) else Select(dest, bit, k)
    ensures Unpack(bytes, bit)[k] == Copied(Unpack(dest, bit), 8 * at, Unpack(src, bit), 0, 8 * n)[k]
  {
    UnpackAt(bytes, bit, k);
    CopiedAt(Unpack(dest, bit), 8 * at, Unpack(src, bit), 0, 8 * n, k);
    if 8 * at <= k < 8 * (at + n) {
      UnpackAt(src, bit, k - 8 * at);
    } else {
      UnpackAt(dest, bit, k);
    }
  }

  lemma SelectCopied<B>(dest: seq<B>, at: nat, src: seq<B>, n: nat, bit: Selector<B>, k: nat)
    requires at + n <= |dest| && n <= |src| && k < 8 * |dest|
    ensures Select(CopiedBytes(dest, at, src, n), bit, k) ==
            if 8 * at <= k < 8 * (at + n) then Select(src, bit, k - 8 * at) else Select(dest, bit, k)
  {
    if 8 * at <= k {
      assert (k - 8 * at) / 8 == k / 8 - at && (k - 8 * at) % 8 == k % 8;
    }
  }

  // ---- buffers put together from spans of others ----

  /** `size` bits of a source, from its bit `from` on. */
  datatype Span<B> = Span(source: seq<B>, from: nat, size: nat)

  /** Bit k of a buffer; there is none past its end. */
  predicate BitAt<B>(bytes: seq<B>, bit: Selector<B>, k: nat) {
    k < 8 * |bytes| && bit(bytes[k / 8], k % 8)
  }

  function SpanBits<B>(spans: seq<Span<B>>, i: nat): nat
    requires i <= |spans|
  {
    if i == 0 then 0 else SpanBits(spans, i - 1) + spans[i - 1].size
  }

  function Joined<B>(spans: seq<Span<B>>, bit: Selector<B>, i: nat): (bits: seq<bool>)
    requires i <= |spans|
    ensures |bits| == SpanBits(spans, i)
  {
    if i == 0 then []
    else Joined(spans, bit, i - 1) + Window(Unpack(spans[i - 1].source, bit), spans[i - 1].from, spans[i - 1].size)
  }

  /** Bit k of span i, counted from where the spans before it end, is bit k of its source from its start on, or zero. */
  predicate SpanShown<B>(bytes: seq<B>, bit: Selector<B>, spans: seq<Span<B>>, i: nat, k: nat)
    requires i < |spans|
  {
    BitAt(bytes, bit, SpanBits(spans, i) + k) <==> BitAt(spans[i].source, bit, spans[i].from + k)
  }

  /** Every bit of every span is shown, and all bits after the last one are zero. */
  ghost predicate Shows<B>(bytes: seq<B>, bit: Selector<B>, spans: seq<Span<B>>) {
    && (forall i, k | 0 <= i < |spans| && 0 <= k < spans[i].size :: SpanShown(bytes, bit, spans, i, k))
    && (forall b | SpanBits(spans, |spans|) <= b < 8 * |bytes| :: !BitAt(bytes, bit, b))
  }

  lemma BitAtUnpacked<B>(bytes: seq<B>, bit: Selector<B>, k: nat)
    ensures BitAt(bytes, bit, k) <==> k < 8 * |bytes| && Unpack(bytes, bit)[k]
  {
    if k < 8 * |bytes| {
      UnpackAt(bytes, bit, k);
    }
  }

  lemma {:induction false} JoinedAt<B>(spans: seq<Span<B>>, bit: Selector<B>, n: nat, i: nat, k: nat)
    requires i < n <= |spans| && k < spans[i].size
    ensures SpanBits(spans, i) + k < |Joined(spans, bit, n)|
    ensures Joined(spans, bit, n)[SpanBits(spans, i) + k] <==> BitAt(spans[i].source, bit, spans[i].from + k)
    decreases n
  {
    if i == n - 1 {
      WindowAt(Unpack(spans[i].source, bit), spans[i].from, spans[i].size, k);
      BitAtUnpacked(spans[i].source, bit, spans[i].from + k);
    } else {
      JoinedAt(spans, bit, n - 1, i, k);
    }
  }

  lemma HeldBit<B>(bytes: seq<B>, bit: Selector<B>, bits: seq<bool>, b: nat)
    requires |bits| <= 8 * |bytes| && Unpack(bytes, bit) == Filled(bits, 8 * |bytes|) && b < 8 * |bytes|
    ensures BitAt(bytes, bit, b) <==> b < |bits| && bits[b]
  {
    FilledAt(bits, 8 * |bytes|, b);
    BitAtUnpacked(bytes, bit, b);
  }

  /** A buffer whose bits are those of the spans and then zeros, bit by bit. */
  lemma JoinedShows<B>(bytes: seq<B>, bit: Selector<B>, spans: seq<Span<B>>)
    requires SpanBits(spans, |spans|) <= 8 * |bytes|
    requires Unpack(bytes, bit) == Filled(Joined(spans, bit, |spans|), 8 * |bytes|)
    ensures Shows(bytes, bit, spans)
  {
    var bits := Joined(spans, bit, |spans|);
    forall i, k | 0 <= i < |spans| && 0 <= k < spans[i].size ensures SpanShown(bytes, bit, spans, i, k) {
      JoinedAt(spans, bit, |spans|, i, k);
      HeldBit(bytes, bit, bits, SpanBits(spans, i) + k);
    }
    forall b | SpanBits(spans, |spans|) <= b < 8 * |bytes| ensures !BitAt(bytes, bit, b) {
      HeldBit(bytes, bit, bits, b);
    }
  }
}
