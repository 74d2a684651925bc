/**
  Putting a variable together from the pieces of a DWARF location, section
  2.6.1.2 of the DWARF 4 standard: read_location_data in src/target.cpp, and
  memcpy_bits in include/libgsdb/bit.hpp.
 */
module Pieces {
  import opened Options
  import opened Bits

  /** 1 << k. */
  function Mask(k: nat): bv8 {
    if k == 0 then 1 else Mask(k - 1) << 1
  }

  lemma MaskValue(k: nat)
    requires k < 8
    ensures Mask(k) == if k == 0 then 1 else if k == 1 then 2 else if k == 2 then 4 else if k == 3 then 8
                       else if k == 4 then 16 else if k == 5 then 32 else if k == 6 then 64 else 128
  {
    if k > 0 {
      MaskValue(k - 1);
    }
  }

  predicate Bit(b: bv8, k: nat) {
    b & Mask(k) != 0
  }

  function BitsOf(bytes: seq<bv8>): (bits: seq<bool>)
    ensures |bits| == 8 * |bytes|
  {
    Unpack(bytes, Bit)
  }

  function WithBit(b: bv8, k: nat, on: bool): bv8 {
    if on then (b & !Mask(k)) | Mask(k) else b & !Mask(k)
  }

  /** Clearing a bit and setting it again if it is wanted touches no other bit. */
  lemma WithBitOnly(b: bv8, i: nat, on: bool)
    requires i < 8
    ensures forall j: nat | j < 8 :: Bit(WithBit(b, i, on), j) == if j == i then on else Bit(b, j)
  {
    forall j: nat | j < 8 ensures Bit(WithBit(b, i, on), j) == if j == i then on else Bit(b, j) {
      SetBit(b, i, j, on);
    }
  }

  lemma SetBit(b: bv8, i: nat, j: nat, on: bool)
    requires i < 8 && j < 8
    ensures Bit(WithBit(b, i, on), j) == if i == j then on else Bit(b, j)
  {
    MaskValue(i);
    MaskValue(j);
  }

  lemma SameBitsSameByte(a: bv8, b: bv8)
    requires forall k: nat | k < 8 :: Bit(a, k) == Bit(b, k)
    ensures a == b
  {
    assert Bit(a, 0) == Bit(b, 0) && Bit(a, 1) == Bit(b, 1) && Bit(a, 2) == Bit(b, 2) && Bit(a, 3) == Bit(b, 3);
    assert Bit(a, 4) == Bit(b, 4) && Bit(a, 5) == Bit(b, 5) && Bit(a, 6) == Bit(b, 6) && Bit(a, 7) == Bit(b, 7);
    MaskValue(1);
    MaskValue(2);
    MaskValue(3);
    MaskValue(4);
    MaskValue(5);
    MaskValue(6);
    MaskValue(7);
  }

  /** A buffer is determined by its bits. */
  lemma BitsDetermine(a: seq<bv8>, b: seq<bv8>)
    requires BitsOf(a) == BitsOf(b)
    ensures a == b
  {
    assert 8 * |a| == |BitsOf(a)| == 8 * |b|;
    forall i | 0 <= i < |a| ensures a[i] == b[i] {
      forall k: nat | k < 8 ensures Bit(a[i], k) == Bit(b[i], k) {
        UnpackAt(a, Bit, 8 * i + k);
        UnpackAt(b, Bit, 8 * i + k);
      }
      SameBitsSameByte(a[i], b[i]);
    }
  }

  lemma BitWritten(dest: seq<bv8>, destBit: nat, src: seq<bv8>, srcBit: nat)
    requires destBit < 8 * |dest| && srcBit < 8 * |src|
    ensures var b := WithBit(dest[destBit / 8], destBit % 8, Bit(src[srcBit / 8], srcBit % 8));
            BitsOf(dest[destBit / 8 := b]) == BitsOf(dest)[destBit := BitsOf(src)[srcBit]]
  {
    var on := Bit(src[srcBit / 8], srcBit % 8);
    UnpackAt(src, Bit, srcBit);
    WithBitOnly(dest[destBit / 8], destBit % 8, on);
    OneBit(dest, Bit, destBit, WithBit(dest[destBit / 8], destBit % 8, on), on);
  }

  /** Clearing a bit of the destination, then setting it if it is wanted. */
  method PutBit(dest: array<bv8>, at: nat, k: nat, on: bool)
    requires at < dest.Length
    modifies dest
    ensures dest[..] == old(dest[..])[at := WithBit(old(dest[at]), k, on)]
  {
    var mask := Mask(k);
    dest[at] := dest[at] & !mask;
    if on {
      dest[at] := dest[at] | mask;
    }
  }

  /** One round of memcpy_bits. */
  method CopyBit(dest: array<bv8>, destBit: nat, src: seq<bv8>, srcBit: nat)
    requires destBit < 8 * dest.Length && srcBit < 8 * |src|
    modifies dest
    ensures BitsOf(dest[..]) == BitsOf(old(dest[..]))[destBit := BitsOf(src)[srcBit]]
  {
    BitWritten(dest[..], destBit, src, srcBit);
    PutBit(dest, destBit / 8, destBit % 8, src[srcBit / 8] & Mask(srcBit % 8) != 0);
  }

  /** memcpy_bits. */
  method MemcpyBits(dest: array<bv8>, destBit: nat, src: seq<bv8>, srcBit: nat, nBits: nat)
    requires destBit + nBits <= 8 * dest.Length && srcBit + nBits <= 8 * |src|
    modifies dest
    ensures BitsOf(dest[..]) == Copied(BitsOf(old(dest[..])), destBit, BitsOf(src), srcBit, nBits)
  {
    ghost var before, from := BitsOf(dest[..]), BitsOf(src);
    var d, s, n := destBit, srcBit, nBits;
    while n > 0
      invariant 0 <= n <= nBits && d == destBit + nBits - n && s == srcBit + nBits - n
      invariant BitsOf(dest[..]) == Copied(before, destBit, from, srcBit, nBits - n)
      decreases n
    {
      CopyBit(dest, d, src, s);
      n, s, d := n - 1, s + 1, d + 1;
    }
  }

  /** std::copy_n into the buffer. */
  method CopyBytes(dest: array<bv8>, at: nat, src: seq<bv8>, n: nat)
    requires at + n <= dest.Length && n <= |src|
    modifies dest
    ensures dest[..] == CopiedBytes(old(dest[..]), at, src, n)
  {
    for k := 0 to n
      invariant dest[..] == CopiedBytes(old(dest[..]), at, src, k)
    {
      dest[at + k] := src[k];
    }
  }

  // ---- locations ----

  /** A simple location: a register's bytes, an address, literal data, a 64-bit value, or nothing. */
  datatype Location =
    | InRegister(held: seq<bv8>)
    | At(address: nat)
    | Data(data: seq<bv8>)
    | Literal(value: seq<bv8>)
    | Empty

  datatype Piece = Piece(location: Location, bitSize: nat, offset: nat)

  /** Reads n bytes of the inferior's memory, or reports an error. */
  type Reader = (nat, nat) -> Option<seq<bv8>>

  /** The bytes of a simple location of which n are asked for; registers and data come as they are. */
  function ReadSimple(loc: Location, n: nat, read: Reader): Option<seq<bv8>> {
    match loc
    case InRegister(held) => Some(held)
    case At(address) => read(address, n)
    case Data(data) => Some(data)
    case Literal(value) => Some(if n <= |value| then value[..n] else value + seq(n - |value|, _ => 0))
    case Empty => None
  }

  function PieceData(p: Piece, read: Reader): Option<seq<bv8>> {
    ReadSimple(p.location, (p.offset + p.bitSize + 7) / 8, read)
  }

  /** What reading the location of each piece gives. */
  function Sources(ps: seq<Piece>, read: Reader): (s: seq<Option<seq<bv8>>>)
    ensures |s| == |ps|
  {
    seq(|ps|, k requires 0 <= k < |ps| => PieceData(ps[k], read))
  }

  /** The first i pieces can be read. */
  predicate AllRead(s: seq<Option<seq<bv8>>>, i: nat)
    requires i <= |s|
  {
    i == 0 || (AllRead(s, i - 1) && s[i - 1].Some?)
  }

  function BitsIn(source: Option<seq<bv8>>): seq<bool> {
    if source.Some? then BitsOf(source.value) else []
  }

  function TotalBits(ps: seq<Piece>, i: nat): nat
    requires i <= |ps|
  {
    if i == 0 then 0 else TotalBits(ps, i - 1) + ps[i - 1].bitSize
  }

  /** The bits of the first i pieces, one piece after the other; a piece is zero past the end of its source. */
  function Concatenated(ps: seq<Piece>, s: seq<Option<seq<bv8>>>, i: nat): (bits: seq<bool>)
    requires i <= |ps| == |s|
    ensures |bits| == TotalBits(ps, i)
  {
    if i == 0 then [] else Concatenated(ps, s, i - 1) + Window(BitsIn(s[i - 1]), ps[i - 1].offset, ps[i - 1].bitSize)
  }

  predicate ByteAligned(p: Piece, offset: nat) {
    offset % 8 == 0 && p.offset == 0 && p.bitSize % 8 == 0
  }

  predicate LongEnough(p: Piece, bits: nat) {
    p.offset + p.bitSize <= bits
  }

  /** The bits so far, then zeros up to the end of the buffer. */
  predicate Holds(bytes: seq<bv8>, bits: seq<bool>) {
    |bits| <= 8 * |bytes| && BitsOf(bytes) == Filled(bits, 8 * |bytes|)
  }

  /** The byte-by-byte way. */
  method PlaceBytes(dest: array<bv8>, p: Piece, data: seq<bv8>, ghost before: seq<bool>, offset: nat)
    requires offset == |before| && offset + p.bitSize <= 8 * dest.Length && ByteAligned(p, offset)
    requires Holds(dest[..], before)
    modifies dest
    ensures Holds(dest[..], before + Window(BitsOf(data), p.offset, p.bitSize))
  {
    var n := if p.bitSize / 8 < |data| then p.bitSize / 8 else |data|;
    ghost var bits, total := BitsOf(data), 8 * dest.Length;
    WholeBytes(offset);
    WholeBytes(p.bitSize);
    CopiedWindow(before, total, bits, 0, p.bitSize, 8 * n);
    ByteCopyIsBitCopy(dest[..], offset / 8, data, n, Bit);
    CopyBytes(dest, offset / 8, data, n);
  }

  lemma WholeBytes(bits: nat)
    requires bits % 8 == 0
    ensures 8 * (bits / 8) == bits
  {
  }

  /** The bit-by-bit way. */
  method PlaceBits(dest: array<bv8>, p: Piece, data: seq<bv8>, ghost before: seq<bool>, offset: nat)
    requires offset == |before| && offset + p.bitSize <= 8 * dest.Length && LongEnough(p, 8 * |data|)
    requires Holds(dest[..], before)
    modifies dest
    ensures Holds(dest[..], before + Window(BitsOf(data), p.offset, p.bitSize))
  {
    ghost var bits, total := BitsOf(data), 8 * dest.Length;
    CopiedWindow(before, total, bits, p.offset, p.bitSize, p.bitSize);
    MemcpyBits(dest, offset, data, p.offset, p.bitSize);
  }

  /** Both ways of copying append the piece's bits. */
  method PlacePiece(dest: array<bv8>, p: Piece, data: seq<bv8>, ghost before: seq<bool>, offset: nat)
    requires offset == |before| && offset + p.bitSize <= 8 * dest.Length
    requires ByteAligned(p, offset) || LongEnough(p, 8 * |data|)
    requires Holds(dest[..], before)
    modifies dest
    ensures Holds(dest[..], before + Window(BitsOf(data), p.offset, p.bitSize))
  {
    if offset % 8 == 0 && p.offset == 0 && p.bitSize % 8 == 0 {
      PlaceBytes(dest, p, data, before, offset);
    } else {
      PlaceBits(dest, p, data, before, offset);
    }
  }

  /** The first i pieces are not copied bit by bit from a source that ends too early. */
  predicate NoOverread(ps: seq<Piece>, s: seq<Option<seq<bv8>>>, i: nat)
    requires i <= |ps| == |s|
  {
    i == 0 || (NoOverread(ps, s, i - 1) && Suffices(ps, s, i - 1))
  }

  predicate Suffices(ps: seq<Piece>, s: seq<Option<seq<bv8>>>, k: nat)
    requires k < |ps| == |s|
  {
    s[k].Some? ==> ByteAligned(ps[k], TotalBits(ps, k)) || LongEnough(ps[k], 8 * |s[k].value|)
  }

  /** The first pieces can be read, have room and come from long enough sources. */
  predicate AllFit(ps: seq<Piece>, s: seq<Option<seq<bv8>>>, i: nat, bits: nat)
    requires i <= |ps| == |s|
  {
    AllRead(s, i) && TotalBits(ps, i) <= bits && NoOverread(ps, s, i)
  }

  lemma {:induction false} AllFitPrefix(ps: seq<Piece>, s: seq<Option<seq<bv8>>>, i: nat, n: nat, bits: nat)
    requires i <= n <= |ps| == |s| && AllFit(ps, s, n, bits)
    ensures AllFit(ps, s, i, bits)
    decreases n
  {
    if i < n {
      AllFitPrefix(ps, s, i, n - 1, bits);
    }
  }

  lemma RoundedUp(bits: nat, size: nat)
    ensures (bits + 7) / 8 > size <==> bits > 8 * size
  {
  }

  /** One piece, unless it cannot be read, there is no room left for it, or its source ends too early. */
  method AddPiece(data: array<bv8>, p: Piece, source: Option<seq<bv8>>, offset: nat,
                  ghost ps: seq<Piece>, ghost s: seq<Option<seq<bv8>>>, ghost i: nat)
    returns (ok: bool)
    requires i < |ps| == |s| && p == ps[i] && source == s[i] && offset == TotalBits(ps, i)
    requires AllFit(ps, s, i, 8 * data.Length) && Holds(data[..], Concatenated(ps, s, i))
    modifies data
    ensures ok <==> AllFit(ps, s, i + 1, 8 * data.Length)
    ensures ok ==> Holds(data[..], Concatenated(ps, s, i + 1))
  {
    if source.None? {
      return false;
    }
    RoundedUp(offset + p.bitSize, data.Length);
    if (offset + p.bitSize + 7) / 8 > data.Length {
      return false;
    }
    if !ByteAligned(p, offset) && !LongEnough(p, 8 * |source.value|) {
      // memcpy_bits would read past the end of the source
      return false;
    }
    PlacePiece(data, p, source.value, Concatenated(ps, s, i), offset);
    return true;
  }

  /** The loop over the pieces, into a buffer of zeros. */
  method AddPieces(data: array<bv8>, ps: seq<Piece>, s: seq<Option<seq<bv8>>>) returns (ok: bool)
    requires |s| == |ps| && Holds(data[..], [])
    modifies data
    ensures ok <==> AllFit(ps, s, |ps|, 8 * data.Length)
    ensures ok ==> Holds(data[..], Concatenated(ps, s, |ps|))
  {
    var offset := 0;
    for i := 0 to |ps|
      invariant offset == TotalBits(ps, i)
      invariant AllFit(ps, s, i, 8 * data.Length)
      invariant Holds(data[..], Concatenated(ps, s, i))
    {
      ok := AddPiece(data, ps[i], s[i], offset, ps, s, i);
      if !ok {
        if AllFit(ps, s, |ps|, 8 * data.Length) {
          AllFitPrefix(ps, s, i + 1, |ps|, 8 * data.Length);
        }
        return;
      }
      offset := offset + ps[i].bitSize;
    }
    ok := true;
  }

  /**
    read_location_data on pieces, given what reading each of them yields: the
    bits of the pieces one after the other and zeros from there on; an error
    exactly when a piece cannot be read, the pieces are larger than the variable, or
    a bit-by-bit copy would read past the end of its source.
   */
  method AssembleSources(ps: seq<Piece>, s: seq<Option<seq<bv8>>>, size: nat) returns (r: Option<seq<bv8>>)
    requires |s| == |ps|
    ensures r.None? <==> !AllRead(s, |ps|) || TotalBits(ps, |ps|) > 8 * size || !NoOverread(ps, s, |ps|)
    ensures r.Some? ==> |r.value| == size && Holds(r.value, Concatenated(ps, s, |ps|))
  {
    var data := new bv8[size](_ => 0);
    ZeroBits(data[..]);
    var ok := AddPieces(data, ps, s);
    return if ok then Some(data[..]) else None;
  }

  /** read_location_data on pieces; reading changes nothing, so all of it comes first here. */
  method Assemble(ps: seq<Piece>, size: nat, read: Reader) returns (r: Option<seq<bv8>>)
    ensures var s := Sources(ps, read);
            r.None? <==> !AllRead(s, |ps|) || TotalBits(ps, |ps|) > 8 * size || !NoOverread(ps, s, |ps|)
    ensures r.Some? ==> |r.value| == size && Holds(r.value, Concatenated(ps, Sources(ps, read), |ps|))
    ensures r.Some? ==> Shows(r.value, Bit, SpansOf(ps, Sources(ps, read)))
    ensures forall i | 0 <= i < |ps| :: IsSource(ps[i], read, Sources(ps, read)[i])
  {
    r := AssembleSources(ps, Sources(ps, read), size);
    forall i | 0 <= i < |ps| ensures IsSource(ps[i], read, Sources(ps, read)[i]) {
      SourceMeans(ps[i], read);
    }
    if r.Some? {
      AssembledBits(ps, Sources(ps, read), r.value);
    }
  }

  // ---- bit by bit ----

  /** The bits that each piece is to contribute; nothing where it cannot be read. */
  function SpansOf(ps: seq<Piece>, s: seq<Option<seq<bv8>>>): (spans: seq<Span<bv8>>)
    requires |s| == |ps|
    ensures |spans| == |ps|
  {
    seq(|ps|, k requires 0 <= k < |ps| => Span(if s[k].Some? then s[k].value else [], ps[k].offset, ps[k].bitSize))
  }

  /** As many bytes of memory as the piece's bits lie in; of a value its bytes, then zeros; registers and data whole. */
  predicate IsSource(p: Piece, read: Reader, source: Option<seq<bv8>>) {
    match p.location
    case InRegister(held) => source == Some(held)
    case Data(data) => source == Some(data)
    case Empty => source == None
    case At(address) => source == read(address, BytesFor(p))
    case Literal(value) =>
      source.Some? && |source.value| == BytesFor(p) &&
      forall j | 0 <= j < BytesFor(p) :: source.value[j] == if j < |value| then value[j] else 0
  }

  /** The least number of bytes that hold the piece's bits. */
  function BytesFor(p: Piece): (n: nat)
    ensures 8 * n >= p.offset + p.bitSize && (n > 0 ==> 8 * (n - 1) < p.offset + p.bitSize)
  {
    var bits := p.offset + p.bitSize;
    if bits % 8 == 0 then bits / 8 else bits / 8 + 1
  }

  lemma SourceMeans(p: Piece, read: Reader)
    ensures IsSource(p, read, PieceData(p, read))
  {
    assert (p.offset + p.bitSize + 7) / 8 == BytesFor(p);
  }

  lemma {:induction false} ConcatenatedJoins(ps: seq<Piece>, s: seq<Option<seq<bv8>>>, n: nat)
    requires n <= |ps| == |s|
    ensures TotalBits(ps, n) == SpanBits(SpansOf(ps, s), n)
    ensures Concatenated(ps, s, n) == Joined(SpansOf(ps, s), Bit, n)
    decreases n
  {
    if n > 0 {
      ConcatenatedJoins(ps, s, n - 1);
    }
  }

  /** What the buffer holds, bit by bit. */
  lemma AssembledBits(ps: seq<Piece>, s: seq<Option<seq<bv8>>>, bytes: seq<bv8>)
    requires |s| == |ps| && Holds(bytes, Concatenated(ps, s, |ps|))
    ensures Shows(bytes, Bit, SpansOf(ps, s))
  {
    ConcatenatedJoins(ps, s, |ps|);
    JoinedShows(bytes, Bit, SpansOf(ps, s));
  }

  lemma ZeroBits(bytes: seq<bv8>)
    requires forall i | 0 <= i < |bytes| :: bytes[i] == 0
    ensures Holds(bytes, [])
  {
    forall k | 0 <= k < 8 * |bytes| ensures BitsOf(bytes)[k] == Filled([], 8 * |bytes|)[k] {
      UnpackAt(bytes, Bit, k);
      FilledAt([], 8 * |bytes|, k);
    }
  }
}
