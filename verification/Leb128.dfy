/**
  The cursor's LEB128 readers, section 7.6 of the DWARF 4 standard: a byte
  carries seven bits of the value, least significant group first, and its top
  bit says that more bytes follow.
 */
module Leb128 {
  import opened Options
  import opened Memory

  /** A C++ shift of a 64-bit word is defined for at most ten groups of seven bits. */
  const MAX_BYTES: nat := 10

  function Pow2(n: nat): (p: nat)
    ensures p >= 1
  {
    if n == 0 then 1 else 2 * Pow2(n - 1)
  }

  /** Bitwise or of two words. */
  function BitOr(a: nat, b: nat): nat {
    if a == 0 then b else if b == 0 then a
    else (if a % 2 == 1 || b % 2 == 1 then 1 else 0) + 2 * BitOr(a / 2, b / 2)
  }

  /** Words with disjoint bits are added by or. */
  lemma {:induction false} OrIsAdd(a: nat, q: nat, s: nat)
    requires a < Pow2(s)
    ensures BitOr(a, q * Pow2(s)) == a + q * Pow2(s)
    decreases s
  {
    if s > 0 && a != 0 && q != 0 {
      var h := q * Pow2(s - 1);
      assert q * Pow2(s) == 2 * h;
      OrIsAdd(a / 2, q, s - 1);
    }
  }

  lemma {:induction false} Pow2Add(m: nat, n: nat)
    ensures Pow2(m + n) == Pow2(m) * Pow2(n)
    decreases m
  {
    if m > 0 {
      Pow2Add(m - 1, n);
      assert Pow2(m + n) == 2 * Pow2(m - 1 + n);
    }
  }

  lemma PowersOf128(n: nat)
    ensures Pow2(7) == 128 && Pow2(7 * (n + 1)) == 128 * Pow2(7 * n)
  {
    assert Pow2(3) == 8;
    Pow2Add(3, 3);
    assert Pow2(7) == 2 * Pow2(6);
    Pow2Add(7, 7 * n);
  }

  lemma Pow2Of64()
    ensures Pow2(63) * 2 == Pow2(64) == MODULUS
  {
    assert Pow2(4) == 16;
    Pow2Add(4, 4);
    Pow2Add(8, 8);
    Pow2Add(16, 16);
    Pow2Add(32, 32);
  }

  /** byte & 0x7f. */
  function Payload(b: Byte): (p: nat)
    ensures p < 128
  {
    if b >= 128 then b - 128 else b
  }

  /** The payload of the bytes, as a number without bound. */
  function UnsignedValue(bytes: seq<Byte>): nat {
    if bytes == [] then 0 else Payload(bytes[0]) + 128 * UnsignedValue(bytes[1..])
  }

  /** All bytes but the last ask for more. */
  predicate IsEncoding(bytes: seq<Byte>) {
    && bytes != [] && bytes[|bytes| - 1] < 128
    && forall i | 0 <= i < |bytes| - 1 :: bytes[i] >= 128
  }

  /** The payload read as two's complement of 7 * |bytes| bits. */
  function SignedValue(bytes: seq<Byte>): int
    requires bytes != []
  {
    UnsignedValue(bytes) - if Negative(bytes) then Pow2(7 * |bytes|) else 0
  }

  predicate Negative(bytes: seq<Byte>)
    requires bytes != []
  {
    Payload(bytes[|bytes| - 1]) >= 64
  }

  /** The bytes stand at position p of the data. */
  predicate At(data: seq<Byte>, p: nat, bytes: seq<Byte>) {
    p + |bytes| <= |data| && data[p..p + |bytes|] == bytes
  }

  /** The low 64 bits of a number: what wrap-around leaves of it. */
  function Low64(x: int): (r: nat)
    ensures r < MODULUS
    decreases x < 0, if x < 0 then -x else x
  {
    if x < 0 then Low64(x + MODULUS) else if x < MODULUS then x else Low64(x - MODULUS)
  }

  lemma {:induction false} Low64IsModulo(x: int)
    ensures Low64(x) == x % MODULUS
    decreases x < 0, if x < 0 then -x else x
  {
    if x < 0 {
      Low64IsModulo(x + MODULUS);
    } else if x >= MODULUS {
      Low64IsModulo(x - MODULUS);
    }
  }

  /** Where the encoding that began at start ends, looked for from pos on within ten bytes. */
  function EncodingEnd(data: seq<Byte>, start: nat, pos: nat): (end: Option<nat>)
    ensures end.Some? ==> pos < end.value <= |data| && end.value <= start + MAX_BYTES
    decreases |data| - pos
  {
    if pos >= |data| || pos >= start + MAX_BYTES then None
    else if data[pos] < 128 then Some(pos + 1)
    else EncodingEnd(data, start, pos + 1)
  }

  /** The 64-bit result and the position after it; None where the reads are undefined. */
  function ReadUnsigned(data: seq<Byte>, pos: nat): Option<(nat, nat)> {
    var end := EncodingEnd(data, pos, pos);
    if end.None? then None else Some((Low64(UnsignedValue(data[pos..end.value])), end.value))
  }

  function ToSigned(x: nat): int {
    if x >= MODULUS / 2 then x - MODULUS else x
  }

  function ReadSigned(data: seq<Byte>, pos: nat): Option<(int, nat)> {
    var end := EncodingEnd(data, pos, pos);
    if end.None? then None else Some((ToSigned(Low64(SignedValue(data[pos..end.value]))), end.value))
  }

  lemma ScaledPower(x: int, n: nat)
    ensures x * Pow2(7 * (n + 1)) == 128 * (x * Pow2(7 * n))
  {
    PowersOf128(n);
    var p := Pow2(7 * n);
    assert x * (128 * p) == 128 * (x * p);
  }

  lemma {:induction false} ValueAppend(bytes: seq<Byte>, b: Byte)
    ensures UnsignedValue(bytes + [b]) == UnsignedValue(bytes) + Payload(b) * Pow2(7 * |bytes|)
    decreases bytes
  {
    if bytes == [] {
      assert [b][1..] == [];
    } else {
      var rest := bytes[1..];
      assert (bytes + [b])[1..] == rest + [b];
      ValueAppend(rest, b);
      ScaledPower(Payload(b), |rest|);
    }
  }

  lemma {:induction false} ValueBound(bytes: seq<Byte>)
    ensures UnsignedValue(bytes) < Pow2(7 * |bytes|)
    decreases bytes
  {
    if bytes != [] {
      ValueBound(bytes[1..]);
      PowersOf128(|bytes| - 1);
    }
  }

  /** A shift into place keeps only the bits of m that stay below bit 64. */
  lemma ShiftModulo(m: nat, p: nat, t: nat)
    requires p >= 1 && t >= 1 && p * t == MODULUS
    ensures m * p % MODULUS == m % t * p
  {
    var k, q := m / t, m % t;
    assert q * p < MODULUS by {
      assert q <= t - 1;
      assert q * p <= (t - 1) * p;
    }
    calc {
      m * p;
      { assert m == k * t + q; }
      (k * t + q) * p;
      k * t * p + q * p;
      { assert k * t * p == k * (p * t); }
      k * MODULUS + q * p;
    }
    ModOfMultiple(k, q * p);
  }

  lemma ModOfMultiple(k: nat, r: nat)
    requires r < MODULUS
    ensures (k * MODULUS + r) % MODULUS == r
  {
  }

  /** Seven payload bits shifted to group n of a 64-bit word. */
  function Shifted(b: Byte, n: nat): nat {
    Payload(b) * Pow2(7 * n) % MODULUS
  }

  lemma OrIsAddModulo(w: nat, u: nat, m: nat, s: nat, t: nat)
    requires t >= 1 && Pow2(s) * t == MODULUS && u < Pow2(s) && w == u + m * Pow2(s)
    ensures u < MODULUS
    ensures BitOr(u, m * Pow2(s) % MODULUS) == w % MODULUS
  {
    AddModulo(w, u, m, Pow2(s), t);
    ShiftModulo(m, Pow2(s), t);
    OrIsAdd(u, m % t, s);
  }

  lemma PowersMeetAt64(s: nat)
    requires s <= 64
    ensures Pow2(s) * Pow2(64 - s) == MODULUS
  {
    Pow2Of64();
    Pow2Add(s, 64 - s);
  }

  /** One round of the readers: or-ing in a shifted group adds it modulo 2^64. */
  lemma OrGroup(bytes: seq<Byte>, b: Byte)
    requires |bytes| < MAX_BYTES
    ensures UnsignedValue(bytes) < MODULUS
    ensures BitOr(UnsignedValue(bytes), Shifted(b, |bytes|)) == Low64(UnsignedValue(bytes + [b]))
  {
    var s := 7 * |bytes|;
    PowersMeetAt64(s);
    ValueBound(bytes);
    ValueAppend(bytes, b);
    OrIsAddModulo(UnsignedValue(bytes + [b]), UnsignedValue(bytes), Payload(b), s, Pow2(64 - s));
    Low64IsModulo(UnsignedValue(bytes + [b]));
  }

  lemma AddModulo(w: nat, u: nat, m: nat, p: nat, t: nat)
    requires p >= 1 && t >= 1 && p * t == MODULUS && u < p && w == u + m * p
    ensures u < MODULUS
    ensures w % MODULUS == u + m % t * p
  {
    var k, q := m / t, m % t;
    assert p <= p * t;
    assert u + q * p < MODULUS by {
      assert q <= t - 1;
      assert q * p <= (t - 1) * p;
    }
    calc {
      w;
      { assert m == k * t + q; }
      u + (k * t + q) * p;
      { assert k * t * p == k * (p * t); }
      k * MODULUS + (u + q * p);
    }
    ModOfMultiple(k, u + q * p);
  }

  /** What the loop of both readers has in res after these bytes. */
  function Accumulated(bytes: seq<Byte>): nat {
    if bytes == [] then 0 else
    var n := |bytes| - 1;
    BitOr(Accumulated(bytes[..n]), Shifted(bytes[n], n))
  }

  lemma {:induction false} AccumulatedIsValue(bytes: seq<Byte>)
    requires |bytes| <= MAX_BYTES
    ensures Accumulated(bytes) == Low64(UnsignedValue(bytes))
    decreases |bytes|
  {
    if bytes != [] {
      AccumulatedIsValue(bytes[..|bytes| - 1]);
      OrLastGroup(bytes);
    }
  }

  lemma OrLastGroup(bytes: seq<Byte>)
    requires 0 < |bytes| <= MAX_BYTES
    ensures var n := |bytes| - 1;
            BitOr(Low64(UnsignedValue(bytes[..n])), Shifted(bytes[n], n)) == Low64(UnsignedValue(bytes))
  {
    var n := |bytes| - 1;
    OrGroup(bytes[..n], bytes[n]);
    assert bytes[..n] + [bytes[n]] == bytes;
  }

  /** The loop common to uleb128 and sleb128. */
  method ReadGroups(data: seq<Byte>, start: nat) returns (r: Option<(nat, nat)>)
    ensures r.Some? <==> EncodingEnd(data, start, start).Some?
    ensures r.Some? ==> EncodingEnd(data, start, start) == Some(r.value.1)
    ensures r.Some? ==> r.value.0 == Low64(UnsignedValue(data[start..r.value.1]))
  {
    if start >= |data| {
      return None;
    }
    var res, pos := 0, start;
    while pos < |data| && pos - start < MAX_BYTES
      invariant start <= pos <= |data| && pos <= start + MAX_BYTES
      invariant EncodingEnd(data, start, start) == EncodingEnd(data, start, pos)
      invariant res == Accumulated(data[start..pos])
    {
      var byte := data[pos];
      ghost var read := data[start..pos + 1];
      assert read[..pos - start] == data[start..pos];
      res := BitOr(res, Shifted(byte, pos - start));
      pos := pos + 1;
      if byte < 128 {
        AccumulatedIsValue(read);
        return Some((res, pos));
      }
    }
    return None;
  }

  /** cursor::uleb128. */
  method Uleb128(data: seq<Byte>, start: nat) returns (r: Option<(nat, nat)>)
    ensures r == ReadUnsigned(data, start)
  {
    r := ReadGroups(data, start);
  }

  /** cursor::sleb128: bits above the last group are filled with the sign. */
  method Sleb128(data: seq<Byte>, start: nat) returns (r: Option<(int, nat)>)
    ensures r == ReadSigned(data, start)
  {
    var groups := ReadGroups(data, start);
    if groups.None? {
      return None;
    }
    var (res, pos) := groups.value;
    var shift := 7 * (pos - start);
    ghost var bytes := data[start..pos];
    SignExtension(bytes);
    if shift < 64 && Payload(data[pos - 1]) >= 64 {
      res := BitOr(res, MODULUS - Pow2(shift));
    }
    return Some((ToSigned(res), pos));
  }

  /** Filling the high bits of a short negative payload gives its two's complement. */
  lemma SignExtension(bytes: seq<Byte>)
    requires 0 < |bytes| <= MAX_BYTES
    ensures var u := Low64(UnsignedValue(bytes));
            var shift := 7 * |bytes|;
            if shift < 64 && Negative(bytes)
            then Pow2(shift) <= MODULUS && BitOr(u, MODULUS - Pow2(shift)) == Low64(SignedValue(bytes))
            else u == Low64(SignedValue(bytes))
  {
    ValueBound(bytes);
    if Negative(bytes) {
      if 7 * |bytes| < 64 {
        FillHighBits(UnsignedValue(bytes), 7 * |bytes|);
      } else {
        Pow2Of70();
        WrapOff(UnsignedValue(bytes));
      }
    } else if |bytes| < MAX_BYTES {
      PowersMeetAt64(7 * |bytes|);
    }
  }

  lemma Pow2Of70()
    ensures Pow2(70) == 64 * MODULUS
  {
    Pow2Of64();
    Pow2Add(3, 3);
    Pow2Add(6, 64);
  }

  lemma WrapOff(u: nat)
    ensures Low64(u - 64 * MODULUS) == Low64(u)
  {
    Low64IsModulo(u - 64 * MODULUS);
    Low64IsModulo(u);
  }

  lemma FillHighBits(u: nat, s: nat)
    requires s < 64 && u < Pow2(s)
    ensures Pow2(s) <= MODULUS && u < MODULUS
    ensures BitOr(u, MODULUS - Pow2(s)) == u - Pow2(s) + MODULUS
  {
    PowersMeetAt64(s);
    OneLess(Pow2(s), Pow2(64 - s));
    OrIsAdd(u, Pow2(64 - s) - 1, s);
  }

  lemma OneLess(p: nat, t: nat)
    requires t >= 1
    ensures p <= p * t && (t - 1) * p == p * t - p
  {
  }

  /** The shortest unsigned encoding. */
  function EncodeUnsigned(v: nat): (bytes: seq<Byte>)
    ensures IsEncoding(bytes)
  {
    if v < 128 then [v] else [128 + v % 128] + EncodeUnsigned(v / 128)
  }

  /** The shortest signed encoding; division rounds toward minus infinity. */
  function EncodeSigned(v: int): (bytes: seq<Byte>)
    ensures IsEncoding(bytes)
    decreases if v < 0 then -v else v
  {
    if -64 <= v < 64 then [v % 128] else [128 + v % 128] + EncodeSigned(v / 128)
  }

  lemma {:induction false} EncodeUnsignedValue(v: nat, n: nat)
    requires v < Pow2(7 * (n + 1))
    ensures UnsignedValue(EncodeUnsigned(v)) == v && |EncodeUnsigned(v)| <= n + 1
    decreases n
  {
    PowersOf128(n);
    if v >= 128 {
      if n > 0 {
        PowersOf128(n - 1);
        EncodeUnsignedValue(v / 128, n - 1);
      }
    }
  }

  lemma SignedSingle(x: Byte)
    requires x < 128
    ensures SignedValue([x]) == if x >= 64 then x - 128 else x
  {
    PowersOf128(0);
    var bytes := [x];
    assert bytes[1..] == [] && UnsignedValue(bytes) == x;
    assert 7 * |bytes| == 7;
  }

  lemma SignedCons(b: Byte, rest: seq<Byte>)
    requires b >= 128 && rest != []
    ensures SignedValue([b] + rest) == b - 128 + 128 * SignedValue(rest)
  {
    var bytes := [b] + rest;
    assert bytes[1..] == rest && bytes[|bytes| - 1] == rest[|rest| - 1];
    PowersOf128(|rest|);
  }

  lemma {:induction false} EncodeSignedValue(v: int, n: nat)
    requires 0 - 64 * Pow2(7 * n) <= v < 64 * Pow2(7 * n)
    ensures SignedValue(EncodeSigned(v)) == v && |EncodeSigned(v)| <= n + 1
    decreases n
  {
    if -64 <= v < 64 {
      SignedSingle(v % 128);
    } else {
      PowersOf128(n - 1);
      EncodeSignedValue(v / 128, n - 1);
      SignedCons(128 + v % 128, EncodeSigned(v / 128));
    }
  }

  /** The reader stops after the first byte without the continuation bit. */
  lemma {:induction false} EncodingEndsAt(data: seq<Byte>, start: nat, pos: nat, end: nat)
    requires pos < end <= |data| && end <= start + MAX_BYTES && data[end - 1] < 128
    requires forall i | pos <= i < end - 1 :: data[i] >= 128
    ensures EncodingEnd(data, start, pos) == Some(end)
    decreases end - pos
  {
    if pos + 1 < end {
      EncodingEndsAt(data, start, pos + 1, end);
    }
  }

  /** An encoding anywhere in the data is found whole. */
  lemma FindsEncoding(data: seq<Byte>, pos: nat, bytes: seq<Byte>)
    requires At(data, pos, bytes) && IsEncoding(bytes) && |bytes| <= MAX_BYTES
    ensures EncodingEnd(data, pos, pos) == Some(pos + |bytes|)
  {
    assert forall i | pos <= i < pos + |bytes| :: data[i] == bytes[i - pos];
    EncodingEndsAt(data, pos, pos, pos + |bytes|);
  }

  /** Every encoding of v in at most ten bytes reads back as v and is consumed whole. */
  lemma UnsignedReadsBack(v: nat, data: seq<Byte>, pos: nat, bytes: seq<Byte>)
    requires v < MODULUS && At(data, pos, bytes)
    requires IsEncoding(bytes) && |bytes| <= MAX_BYTES && UnsignedValue(bytes) == v
    ensures ReadUnsigned(data, pos) == Some((v, pos + |bytes|))
  {
    FindsEncoding(data, pos, bytes);
  }

  lemma SignedReadsBack(v: int, data: seq<Byte>, pos: nat, bytes: seq<Byte>)
    requires -(MODULUS / 2) <= v < MODULUS / 2 && At(data, pos, bytes)
    requires IsEncoding(bytes) && |bytes| <= MAX_BYTES && SignedValue(bytes) == v
    ensures ReadSigned(data, pos) == Some((v, pos + |bytes|))
  {
    FindsEncoding(data, pos, bytes);
    assert v < 0 ==> Low64(v + MODULUS) == v + MODULUS;
  }

  lemma EncodedLengths(v: nat, w: int)
    requires v < MODULUS && -(MODULUS / 2) <= w < MODULUS / 2
    ensures UnsignedValue(EncodeUnsigned(v)) == v && |EncodeUnsigned(v)| <= MAX_BYTES
    ensures SignedValue(EncodeSigned(w)) == w && |EncodeSigned(w)| <= MAX_BYTES
  {
    Pow2Of70();
    EncodeUnsignedValue(v, 9);
    Pow2Of64();
    EncodeSignedValue(w, 9);
  }

  /** Decoding inverts encoding for every 64-bit unsigned value, wherever it stands. */
  lemma UnsignedRoundTrip(v: nat, data: seq<Byte>, pos: nat)
    requires v < MODULUS && At(data, pos, EncodeUnsigned(v))
    ensures ReadUnsigned(data, pos) == Some((v, pos + |EncodeUnsigned(v)|))
  {
    EncodedLengths(v, 0);
    UnsignedReadsBack(v, data, pos, EncodeUnsigned(v));
  }

  /** Decoding inverts encoding for every 64-bit signed value, wherever it stands. */
  lemma SignedRoundTrip(v: int, data: seq<Byte>, pos: nat)
    requires -(MODULUS / 2) <= v < MODULUS / 2 && At(data, pos, EncodeSigned(v))
    ensures ReadSigned(data, pos) == Some((v, pos + |EncodeSigned(v)|))
  {
    EncodedLengths(0, v);
    SignedReadsBack(v, data, pos, EncodeSigned(v));
  }

  /** The same number one byte longer: the last byte is flagged and a filler follows. */
  function PadOnce(bytes: seq<Byte>, filler: Byte): seq<Byte>
    requires IsEncoding(bytes)
  {
    bytes[..|bytes| - 1] + [bytes[|bytes| - 1] + 128] + [filler]
  }

  lemma PaddedIsEncoding(bytes: seq<Byte>, filler: Byte)
    requires IsEncoding(bytes) && filler < 128
    ensures IsEncoding(PadOnce(bytes, filler))
  {
  }

  lemma {:induction false} PaddedValue(bytes: seq<Byte>, filler: Byte)
    requires IsEncoding(bytes) && filler < 128
    ensures UnsignedValue(PadOnce(bytes, filler)) == UnsignedValue(bytes) + filler * Pow2(7 * |bytes|)
    decreases |bytes|
  {
    var padded, rest := PadOnce(bytes, filler), bytes[1..];
    assert Payload(padded[0]) == Payload(bytes[0]);
    if |bytes| == 1 {
      PowersOf128(0);
      assert padded[1..] == [filler] && [filler][1..] == [] && rest == [];
      assert UnsignedValue([filler]) == filler;
    } else {
      PaddedValue(rest, filler);
      assert padded[1..] == PadOnce(rest, filler);
      ScaledPower(filler, |rest|);
    }
  }

  /** Redundant padding bytes change neither reading. */
  lemma PaddingIsIgnored(bytes: seq<Byte>)
    requires IsEncoding(bytes)
    ensures IsEncoding(PadOnce(bytes, 0)) && UnsignedValue(PadOnce(bytes, 0)) == UnsignedValue(bytes)
    ensures var fill: Byte := if Negative(bytes) then 127 else 0;
            IsEncoding(PadOnce(bytes, fill)) && SignedValue(PadOnce(bytes, fill)) == SignedValue(bytes)
  {
    PaddedIsEncoding(bytes, 0);
    PaddedIsEncoding(bytes, 127);
    PaddedValue(bytes, 0);
    PaddedValue(bytes, 127);
    PowersOf128(|bytes|);
  }

  /** A byte below 128 stands for itself. */
  lemma OneByteNumber(data: seq<Byte>, pos: nat)
    requires pos < |data| && data[pos] < 128
    ensures ReadUnsigned(data, pos) == Some((data[pos] as nat, pos + 1))
  {
    assert data[pos..pos + 1] == [data[pos]];
    assert [data[pos]][1..] == [];
    UnsignedReadsBack(data[pos], data, pos, [data[pos]]);
  }

  /** cursor::fixed_int: n bytes, least significant first. */
  function ReadFixed(data: seq<Byte>, pos: nat, n: nat): (r: Option<(nat, nat)>)
    ensures r.Some? <==> pos + n <= |data|
    ensures r.Some? ==> r.value.1 == pos + n
    decreases n
  {
    if pos + n > |data| then None
    else if n == 0 then Some((0, pos))
    else
      var rest := ReadFixed(data, pos + 1, n - 1);
      Some((data[pos] + 256 * rest.value.0, pos + n))
  }

  /** The number that bytes stand for, least significant first: each byte counts by its place. */
  function LittleEndian(bytes: seq<Byte>): nat {
    if bytes == [] then 0 else
    var n := |bytes| - 1;
    LittleEndian(bytes[..n]) + bytes[n] * Pow2(8 * n)
  }

  lemma {:induction false} LowByteFirst(bytes: seq<Byte>)
    requires bytes != []
    ensures LittleEndian(bytes) == bytes[0] + 256 * LittleEndian(bytes[1..])
    decreases |bytes|
  {
    var n := |bytes| - 1;
    if n == 0 {
      assert bytes[..0] == [] && bytes[1..] == [] && Pow2(8 * n) == 1;
    } else {
      LowByteFirst(bytes[..n]);
      assert bytes[..n][1..] == bytes[1..][..n - 1] && bytes[1..][n - 1] == bytes[n];
      ScaledByte(bytes[n], n - 1);
    }
  }

  lemma {:induction false} LittleEndianBound(bytes: seq<Byte>)
    ensures LittleEndian(bytes) < Pow2(8 * |bytes|)
  {
    if bytes != [] {
      var n := |bytes| - 1;
      LittleEndianBound(bytes[..n]);
      ScaledByte(1, n);
      TopByte(bytes[n], Pow2(8 * n));
    }
  }

  lemma TopByte(b: Byte, p: nat)
    ensures b * p + p <= 256 * p
  {
    assert b * p + p == (b + 1) * p;
  }

  lemma ScaledByte(x: nat, n: nat)
    ensures x * Pow2(8 * (n + 1)) == 256 * (x * Pow2(8 * n))
  {
    Pow2Add(4, 4);
    assert Pow2(4) == 16;
    Pow2Add(8, 8 * n);
    var p := Pow2(8 * n);
    assert x * (256 * p) == 256 * (x * p);
  }

  /** cursor::fixed_int reads the number in its bytes. */
  lemma {:induction false} FixedIsLittleEndian(data: seq<Byte>, pos: nat, n: nat)
    requires pos + n <= |data|
    ensures ReadFixed(data, pos, n) == Some((LittleEndian(data[pos..pos + n]), pos + n))
    decreases n
  {
    if n > 0 {
      FixedIsLittleEndian(data, pos + 1, n - 1);
      LowByteFirst(data[pos..pos + n]);
      assert data[pos..pos + n][1..] == data[pos + 1..pos + n];
    }
  }
}
