/**
  The inferior's memory as ptrace and process_vm_readv show it, and the loops of
  gsdb::process::read_memory and write_memory.  A 64-bit word is its eight
  bytes, lowest address first.
 */
module Memory {
  type Byte = b: int | 0 <= b < 256

  /** The mapped bytes. */
  type Space = map<nat, Byte>

  const PAGE: nat := 0x1000
  /** Addresses and machine words are 64 bits wide. */
  const MODULUS: nat := 0x1_0000_0000_0000_0000
  type Address = x: nat | x < MODULUS

  /** User mappings of x86-64 lie below this address. */
  const USER_END: nat := 0x8000_0000_0000

  datatype Result<T> = Ok(value: T) | Err

  /** Mappings are made of whole pages of user space. */
  ghost predicate WholePages(m: Space) {
    && (forall a | a in m :: a < USER_END)
    && (forall a: nat, b: nat | a in m && b / PAGE == a / PAGE :: b in m)
  }

  predicate Mapped(m: Space, a: nat, len: nat) {
    forall x: nat | a <= x < a + len :: x in m
  }

  function Slice(m: Space, a: nat, len: nat): (s: seq<Byte>)
    requires Mapped(m, a, len)
  {
    seq(len, i requires 0 <= i < len => m[a + i])
  }

  /** The next address; the last one of the 64-bit space wraps to zero. */
  function Advance(a: nat, len: nat): nat {
    if a + len == MODULUS then 0 else a + len
  }

  function Zeros(n: nat): (s: seq<Byte>)
    ensures |s| == n && forall i | 0 <= i < n :: s[i] == 0
  {
    seq(n, i => 0)
  }

  /**
    Reading byte by byte: what memory holds up to the first unmapped byte, and
    zeros, the buffer's initial content, from there on.
   */
  function ReadBytes(m: Space, a: nat, n: nat): (s: seq<Byte>)
    ensures |s| == n
    decreases n
  {
    if n == 0 then [] else if a !in m then Zeros(n)
    else [m[a]] + ReadBytes(m, Advance(a, 1), n - 1)
  }

  /** One element of the remote I/O vector. */
  datatype Chunk = Chunk(base: nat, len: nat)

  /** Non-empty chunks, each inside a page, that lead from a over n bytes to end. */
  ghost predicate Tiles(chunks: seq<Chunk>, a: nat, n: nat, end: nat) {
    if chunks == [] then n == 0 && a == end else
      && chunks[0].base == a && 0 < chunks[0].len <= n
      && a % PAGE + chunks[0].len <= PAGE
      && Tiles(chunks[1..], Advance(a, chunks[0].len), n - chunks[0].len, end)
  }

  /** process_vm_readv: whole chunks are copied until the first that faults. */
  function Gather(m: Space, chunks: seq<Chunk>): seq<Byte> {
    if chunks == [] || !Mapped(m, chunks[0].base, chunks[0].len) then []
    else Slice(m, chunks[0].base, chunks[0].len) + Gather(m, chunks[1..])
  }

  lemma {:induction false} TilesAppend(chunks: seq<Chunk>, a: nat, n: nat, c: Chunk)
    requires Tiles(chunks, a, n, c.base)
    requires 0 < c.len && c.base % PAGE + c.len <= PAGE
    ensures Tiles(chunks + [c], a, n + c.len, Advance(c.base, c.len))
    decreases chunks
  {
    if chunks == [] {
      assert [c][1..] == [];
    } else {
      TilesAppend(chunks[1..], Advance(a, chunks[0].len), n - chunks[0].len, c);
      assert (chunks + [c])[1..] == chunks[1..] + [c];
    }
  }

  /** A chunk inside one page is mapped as soon as its first byte is. */
  lemma ChunkAllOrNothing(m: Space, a: nat, len: nat)
    requires WholePages(m) && a < MODULUS && 0 < len && a % PAGE + len <= PAGE
    ensures a + len <= MODULUS
    ensures Mapped(m, a, len) <==> a in m
  {
    if a in m {
      forall x: nat | a <= x < a + len ensures x in m {
        assert x / PAGE == a / PAGE;
      }
    }
  }

  lemma {:induction false} ReadBytesSplit(m: Space, a: nat, len: nat, n: nat)
    requires Mapped(m, a, len) && len <= n && a < MODULUS && a + len <= MODULUS
    ensures ReadBytes(m, a, n) == Slice(m, a, len) + ReadBytes(m, if len == 0 then a else Advance(a, len), n - len)
    decreases len
  {
    if len == 0 {
    } else if len == 1 {
      assert Slice(m, a, 1) == [m[a]];
    } else {
      ReadBytesSplit(m, a + 1, len - 1, n - 1);
      assert Slice(m, a, len) == [m[a]] + Slice(m, a + 1, len - 1);
    }
  }

  /** Gathering page-bounded chunks is the same as reading byte by byte. */
  lemma {:induction false} GatherIsReadBytes(m: Space, chunks: seq<Chunk>, a: nat, n: nat, end: nat)
    requires WholePages(m) && a < MODULUS && Tiles(chunks, a, n, end)
    ensures |Gather(m, chunks)| <= n
    ensures Gather(m, chunks) + Zeros(n - |Gather(m, chunks)|) == ReadBytes(m, a, n)
    decreases chunks
  {
    if chunks != [] {
      var c := chunks[0];
      ChunkAllOrNothing(m, a, c.len);
      if a in m {
        GatherIsReadBytes(m, chunks[1..], Advance(a, c.len), n - c.len, end);
        ReadBytesSplit(m, a, c.len, n);
      }
    }
  }

  /** Inside a page, going on from a chunk wraps around at most to zero. */
  lemma AdvanceWraps(at: nat, len: nat)
    requires at < MODULUS && at % PAGE + len <= PAGE
    ensures (at + len) % MODULUS == Advance(at, len) < MODULUS
  {
    assert at + len <= MODULUS;
  }

  lemma NoWrap(x: nat)
    requires x < MODULUS
    ensures x % MODULUS == x
  {
  }

  /** The loop of read_memory: the request in non-empty chunks, in order, none across a page boundary. */
  method SplitAtPages(address: nat, amount: nat) returns (chunks: seq<Chunk>, end: nat)
    requires address < MODULUS
    ensures Tiles(chunks, address, amount, end)
  {
    chunks := [];
    var at: nat, left: nat := address, amount;
    while left > 0
      invariant left <= amount && at < MODULUS
      invariant Tiles(chunks, address, amount - left, at)
    {
      var upToNextPage := PAGE - at % PAGE;
      var len := if left < upToNextPage then left else upToNextPage;
      TilesAppend(chunks, address, amount - left, Chunk(at, len));
      AdvanceWraps(at, len);
      chunks := chunks + [Chunk(at, len)];
      left := left - len;
      at := (at + len) % MODULUS;
    }
    end := at;
  }

  /** read_memory. */
  method ReadMemory(m: Space, address: nat, amount: nat) returns (r: Result<seq<Byte>>)
    requires WholePages(m) && address < MODULUS
    ensures r.Err? <==> amount > 0 && address !in m
    ensures r.Ok? ==> r.value == ReadBytes(m, address, amount)
  {
    var chunks, end;
    chunks, end := SplitAtPages(address, amount);
    GatherIsReadBytes(m, chunks, address, amount, end);
    if chunks != [] {
      ChunkAllOrNothing(m, address, chunks[0].len);
      if !Mapped(m, chunks[0].base, chunks[0].len) {
        return Err;
      }
    }
    var read := Gather(m, chunks);
    return Ok(read + Zeros(amount - |read|));
  }

  /** The memory with exactly the bytes of data placed at a. */
  function Stored(m: Space, a: nat, data: seq<Byte>): (m': Space)
    ensures m'.Keys == m.Keys
    ensures forall x | x in m :: m'[x] == if a <= x < a + |data| then data[x - a] else m[x]
  {
    map x | x in m :: if a <= x < a + |data| then data[x - a] else m[x]
  }

  function RoundUpToWord(n: nat): nat {
    (n + 7) / 8 * 8
  }

  lemma WordsUpTo(n: nat, w: nat)
    requires w % 8 == 0
    ensures w < n ==> w + 8 <= RoundUpToWord(n)
    ensures n <= w < n + 8 ==> w == RoundUpToWord(n)
  {
  }

  /** Poking a word whose bytes past the data are the old ones extends the stored prefix. */
  lemma StoreOneMoreWord(m: Space, a: nat, data: seq<Byte>, w: nat, word: seq<Byte>)
    requires w < |data| && |word| == 8 && Mapped(m, a + w, 8)
    requires forall i: nat | i < 8 ::
               word[i] == if w + i < |data| then data[w + i] else m[a + w + i]
    ensures Stored(Stored(m, a, data[..w]), a + w, word)
            == Stored(m, a, data[..if w + 8 < |data| then w + 8 else |data|])
  {
    var n := if w + 8 < |data| then w + 8 else |data|;
    forall x | x in m
      ensures Stored(Stored(m, a, data[..w]), a + w, word)[x] == Stored(m, a, data[..n])[x]
    {
      if a + w <= x < a + w + 8 {
        var i := x - a - w;
        assert word[i] == if w + i < |data| then data[w + i] else m[a + w + i];
      }
    }
  }

  /** The word write_memory pokes at a: eight bytes of data, or the tail and what follows it. */
  method ComposeWord(m: Space, at: nat, rest: seq<Byte>) returns (r: Result<seq<Byte>>)
    requires WholePages(m) && at < MODULUS && rest != []
    ensures r.Err? ==> !Mapped(m, at, 8)
    ensures r.Ok? ==> |r.value| == 8
    ensures r.Ok? && Mapped(m, at, 8) ==>
              forall i: nat | i < 8 :: r.value[i] == if i < |rest| then rest[i] else m[at + i]
  {
    var remaining := |rest|;
    if remaining >= 8 {
      return Ok(rest[..8]);
    }
    r := ReadMemory(m, at, 8);
    if r.Err? {
      return;
    }
    if Mapped(m, at, 8) {
      assert at + 7 in m;
      ReadBytesSplit(m, at, 8, 8);
    }
    return Ok(rest + r.value[remaining..]);
  }

  /** One round of write_memory: the word at `at` is composed and poked. */
  method PokeWord(cur: Space, at: nat, rest: seq<Byte>,
                  ghost m: Space, ghost address: nat, ghost data: seq<Byte>, ghost written: nat)
    returns (r: Result<Space>)
    requires WholePages(m) && written < |data| && rest == data[written..] && at == address + written < MODULUS
    requires cur == Stored(m, address, data[..written])
    ensures r.Err? <==> !Mapped(m, at, 8)
    ensures r.Ok? ==> r.value == Stored(m, address, data[..if written + 8 < |data| then written + 8 else |data|])
  {
    var word := ComposeWord(cur, at, rest);
    if word.Err? || !Mapped(cur, at, 8) {
      return Err;
    }
    StoreOneMoreWord(m, address, data, written, word.value);
    return Ok(Stored(cur, at, word.value));
  }

  /**
    write_memory: whole words are poked; a shorter tail is completed with the
    bytes already there.  The write goes through exactly when every word it
    touches is mapped, and a refused write leaves a prefix of whole words.
   */
  method WriteMemory(m: Space, address: nat, data: seq<Byte>) returns (m': Space, ok: bool)
    requires WholePages(m) && address < MODULUS
    ensures ok <==> Mapped(m, address, RoundUpToWord(|data|))
    ensures ok ==> m' == Stored(m, address, data)
    ensures !ok ==> exists k | 0 <= k < |data| && k % 8 == 0 :: m' == Stored(m, address, data[..k])
  {
    m' := m;
    var written: nat := 0;
    ghost var done := 0;
    while written < |data|
      invariant written % 8 == 0 && done == if written < |data| then written else |data|
      invariant written <= RoundUpToWord(|data|) && Mapped(m, address, written)
      invariant m' == Stored(m, address, data[..done])
    {
      WordsUpTo(|data|, written);
      assert written > 0 ==> address + written - 1 in m;
      NoWrap(address + written);
      var next := PokeWord(m', (address + written) % MODULUS, data[written..], m, address, data, written);
      if next.Err? {
        return m', false;
      }
      m', written := next.value, written + 8;
      done := if written < |data| then written else |data|;
    }
    WordsUpTo(|data|, written);
    assert data[..done] == data;
    ok := true;
  }

  /** What was written is what a read gives back. */
  lemma ReadBack(m: Space, a: nat, data: seq<Byte>)
    requires WholePages(m) && a < MODULUS && Mapped(m, a, |data|)
    ensures ReadBytes(Stored(m, a, data), a, |data|) == data
  {
    var m' := Stored(m, a, data);
    if data != [] {
      assert a + |data| - 1 in m;
    }
    ReadBytesSplit(m', a, |data|, |data|);
    assert Slice(m', a, |data|) == data;
  }
}
