/** Streaming SHA-256, against the hash of FIPS 180-4. */
module Sha256 {
  import opened Bytes

  type Word = bv32

  const BLOCK := 64
  const ROUNDS := 64

  // ---- Section 4.1.2: the logical functions ----

  function RotateRight(value: Word, amount: nat): Word
    requires 0 < amount < 32
  {
    (value >> amount) | (value << (32 - amount))
  }

  function Choose(x: Word, y: Word, z: Word): Word { (x & y) ^ (!x & z) }

  function Majority(x: Word, y: Word, z: Word): Word { (x & y) ^ (x & z) ^ (y & z) }

  function Sigma0(v: Word): Word { RotateRight(v, 2) ^ RotateRight(v, 13) ^ RotateRight(v, 22) }

  function Sigma1(v: Word): Word { RotateRight(v, 6) ^ RotateRight(v, 11) ^ RotateRight(v, 25) }

  function Gamma0(v: Word): Word { RotateRight(v, 7) ^ RotateRight(v, 18) ^ (v >> 3) }

  function Gamma1(v: Word): Word { RotateRight(v, 17) ^ RotateRight(v, 19) ^ (v >> 10) }

  // ---- Section 4.2.2: the constants ----

  function K(t: nat): Word
    requires t < ROUNDS
  {
    [
      [0x428a2f98, 0x71374491, 0xb5c0fbcf, 0xe9b5dba5, 0x3956c25b, 0x59f111f1, 0x923f82a4, 0xab1c5ed5],
      [0xd807aa98, 0x12835b01, 0x243185be, 0x550c7dc3, 0x72be5d74, 0x80deb1fe, 0x9bdc06a7, 0xc19bf174],
      [0xe49b69c1, 0xefbe4786, 0x0fc19dc6, 0x240ca1cc, 0x2de92c6f, 0x4a7484aa, 0x5cb0a9dc, 0x76f988da],
      [0x983e5152, 0xa831c66d, 0xb00327c8, 0xbf597fc7, 0xc6e00bf3, 0xd5a79147, 0x06ca6351, 0x14292967],
      [0x27b70a85, 0x2e1b2138, 0x4d2c6dfc, 0x53380d13, 0x650a7354, 0x766a0abb, 0x81c2c92e, 0x92722c85],
      [0xa2bfe8a1, 0xa81a664b, 0xc24b8b70, 0xc76c51a3, 0xd192e819, 0xd6990624, 0xf40e3585, 0x106aa070],
      [0x19a4c116, 0x1e376c08, 0x2748774c, 0x34b0bcb5, 0x391c0cb3, 0x4ed8aa4a, 0x5b9cca4f, 0x682e6ff3],
      [0x748f82ee, 0x78a5636f, 0x84c87814, 0x8cc70208, 0x90befffa, 0xa4506ceb, 0xbef9a3f7, 0xc67178f2]
    ][t / 8][t % 8]
  }

  // ---- Section 6.2.2: the hash computation ----

  datatype Hash = Hash(a: Word, b: Word, c: Word, d: Word, e: Word, f: Word, g: Word, h: Word)

  const INITIAL := Hash(0x6a09e667, 0xbb67ae85, 0x3c6ef372, 0xa54ff53a, 0x510e527f, 0x9b05688c, 0x1f83d9ab, 0x5be0cd19)

  function BigEndian(b0: Byte, b1: Byte, b2: Byte, b3: Byte): Word {
    (b0 as bv8 as Word << 24) | (b1 as bv8 as Word << 16) | (b2 as bv8 as Word << 8) | b3 as bv8 as Word
  }

  function Extend(w2: Word, w7: Word, w15: Word, w16: Word): Word { Gamma1(w2) + w7 + Gamma0(w15) + w16 }

  /** Word `t` of the message schedule. */
  function Schedule(block: seq<Byte>, t: nat): Word
    requires |block| == BLOCK
  {
    if t < 16 then BigEndian(block[4 * t], block[4 * t + 1], block[4 * t + 2], block[4 * t + 3])
    else Extend(Schedule(block, t - 2), Schedule(block, t - 7), Schedule(block, t - 15), Schedule(block, t - 16))
  }

  function Temp1(e: Word, f: Word, g: Word, h: Word, k: Word, w: Word): Word { h + Sigma1(e) + Choose(e, f, g) + k + w }

  function Temp2(a: Word, b: Word, c: Word): Word { Sigma0(a) + Majority(a, b, c) }

  function Plus(x: Word, y: Word): Word { x + y }

  function Round(s: Hash, k: Word, w: Word): Hash {
    var t1, t2 := Temp1(s.e, s.f, s.g, s.h, k, w), Temp2(s.a, s.b, s.c);
    Hash(Plus(t1, t2), s.a, s.b, s.c, Plus(s.d, t1), s.e, s.f, s.g)
  }

  function Rounds(s: Hash, block: seq<Byte>, t: nat): Hash
    requires |block| == BLOCK && t <= ROUNDS
  {
    if t == 0 then s else Round(Rounds(s, block, t - 1), K(t - 1), Schedule(block, t - 1))
  }

  function Add(x: Hash, y: Hash): Hash {
    Hash(Plus(x.a, y.a), Plus(x.b, y.b), Plus(x.c, y.c), Plus(x.d, y.d),
         Plus(x.e, y.e), Plus(x.f, y.f), Plus(x.g, y.g), Plus(x.h, y.h))
  }

  function Compress(s: Hash, block: seq<Byte>): Hash
    requires |block| == BLOCK
  {
    Add(s, Rounds(s, block, ROUNDS))
  }

  /** The hash value after all the blocks of `bytes`. */
  function HashBlocks(bytes: seq<Byte>): Hash
    requires |bytes| % BLOCK == 0
  {
    if bytes == [] then INITIAL
    else Compress(HashBlocks(bytes[..|bytes| - BLOCK]), bytes[|bytes| - BLOCK..])
  }

  // ---- Section 5.1.1: padding ----

  function Zeros(n: nat): (s: seq<Byte>)
    ensures |s| == n && forall i :: 0 <= i < n ==> s[i] == 0
  {
    if n == 0 then [] else Zeros(n - 1) + [0]
  }

  /** The least number of zero bytes that leaves room for the length at the end of a block. */
  function ZeroCount(length: nat): nat { (55 - length) % BLOCK }

  /** The padded message fills whole blocks, and no shorter run of zeros would do. */
  lemma ZeroCountIsLeast(length: nat, k: nat)
    ensures (length + 1 + ZeroCount(length) + 8) % BLOCK == 0
    ensures (length + 1 + k + 8) % BLOCK == 0 ==> k >= ZeroCount(length)
  {
  }

  /** The length in bits as a big-endian 64-bit number; FIPS 180-4 admits lengths below 2^64 bits. */
  function LengthField(length: nat): (s: seq<Byte>)
    ensures |s| == 8
  {
    Reverse(ToLe(Bits(length), 8))
  }

  /** `length` bytes in bits, as a 64-bit counter has it. */
  function Bits(length: nat): Word64 { 8 * length % 0x1_0000_0000_0000_0000 }

  lemma BitsAdd(m: nat, n: nat)
    ensures (Bits(m) + 8 * n) % 0x1_0000_0000_0000_0000 == Bits(m + n)
  {
  }

  function Reverse(s: seq<Byte>): (r: seq<Byte>)
    ensures |r| == |s| && forall i :: 0 <= i < |s| ==> r[i] == s[|s| - 1 - i]
  {
    seq(|s|, i requires 0 <= i < |s| => s[|s| - 1 - i])
  }

  function Pad(message: seq<Byte>): (s: seq<Byte>)
    ensures |s| == |message| + 1 + ZeroCount(|message|) + 8
    ensures |s| % BLOCK == 0
  {
    ZeroCountIsLeast(|message|, 0);
    message + [0x80] + Zeros(ZeroCount(|message|)) + LengthField(|message|)
  }

  /** Two messages within the limit of FIPS 180-4 never share a padded form. */
  lemma PadIsInjective(x: seq<Byte>, y: seq<Byte>)
    requires 8 * |x| < 0x1_0000_0000_0000_0000 && 8 * |y| < 0x1_0000_0000_0000_0000
    requires Pad(x) == Pad(y)
    ensures x == y
  {
    var p := Pad(x);
    assert p[|p| - 8..] == LengthField(|x|) && p[|p| - 8..] == LengthField(|y|);
    LengthReadsBack(|x|);
    LengthReadsBack(|y|);
    assert p[..|x|] == x && p[..|y|] == y;
  }

  lemma LengthReadsBack(length: nat)
    requires 8 * length < 0x1_0000_0000_0000_0000
    ensures FromLe(Reverse(LengthField(length))) == 8 * length
  {
    hide ToLe, FromLe, Pow256;
    assert Reverse(LengthField(length)) == ToLe(8 * length, 8);
    Pow256Values();
    DecodeEncodeLe(8 * length, 8);
  }

  /** The byte of `w` that starts `shift` bits up. */
  function ByteOf(w: Word, shift: nat): Byte
    requires shift <= 24
  {
    ((w >> shift) & 0xff) as bv8 as int
  }

  function WordBytes(w: Word): seq<Byte> { [ByteOf(w, 24), ByteOf(w, 16), ByteOf(w, 8), ByteOf(w, 0)] }

  function Digest(s: Hash): seq<Byte> {
    WordBytes(s.a) + WordBytes(s.b) + WordBytes(s.c) + WordBytes(s.d) + WordBytes(s.e) + WordBytes(s.f) + WordBytes(s.g) + WordBytes(s.h)
  }

  function Sha256(message: seq<Byte>): seq<Byte> { Digest(HashBlocks(Pad(message))) }

  lemma HashBlocksAppend(bytes: seq<Byte>, block: seq<Byte>)
    requires |bytes| % BLOCK == 0 && |block| == BLOCK
    ensures HashBlocks(bytes + block) == Compress(HashBlocks(bytes), block)
  {
    assert (bytes + block)[..|bytes|] == bytes && (bytes + block)[|bytes|..] == block;
  }

  /** The whole blocks of a message, and what is left after them. */
  function Whole(message: seq<Byte>): (s: seq<Byte>)
    ensures |s| % BLOCK == 0
  {
    message[..|message| / BLOCK * BLOCK]
  }

  function Tail(message: seq<Byte>): (s: seq<Byte>)
    ensures |s| == |message| % BLOCK
    ensures Whole(message) + s == message
  {
    message[|message| / BLOCK * BLOCK..]
  }

  lemma WholeAndTail(whole: seq<Byte>, tail: seq<Byte>)
    requires |whole| % BLOCK == 0 && |tail| < BLOCK
    ensures Whole(whole + tail) == whole && Tail(whole + tail) == tail
  {
    assert |whole + tail| / BLOCK * BLOCK == |whole|;
  }

  /** What buffering does to the hash: a full buffer is compressed, a partial one waits. */
  lemma Absorb(message: seq<Byte>, chunk: seq<Byte>)
    ensures |Tail(message)| + |chunk| < BLOCK ==>
      && Whole(message + chunk) == Whole(message)
      && Tail(message + chunk) == Tail(message) + chunk
    ensures |Tail(message)| + |chunk| == BLOCK ==>
      && HashBlocks(Whole(message + chunk)) == Compress(HashBlocks(Whole(message)), Tail(message) + chunk)
      && Tail(message + chunk) == []
  {
    hide Compress, HashBlocks, Whole, Tail;
    var tail := Tail(message) + chunk;
    assert Whole(message) + tail == message + chunk;
    if |tail| < BLOCK {
      WholeAndTail(Whole(message), tail);
    } else if |tail| == BLOCK {
      HashBlocksAppend(Whole(message), tail);
      WholeAndTail(Whole(message) + tail, []);
      assert Whole(message) + tail + [] == Whole(message) + tail;
    }
  }

  /** The last one or two blocks that padding makes. */
  lemma PadBlocks(message: seq<Byte>)
    ensures var start := Tail(message) + [0x80];
            var state := HashBlocks(Whole(message));
            HashBlocks(Pad(message)) ==
              if |start| <= 56 then Compress(state, start + Zeros(56 - |start|) + LengthField(|message|))
              else Compress(Compress(state, start + Zeros(BLOCK - |start|)), Zeros(56) + LengthField(|message|))
  {
    hide Compress, HashBlocks, LengthField, Zeros, Whole, Tail;
    var whole := Whole(message);
    var start := Tail(message) + [0x80];
    var field := LengthField(|message|);
    if |start| <= 56 {
      assert ZeroCount(|message|) == 56 - |start|;
      assert Pad(message) == whole + (start + Zeros(56 - |start|) + field);
      HashBlocksAppend(whole, start + Zeros(56 - |start|) + field);
    } else {
      assert ZeroCount(|message|) == 120 - |start|;
      assert Zeros(120 - |start|) == Zeros(64 - |start|) + Zeros(56);
      assert Pad(message) == whole + (start + Zeros(64 - |start|)) + (Zeros(56) + field);
      HashBlocksAppend(whole, start + Zeros(64 - |start|));
      HashBlocksAppend(whole + (start + Zeros(64 - |start|)), Zeros(56) + field);
    }
  }

  // ---- The streaming context ----

  method BuildSchedule(block: array<Byte>) returns (words: array<Word>)
    requires block.Length == BLOCK
    ensures fresh(words) && words.Length == ROUNDS
    ensures forall j :: 0 <= j < ROUNDS ==> words[j] == Schedule(block[..], j)
  {
    hide Extend, BigEndian;
    words := new Word[ROUNDS];
    LoadWords(block[..], words);
    for index := 16 to ROUNDS
      invariant forall j :: 0 <= j < index ==> words[j] == Schedule(block[..], j)
    {
      words[index] := Extend(words[index - 2], words[index - 7], words[index - 15], words[index - 16]);
    }
  }

  /** The block's own sixteen words. */
  method LoadWords(block: seq<Byte>, words: array<Word>)
    requires |block| == BLOCK && words.Length == ROUNDS
    modifies words
    ensures forall j :: 0 <= j < 16 ==> words[j] == Schedule(block, j)
  {
    hide BigEndian;
    for index := 0 to 16
      invariant forall j :: 0 <= j < index ==> words[j] == Schedule(block, j)
    {
      words[index] := BigEndian(block[4 * index], block[4 * index + 1], block[4 * index + 2], block[4 * index + 3]);
    }
  }

  method RunRounds(state: Hash, ghost bytes: seq<Byte>, words: array<Word>) returns (r: Hash)
    requires |bytes| == BLOCK && words.Length == ROUNDS
    requires forall j :: 0 <= j < ROUNDS ==> words[j] == Schedule(bytes, j)
    ensures r == Rounds(state, bytes, ROUNDS)
  {
    hide Temp1, Temp2, Plus, Schedule, K;
    var a, b, c, d := state.a, state.b, state.c, state.d;
    var e, f, g, h := state.e, state.f, state.g, state.h;
    for index := 0 to ROUNDS
      invariant Hash(a, b, c, d, e, f, g, h) == Rounds(state, bytes, index)
    {
      var t1 := Temp1(e, f, g, h, K(index), words[index]);
      var t2 := Temp2(a, b, c);
      h, g, f, e := g, f, e, Plus(d, t1);
      d, c, b, a := c, b, a, Plus(t1, t2);
    }
    r := Hash(a, b, c, d, e, f, g, h);
  }

  class Context {
    var state: Hash
    var bitCount: Word64
    var block: array<Byte>
    var blockSize: nat
    ghost var taken: seq<Byte>

    /** Exactly `taken` has been taken in: its whole blocks are hashed and the rest is buffered. */
    ghost predicate Valid()
      reads this, block
    {
      && Buffers(taken)
      && bitCount == Bits(|taken|)
    }

    ghost predicate Buffers(message: seq<Byte>)
      reads this, block
    {
      && block.Length == BLOCK
      && blockSize == |Tail(message)|
      && state == HashBlocks(Whole(message))
      && block[..blockSize] == Tail(message)
    }

    constructor ()
      ensures Valid() && taken == [] && fresh(block)
    {
      state, bitCount, blockSize, taken := INITIAL, 0, 0, [];
      block := new Byte[BLOCK](_ => 0);
    }

    method Transform()
      requires block.Length == BLOCK
      modifies this`state
      ensures state == Compress(old(state), block[..])
    {
      hide Rounds, Schedule, Add;
      var words := BuildSchedule(block);
      var r := RunRounds(state, block[..], words);
      state := Add(state, r);
    }

    method Update(data: seq<Byte>)
      requires Valid()
      modifies this, block
      ensures Valid() && block == old(block) && taken == old(taken) + data
    {
      hide Compress, HashBlocks, Bits, Whole, Tail;
      BitsAdd(|taken|, |data|);
      bitCount := (bitCount + 8 * |data|) % 0x1_0000_0000_0000_0000;
      var done := 0;
      while done < |data|
        invariant 0 <= done <= |data|
        invariant block == old(block) && Buffers(taken) && taken == old(taken) + data[..done]
        invariant bitCount == Bits(|old(taken)| + |data|)
      {
        done := TakeChunk(data, done);
      }
      assert data[..done] == data;
    }

    /** One turn of the copying loop: as much as the block has room for. */
    method TakeChunk(data: seq<Byte>, done: nat) returns (next: nat)
      requires Buffers(taken) && done < |data|
      modifies this`state, this`blockSize, this`taken, block
      ensures Buffers(taken) && done < next <= |data| && taken == old(taken) + data[done..next]
    {
      hide Compress, HashBlocks, Whole, Tail;
      var available := BLOCK - blockSize;
      var copied := if |data| - done < available then |data| - done else available;
      next := done + copied;
      var chunk := data[done..next];
      Store(block, blockSize, chunk);
      assert block[..blockSize + copied] == Tail(taken) + chunk;
      Absorb(taken, chunk);
      blockSize := blockSize + copied;
      taken := taken + chunk;
      if blockSize == BLOCK {
        assert block[..] == block[..blockSize];
        Transform();
        blockSize := 0;
      }
      assert taken == old(taken) + data[done..next];
    }

    method FillZeros(limit: nat)
      requires block.Length == BLOCK && blockSize <= limit <= BLOCK
      modifies this`blockSize, block
      ensures blockSize == limit
      ensures block[..limit] == old(block[..blockSize]) + Zeros(limit - old(blockSize))
    {
      while blockSize < limit
        invariant old(blockSize) <= blockSize <= limit
        invariant block[..blockSize] == old(block[..blockSize]) + Zeros(blockSize - old(blockSize))
      {
        block[blockSize] := 0;
        blockSize := blockSize + 1;
      }
    }

    /** The mark behind the message; when it leaves no room for the length, the block is filled and hashed. */
    method Mark()
      requires Valid()
      modifies this`state, this`blockSize, block
      ensures var start := Tail(taken) + [0x80];
        && blockSize <= 56
        && (if |start| <= 56 then state == old(state) && block[..blockSize] == start
            else state == Compress(old(state), start + Zeros(BLOCK - |start|)) && blockSize == 0)
    {
      hide Compress, HashBlocks, Zeros, Bits, Whole, Tail;
      ghost var start := Tail(taken) + [0x80];
      block[blockSize] := 0x80;
      blockSize := blockSize + 1;
      assert block[..blockSize] == start;
      if blockSize > 56 {
        FillZeros(BLOCK);
        assert block[..] == start + Zeros(BLOCK - |start|);
        Transform();
        blockSize := 0;
      }
    }

    method Finish() returns (digest: seq<Byte>)
      requires Valid()
      modifies this, block
      ensures digest == Sha256(old(taken))
    {
      hide Compress, HashBlocks, Zeros, LengthField, Digest, Bits, Whole, Tail;
      PadBlocks(taken);
      ghost var start := Tail(taken) + [0x80];
      Mark();
      FillZeros(56);
      assert block[..56] == if |start| <= 56 then start + Zeros(56 - |start|) else Zeros(56);
      StoreLength();
      Transform();
      digest := Digest(state);
    }

    /** The bit count, most significant byte first, at the end of the block. */
    method StoreLength()
      requires block.Length == BLOCK && bitCount == Bits(|taken|)
      modifies block
      ensures block[..] == old(block[..56]) + LengthField(|taken|)
    {
      var bytes := ToLe(bitCount, 8);
      for index := 0 to 8
        invariant block[..56] == old(block[..56])
        invariant forall k :: 0 <= k < index ==> block[63 - k] == bytes[k]
      {
        block[63 - index] := bytes[index];
      }
    }
  }

  const BUFFER := 4096

  /** The digest of a file read through a buffer; a short read is the end of the file. */
  method HashFile(file: seq<Byte>) returns (digest: seq<Byte>)
    ensures digest == Sha256(file)
  {
    hide Sha256, HashBlocks, Context.Valid;
    var context := new Context();
    var position, count := 0, BUFFER;
    while count == BUFFER
      invariant 0 <= position <= |file| && count <= BUFFER
      invariant context.Valid() && context.taken == file[..position]
      invariant fresh(context) && fresh(context.block)
      invariant count < BUFFER ==> position == |file|
      decreases |file| - position, count
    {
      count := if |file| - position < BUFFER then |file| - position else BUFFER;
      if count > 0 {
        context.Update(file[position..position + count]);
      }
      position := position + count;
    }
    assert file[..position] == file;
    digest := context.Finish();
  }
}
