/** AES in counter mode, as zb8_crypto.c and the sector copy of zb8_move.c use it. The block
    cipher itself is a parameter. */
module ZbCtr {
  import opened FlashBytes

  type octet = x: int | 0 <= x < 256

  /** AES_BLOCK_SIZE */
  const BLOCK: nat := 16

  /** A key, as the block cipher under it (output byte `j` for a counter block), and the
      first counter block. */
  datatype Key = Key(block: (seq<octet>, nat) -> byte, nonce: seq<octet>)

  // The counter

  /** The counter after one carry chain over its bytes, the last byte first. */
  function Inc(c: seq<octet>): (r: seq<octet>)
    ensures |r| == |c|
  {
    if c == [] then []
    else
      var n := |c| - 1;
      if c[n] == 255 then Inc(c[..n]) + [0] else c[..n] + [c[n] + 1]
  }

  function IncBy(c: seq<octet>, k: nat): (r: seq<octet>)
    ensures |r| == |c|
  {
    if k == 0 then c else Inc(IncBy(c, k - 1))
  }

  ghost function Pow256(n: nat): (r: nat)
    ensures r > 0
  {
    if n == 0 then 1 else 256 * Pow256(n - 1)
  }

  /** The number the bytes stand for, most significant first. */
  ghost function Num(c: seq<octet>): (r: nat)
    ensures r < Pow256(|c|)
  {
    if c == [] then 0 else
      assert Num(c[..|c| - 1]) <= Pow256(|c| - 1) - 1;
      256 * Num(c[..|c| - 1]) + c[|c| - 1]
  }

  /** The carry chain is addition modulo 2^(8n); section 6.5 of NIST SP 800-38A. */
  lemma {:induction false} IncIsSuccessor(c: seq<octet>)
    ensures Num(Inc(c)) == (if Num(c) + 1 == Pow256(|c|) then 0 else Num(c) + 1)
  {
    if c != [] {
      var n := |c| - 1;
      var r := Inc(c);
      if c[n] == 255 {
        IncIsSuccessor(c[..n]);
        assert r[..n] == Inc(c[..n]);
      } else {
        assert r[..n] == c[..n];
      }
    }
  }

  lemma {:induction false} IncByIsAddition(c: seq<octet>, k: nat)
    ensures Num(IncBy(c, k)) == (Num(c) + k) % Pow256(|c|)
  {
    var m := Pow256(|c|);
    if k == 0 {
      SmallMod(Num(c), m);
    } else {
      IncByIsAddition(c, k - 1);
      IncIsSuccessor(IncBy(c, k - 1));
      NextMod(Num(c) + k - 1, m);
    }
  }

  lemma SmallMod(x: nat, m: nat)
    requires x < m
    ensures x % m == x
  {
  }

  lemma NextMod(x: nat, m: nat)
    requires m > 0
    ensures (x + 1) % m == if x % m + 1 == m then 0 else x % m + 1
  {
    var q, r := x / m, x % m;
    assert x == q * m + r;
    if r + 1 == m {
      assert x + 1 == (q + 1) * m;
      ModOf(q + 1, 0, m);
    } else {
      ModOf(q, r + 1, m);
    }
  }

  lemma {:induction false} IncByMore(c: seq<octet>, a: nat, b: nat)
    ensures IncBy(IncBy(c, a), b) == IncBy(c, a + b)
  {
    hide Inc;
    if b > 0 {
      IncByMore(c, a, b - 1);
    }
  }

  // The key stream

  /** Byte `i` of the key stream that starts at counter block `c`. */
  function StreamByte(block: (seq<octet>, nat) -> byte, c: seq<octet>, i: nat): byte {
    block(IncBy(c, i / BLOCK), i % BLOCK)
  }

  /** Byte `i` behind the start of the encrypted part. */
  function KeyByte(key: Key, i: nat): byte {
    StreamByte(key.block, key.nonce, i)
  }

  /** A stream may be taken up at any block boundary. */
  lemma StreamShift(block: (seq<octet>, nat) -> byte, c: seq<octet>, blocks: nat, i: nat)
    ensures StreamByte(block, IncBy(c, blocks), i) == StreamByte(block, c, BLOCK * blocks + i)
  {
    hide IncBy;
    IncByMore(c, blocks, i / BLOCK);
    BlocksOf(blocks, i);
  }

  lemma BlocksOf(blocks: nat, i: nat)
    ensures (BLOCK * blocks + i) / BLOCK == blocks + i / BLOCK && (BLOCK * blocks + i) % BLOCK == i % BLOCK
  {
    var q, r := i / BLOCK, i % BLOCK;
    assert BLOCK * blocks + i == (blocks + q) * BLOCK + r;
    ModOf(blocks + q, r, BLOCK);
  }

  /** Encrypting twice is the identity. */
  lemma XorTwice(x: byte, k: byte)
    ensures (x ^ k) ^ k == x
  {
  }

  function CeilBlocks(len: nat): (r: nat)
    ensures BLOCK * r >= len && (len > 0 ==> BLOCK * (r - 1) < len) && (len == 0 ==> r == 0)
  {
    (len + BLOCK - 1) / BLOCK
  }

  /** The counter increment, a loop that stops at the first byte that does not wrap. */
  method Increment(ctr: array<octet>)
    modifies ctr
    ensures ctr[..] == Inc(old(ctr[..]))
  {
    hide Inc;
    var j := ctr.Length;
    ghost var was := ctr[..];
    assert was[..j] == was && ctr[j..] == [];
    while j > 0
      invariant 0 <= j <= ctr.Length
      invariant ctr[..j] == was[..j]
      invariant Inc(was) == Inc(was[..j]) + ctr[j..]
    {
      ghost var now := ctr[..];
      var wraps := ctr[j - 1] == 255;
      ctr[j - 1] := if wraps then 0 else ctr[j - 1] + 1;
      IncStep(was, now, ctr[..], j);
      if !wraps {
        assert ctr[..] == Inc(was);
        return;
      }
      j := j - 1;
    }
    assert ctr[..] == ctr[0..];
    assert was[..0] == [];
  }

  lemma IncLast(a: seq<octet>, x: octet)
    ensures Inc(a + [x]) == if x == 255 then Inc(a) + [0] else a + [x + 1]
  {
    assert (a + [x])[..|a|] == a;
  }

  lemma IncStep(was: seq<octet>, now: seq<octet>, next: seq<octet>, j: nat)
    requires |was| == |now| == |next| && 0 < j <= |was|
    requires now[..j] == was[..j] && Inc(was) == Inc(was[..j]) + now[j..]
    requires next == now[j - 1 := if now[j - 1] == 255 then 0 else now[j - 1] + 1]
    ensures now[j - 1] == 255 ==> next[..j - 1] == was[..j - 1] && Inc(was) == Inc(was[..j - 1]) + next[j - 1..]
    ensures now[j - 1] != 255 ==> next == Inc(was)
  {
    hide Inc;
    var a, x, t := was[..j - 1], was[j - 1], now[j..];
    SplitsAt(was, now, j);
    IncLast(a, x);
    if x == 255 {
      assert next[j - 1..] == [0] + t;
      assert Inc(a) + [0] + t == Inc(a) + ([0] + t);
      assert next[..j - 1] == now[..j - 1];
    } else {
      assert next == a + [x + 1] + t;
    }
  }

  lemma SplitsAt(was: seq<octet>, now: seq<octet>, j: nat)
    requires |was| == |now| && 0 < j <= |was| && now[..j] == was[..j]
    ensures was[..j] == was[..j - 1] + [was[j - 1]]
    ensures now[j - 1] == was[j - 1] && now[..j - 1] == was[..j - 1]
  {
    assert now[j - 1] == now[..j][j - 1] && was[j - 1] == was[..j][j - 1];
    assert now[..j - 1] == now[..j][..j - 1] && was[..j - 1] == was[..j][..j - 1];
  }

  /** The first `n` bytes are combined with the key stream at `ctr`, the others are as before. */
  ghost predicate Combined(was: seq<byte>, now: seq<byte>, n: nat, block: (seq<octet>, nat) -> byte, ctr: seq<octet>) {
    && |now| == |was|
    && forall i :: 0 <= i < |was| ==> now[i] == if i < n then was[i] ^ StreamByte(block, ctr, i) else was[i]
  }

  ghost predicate IsBlock(buffer: seq<byte>, block: (seq<octet>, nat) -> byte, c: seq<octet>) {
    |buffer| == BLOCK && forall j :: 0 <= j < BLOCK ==> buffer[j] == block(c, j)
  }

  /** Encrypts the counter and increments it. */
  method NextBlock(buffer: array<byte>, nonce: array<octet>, block: (seq<octet>, nat) -> byte)
    requires buffer.Length == BLOCK && buffer as object != nonce as object
    modifies buffer, nonce
    ensures IsBlock(buffer[..], block, old(nonce[..])) && nonce[..] == Inc(old(nonce[..]))
  {
    hide Inc;
    var counter := nonce[..];
    forall j | 0 <= j < BLOCK { buffer[j] := block(counter, j); }
    assert nonce[..] == counter;
    ghost var key := buffer[..];
    Increment(nonce);
    assert buffer[..] == key;
  }

  /** Before byte `i`: the counter is that of the next block, and within a block its key bytes
      are in the buffer. */
  ghost predicate CtrState(was: seq<byte>, i: nat, now: seq<byte>, buffer: seq<byte>, nonce: seq<octet>,
      block: (seq<octet>, nat) -> byte, ctr: seq<octet>)
  {
    && Combined(was, now, i, block, ctr)
    && nonce == IncBy(ctr, CeilBlocks(i))
    && (i % BLOCK != 0 ==> IsBlock(buffer, block, IncBy(ctr, i / BLOCK)))
  }

  /** One round of the loop of zb_aes_ctr_mode. */
  method CtrByte(buf: array<byte>, i: nat, buffer: array<byte>, nonce: array<octet>, block: (seq<octet>, nat) -> byte,
      ghost was: seq<byte>, ghost ctr: seq<octet>)
    requires i < buf.Length && buffer.Length == BLOCK
    requires buf != buffer && buf as object != nonce as object && buffer as object != nonce as object
    requires CtrState(was, i, buf[..], buffer[..], nonce[..], block, ctr)
    modifies buf, buffer, nonce
    ensures CtrState(was, i + 1, buf[..], buffer[..], nonce[..], block, ctr)
  {
    hide Inc, IncBy, StreamByte, CeilBlocks, Combined, IsBlock, CtrState;
    var blkOff := i % BLOCK;
    KeyBytesReady(was, i, buf[..], buffer[..], nonce[..], block, ctr);
    if blkOff == 0 {
      NextBlock(buffer, nonce, block);
    }
    OneMore(was, i, buf[..], buffer[..], nonce[..], block, ctr);
    XorAt(buf, i, buffer[blkOff]);
  }

  method XorAt(buf: array<byte>, i: nat, key: byte)
    requires i < buf.Length
    modifies buf
    ensures buf[..] == old(buf[..])[i := old(buf[i]) ^ key]
  {
    buf[i] := buf[i] ^ key;
  }

  /** A new block is due at a block boundary only. */
  lemma KeyBytesReady(was: seq<byte>, i: nat, now: seq<byte>, buffer: seq<byte>, nonce: seq<octet>,
      block: (seq<octet>, nat) -> byte, ctr: seq<octet>)
    requires CtrState(was, i, now, buffer, nonce, block, ctr)
    ensures Combined(was, now, i, block, ctr)
    ensures if i % BLOCK == 0 then nonce == IncBy(ctr, i / BLOCK) && Inc(nonce) == IncBy(ctr, CeilBlocks(i + 1))
            else nonce == IncBy(ctr, CeilBlocks(i + 1)) && IsBlock(buffer, block, IncBy(ctr, i / BLOCK))
  {
    hide Inc, IncBy, StreamByte, CeilBlocks, Combined, IsBlock;
    NextByte(ctr, i);
  }

  lemma OneMore(was: seq<byte>, i: nat, now: seq<byte>, key: seq<byte>, nonce: seq<octet>,
      block: (seq<octet>, nat) -> byte, ctr: seq<octet>)
    requires Combined(was, now, i, block, ctr) && i < |now| && IsBlock(key, block, IncBy(ctr, i / BLOCK))
    requires nonce == IncBy(ctr, CeilBlocks(i + 1))
    ensures |key| == BLOCK && CtrState(was, i + 1, now[i := now[i] ^ key[i % BLOCK]], key, nonce, block, ctr)
  {
    hide Inc, IncBy, CeilBlocks;
    NextByte(ctr, i);
    assert key[i % BLOCK] == StreamByte(block, ctr, i);
    hide StreamByte;
  }

  /** zb_aes_ctr_mode: exclusive-or of the first `len` bytes of `buf` with the key stream at
      `ctr`; `next` is the counter behind the last block used. */
  method AesCtrMode(buf: array<byte>, len: nat, ctr: seq<octet>, block: (seq<octet>, nat) -> byte)
      returns (next: seq<octet>)
    requires len <= buf.Length
    modifies buf
    ensures Combined(old(buf[..]), buf[..], len, block, ctr)
    ensures next == IncBy(ctr, CeilBlocks(len))
  {
    hide Inc, IncBy, StreamByte, CeilBlocks, Combined, IsBlock;
    NoBytes(ctr);
    var nonce := new octet[|ctr|](j requires 0 <= j < |ctr| => ctr[j]);
    assert nonce[..] == ctr;
    var buffer := new byte[BLOCK];
    ghost var was := buf[..];
    NothingCombined(was, block, ctr);
    var i := 0;
    while i < len
      invariant i <= len && CtrState(was, i, buf[..], buffer[..], nonce[..], block, ctr)
    {
      CtrByte(buf, i, buffer, nonce, block, was, ctr);
      i := i + 1;
    }
    next := nonce[..];
  }

  lemma NothingCombined(was: seq<byte>, block: (seq<octet>, nat) -> byte, ctr: seq<octet>)
    ensures Combined(was, was, 0, block, ctr)
  {
  }

  lemma NoBytes(c: seq<octet>)
    ensures IncBy(c, CeilBlocks(0)) == c
  {
  }

  lemma NextByte(c: seq<octet>, i: nat)
    ensures i % BLOCK == 0 ==> CeilBlocks(i) == i / BLOCK
    ensures i % BLOCK == 0 ==> IncBy(c, CeilBlocks(i + 1)) == Inc(IncBy(c, CeilBlocks(i)))
    ensures i % BLOCK != 0 ==> CeilBlocks(i + 1) == CeilBlocks(i)
    ensures (i + 1) % BLOCK != 0 ==> (i + 1) / BLOCK == i / BLOCK
  {
    if i % BLOCK == 0 {
      assert CeilBlocks(i + 1) == CeilBlocks(i) + 1;
    }
  }
}
