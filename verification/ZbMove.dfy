/** zb_img_move: copying one sector of an image, with de- or encryption on the way. */
module ZbMove {
  import opened FlashBytes
  import opened ZbCtr
  import opened ZbFlash

  /** MOVE_BLOCK_SIZE */
  const MOVE_BLOCK: nat := 512

  /** Byte `x` of an image, de- or encrypted in one pass from `encStart` on. */
  function MoveByte(encStart: nat, key: Key, x: nat, b: byte): byte {
    if x < encStart then b else b ^ KeyByte(key, x - encStart)
  }

  /** `dst` holds the first `len` bytes of `src`, which are image bytes from `offset` on. */
  ghost predicate Moved(src: Sector, dst: Sector, offset: nat, len: nat, encStart: nat, key: Key) {
    && len <= |src| == |dst|
    && forall i :: 0 <= i < len ==> dst[i] == MoveByte(encStart, key, offset + i, src[i])
  }

  ghost predicate ErasedFrom(sec: Sector, n: nat) {
    forall i :: n <= i < |sec| ==> sec[i] == 0xff
  }

  /** The counter block for image offset `off`, by stepping from the start of the
      encrypted part. */
  method CounterAt(encStart: nat, key: Key, offset: nat) returns (ctr: seq<octet>, ghost j: nat)
    requires offset <= encStart || (offset - encStart) % BLOCK == 0
    ensures ctr == IncBy(key.nonce, if offset <= encStart then 0 else (offset - encStart) / BLOCK)
    ensures ctr == IncBy(key.nonce, j)
    ensures offset <= encStart ==> j == 0
    ensures offset > encStart ==> offset == encStart + BLOCK * j
  {
    hide Inc;
    var c := new octet[|key.nonce|](i requires 0 <= i < |key.nonce| => key.nonce[i]);
    assert c[..] == key.nonce;
    j := 0;
    var off := encStart;
    while off < offset
      invariant c[..] == IncBy(key.nonce, j) && off == encStart + BLOCK * j
      invariant off <= offset || j == 0
    {
      Increment(c);
      j := j + 1;
      off := off + BLOCK;
    }
    ctr := c[..];
  }

  /** One turn of the copy loop: `n` bytes at `at` of the sector. */
  method MoveBlock(flash: Flash, from: Slot, to: Slot, k: nat, at: nat, n: nat, crypt: bool, ctr: seq<octet>, key: Key)
      returns (next: seq<octet>)
    requires flash.Valid() && k < flash.l.count && at + n <= flash.l.size
    requires PlaceOf(flash.l, from, k) != PlaceOf(flash.l, to, k)
    requires Has(flash.chip, PlaceOf(flash.l, to, k)) && ErasedFrom(At(flash.chip, PlaceOf(flash.l, to, k)), at)
    modifies flash`chip, flash`trace
    ensures flash.Valid()
    ensures next == if crypt then IncBy(ctr, CeilBlocks(n)) else ctr
    ensures var p, q := PlaceOf(flash.l, from, k), PlaceOf(flash.l, to, k);
      && DiffersAt(flash.l, old(flash.chip), q, flash.chip) && Has(flash.chip, p)
      && At(flash.chip, p) == At(old(flash.chip), p) && |At(flash.chip, p)| == flash.l.size
      && ErasedFrom(At(flash.chip, q), at + n)
      && (forall i :: 0 <= i < at ==> At(flash.chip, q)[i] == At(old(flash.chip), q)[i])
      && forall i :: at <= i < at + n ==>
           At(flash.chip, q)[i] ==
             if crypt then At(flash.chip, p)[i] ^ StreamByte(key.block, ctr, i - at) else At(flash.chip, p)[i]
    ensures OnlyAt(flash.l, old(flash.chip), PlaceOf(flash.l, to, k), old(flash.trace), flash.trace)
  {
    hide IncBy, StreamByte, CeilBlocks;
    ghost var src := At(flash.chip, PlaceOf(flash.l, from, k));
    var data := flash.Read(from, k, at, n);
    assert forall i :: 0 <= i < n ==> data[i] == src[at + i];
    next := ctr;
    if crypt {
      var buf := new byte[n](i requires 0 <= i < n => data[i]);
      next := AesCtrMode(buf, n, ctr, key.block);
      data := buf[..];
    }
    flash.Write(to, k, at, data);
  }

  /** zb_img_move: after any number of blocks the target holds what one pass over the whole
      image gives. */
  method ImgMove(flash: Flash, from: Slot, to: Slot, k: nat, offset: nat, len: nat, encStart: nat, key: Key)
    requires flash.Valid() && k < flash.l.count && len <= flash.l.size
    requires PlaceOf(flash.l, from, k) != PlaceOf(flash.l, to, k)
    requires Has(flash.chip, PlaceOf(flash.l, to, k)) && ErasedFrom(At(flash.chip, PlaceOf(flash.l, to, k)), 0)
    requires offset <= encStart || (offset - encStart) % BLOCK == 0
    modifies flash`chip, flash`trace
    ensures flash.Valid()
    ensures DiffersAt(flash.l, old(flash.chip), PlaceOf(flash.l, to, k), flash.chip)
    ensures Has(old(flash.chip), PlaceOf(flash.l, from, k))
      && Moved(At(old(flash.chip), PlaceOf(flash.l, from, k)), At(flash.chip, PlaceOf(flash.l, to, k)), offset, len, encStart, key)
    ensures ErasedFrom(At(flash.chip, PlaceOf(flash.l, to, k)), len)
    ensures OnlyAt(flash.l, old(flash.chip), PlaceOf(flash.l, to, k), old(flash.trace), flash.trace)
  {
    hide IncBy, StreamByte, CeilBlocks, KeyByte;
    ghost var p, q := PlaceOf(flash.l, from, k), PlaceOf(flash.l, to, k);
    ghost var src := At(flash.chip, p);
    var ulen := if offset < encStart then encStart - offset else 0;
    var ctr; ghost var j: nat;
    ctr, j := CounterAt(encStart, key, offset);
    var at := 0;
    while at < len
      invariant at <= len && flash.Valid() && Has(flash.chip, p) && At(flash.chip, p) == src
      invariant DiffersAt(flash.l, old(flash.chip), q, flash.chip)
      invariant ErasedFrom(At(flash.chip, q), at)
      invariant Moved(src, At(flash.chip, q), offset, at, encStart, key)
      invariant ulen == (if offset + at < encStart then encStart - (offset + at) else 0)
      invariant ctr == IncBy(key.nonce, j)
      invariant if ulen > 0 then j == 0 else at < len ==> offset + at == encStart + BLOCK * j
      invariant OnlyAt(flash.l, old(flash.chip), q, old(flash.trace), flash.trace)
      decreases len - at
    {
      var n := if len - at < MOVE_BLOCK then len - at else MOVE_BLOCK;
      if ulen > 0 && ulen < n {
        n := ulen;
      }
      ghost var c0, t0 := flash.chip, flash.trace;
      ghost var before := At(flash.chip, q);
      var next := MoveBlock(flash, from, to, k, at, n, ulen == 0, ctr, key);
      OnlyAtTrans(flash.l, old(flash.chip), c0, q, old(flash.trace), t0, flash.trace);
      DiffersTrans(flash.l, old(flash.chip), c0, q, flash.chip);
      if ulen > 0 {
        PlainBlock(src, before, At(flash.chip, q), offset, at, n, encStart, key);
        ulen := ulen - n;
      } else {
        CryptBlock(src, before, At(flash.chip, q), offset, at, n, encStart, key, j);
        NextCounter(key.nonce, j, n, len - at);
        j := j + CeilBlocks(n);
      }
      ctr := next;
      at := at + n;
    }
  }

  lemma NextCounter(nonce: seq<octet>, j: nat, n: nat, left: nat)
    requires n == if left < MOVE_BLOCK then left else MOVE_BLOCK
    ensures IncBy(IncBy(nonce, j), CeilBlocks(n)) == IncBy(nonce, j + CeilBlocks(n))
    ensures n < left ==> BLOCK * (j + CeilBlocks(n)) == BLOCK * j + n
  {
    IncByMore(nonce, j, CeilBlocks(n));
    if n < left {
      assert CeilBlocks(512) == 32;
    }
  }

  lemma PlainBlock(src: Sector, before: Sector, after: Sector, offset: nat, at: nat, n: nat, encStart: nat, key: Key)
    requires Moved(src, before, offset, at, encStart, key) && |after| == |before| && at + n <= |src|
    requires offset + at + n <= encStart
    requires forall i :: 0 <= i < at ==> after[i] == before[i]
    requires forall i :: at <= i < at + n ==> after[i] == src[i]
    ensures Moved(src, after, offset, at + n, encStart, key)
  {
  }

  lemma CryptBlock(src: Sector, before: Sector, after: Sector, offset: nat, at: nat, n: nat, encStart: nat, key: Key, j: nat)
    requires Moved(src, before, offset, at, encStart, key) && |after| == |before| && at + n <= |src|
    requires offset + at == encStart + BLOCK * j
    requires forall i :: 0 <= i < at ==> after[i] == before[i]
    requires forall i :: at <= i < at + n ==> after[i] == src[i] ^ StreamByte(key.block, IncBy(key.nonce, j), i - at)
    ensures Moved(src, after, offset, at + n, encStart, key)
  {
    hide IncBy, StreamByte;
    forall i | 0 <= i < at + n ensures after[i] == MoveByte(encStart, key, offset + i, src[i]) {
      if i >= at {
        var d := i - at;
        StreamShift(key.block, key.nonce, j, d);
        assert offset + i - encStart == BLOCK * j + d;
      }
    }
  }
}
