/** Data on its way to flash: whole write blocks are programmed, the bytes of the last,
    incomplete block wait in the cache of the location. */
module SfcbBuffer {
  import opened FlashBytes
  import opened SfcbFlash
  import opened SfcbSector
  import opened SfcbSteps

  /** `written` was written from offset `base` on; below `top` nothing else is programmed. */
  ghost predicate Buffered(w: Wbs, sec: Sector, base: nat, top: nat, written: seq<byte>, cache: seq<byte>) {
    var full := AlignDown(w, |written|);
    && base + full <= top <= |sec|
    && |cache| == w
    && (forall i :: 0 <= i < full ==> sec[base + i] == Raw(written[i]))
    && BlankRange(sec, base + full, top)
    && (forall i :: full <= i < |written| ==> cache[i - full] == written[i])
    && (full < |written| ==> forall i :: |written| - full <= i < w ==> cache[i] == 0xff)
  }

  lemma AlignDownIs(w: Wbs, x: nat, r: nat)
    requires Aligned(w, r) && r <= x < r + w
    ensures AlignDown(w, x) == r
  {
    if w == 2 {
      ModIs(2, x, r);
    } else if w == 4 {
      ModIs(4, x, r);
    } else if w == 8 {
      ModIs(8, x, r);
    }
  }

  lemma ModIs(w: nat, x: nat, r: nat)
    requires w == 2 || w == 4 || w == 8
    requires r % w == 0 && r <= x < r + w
    ensures x % w == x - r
  {
    assert r == (r / w) * w;
    ModOf(r / w, x - r, w);
  }

  lemma AlignDownShift(w: Wbs, base: nat, x: nat)
    requires Aligned(w, base)
    ensures AlignDown(w, base + x) == base + AlignDown(w, x)
  {
    hide AlignDown, Aligned;
    AlignedSum(w, base, AlignDown(w, x));
    AlignDownIs(w, base + x, base + AlignDown(w, x));
  }

  lemma AlignedBlock(w: Wbs)
    ensures Aligned(w, w) && Aligned(w, 0)
  {
  }

  /** An aligned amount that starts before `len` leaves room for one more block. */
  lemma BlockFits(w: Wbs, full: nat, len: nat)
    requires Aligned(w, full) && full < len
    ensures full + w <= AlignUp(w, len)
  {
    AlignedApart(w, full, AlignUp(w, len));
  }

  lemma AlignUpMonotone(w: Wbs, a: nat, b: nat)
    requires a <= b
    ensures AlignUp(w, a) <= AlignUp(w, b)
  {
    if AlignUp(w, b) < AlignUp(w, a) {
      AlignedApart(w, AlignUp(w, b), AlignUp(w, a));
    }
  }

  lemma BufferedStart(w: Wbs, sec: Sector, base: nat, top: nat, cache: seq<byte>)
    requires |cache| == w && base <= top && BlankRange(sec, base, top)
    ensures Buffered(w, sec, base, top, [], cache)
  {
    AlignDownIs(w, 0, 0);
  }

  /** Adding to the incomplete block without filling it. */
  lemma FillCache(w: Wbs, sec: Sector, base: nat, top: nat, written: seq<byte>, cache: seq<byte>, more: seq<byte>)
      returns (cache2: seq<byte>)
    requires Buffered(w, sec, base, top, written, cache)
    requires var rem := |written| - AlignDown(w, |written|); 0 < rem && rem + |more| < w
    ensures var rem := |written| - AlignDown(w, |written|);
      cache2 == cache[..rem] + more + cache[rem + |more|..]
    ensures Buffered(w, sec, base, top, written + more, cache2)
  {
    var full := AlignDown(w, |written|);
    var rem := |written| - full;
    cache2 := cache[..rem] + more + cache[rem + |more|..];
    AlignDownIs(w, |written + more|, full);
    hide AlignDown, Aligned;
  }

  /** Completing the incomplete block and programming it. */
  lemma FlushCache(w: Wbs, sec: Sector, base: nat, top: nat, written: seq<byte>, cache: seq<byte>, more: seq<byte>,
                   cache2: seq<byte>, sec2: Sector)
    requires Buffered(w, sec, base, top, written, cache)
    requires var full := AlignDown(w, |written|); var rem := |written| - full;
      && 0 < rem && rem + |more| == w && base + full + w <= top
      && cache2 == cache[..rem] + more
      && sec2 == Splice(sec, base + full, RawCells(cache2))
    ensures Buffered(w, sec2, base, top, written + more, cache2)
    ensures AlignDown(w, |written + more|) == |written + more|
  {
    var full := AlignDown(w, |written|);
    AlignedBlock(w);
    AlignedSum(w, full, w);
    AlignDownIs(w, |written + more|, full + w);
    hide AlignDown, Aligned;
  }

  /** Programming whole blocks. */
  lemma FlushBlocks(w: Wbs, sec: Sector, base: nat, top: nat, written: seq<byte>, cache: seq<byte>, more: seq<byte>, sec2: Sector)
    requires Buffered(w, sec, base, top, written, cache)
    requires AlignDown(w, |written|) == |written| && Aligned(w, |more|)
    requires base + |written| + |more| <= top
    requires sec2 == Splice(sec, base + |written|, RawCells(more))
    ensures Buffered(w, sec2, base, top, written + more, cache)
    ensures AlignDown(w, |written + more|) == |written + more|
  {
    AlignedSum(w, |written|, |more|);
    AlignDownIs(w, |written + more|, |written + more|);
    hide AlignDown, Aligned;
  }

  /** Starting a new incomplete block in the cache. */
  lemma RestartCache(w: Wbs, sec: Sector, base: nat, top: nat, written: seq<byte>, cache: seq<byte>, more: seq<byte>, cache2: seq<byte>)
    requires Buffered(w, sec, base, top, written, cache)
    requires AlignDown(w, |written|) == |written| && |more| < w
    requires |cache2| == w && (forall i :: 0 <= i < w ==> cache2[i] == if i < |more| then more[i] else 0xff)
    ensures Buffered(w, sec, base, top, written + more, cache2)
  {
    AlignDownIs(w, |written + more|, |written|);
    hide AlignDown, Aligned;
  }

  /** After the incomplete block is flushed too, the data is all there, padded with erased bytes. */
  lemma PayloadWritten(w: Wbs, sec: Sector, base: nat, top: nat, written: seq<byte>, cache: seq<byte>, sec2: Sector, len: nat)
    requires Buffered(w, sec, base, top, written, cache)
    requires |written| <= len && base + AlignUp(w, len) <= top
    requires var full := AlignDown(w, |written|);
      if full == |written| then sec2 == sec
      else base + full + w <= top && sec2 == Splice(sec, base + full, RawCells(cache))
    ensures base + len <= |sec2|
    ensures Payload(sec2, base, len) == written + seq(len - |written|, _ => 0xff)
    ensures BlankRange(sec2, base + AlignUp(w, len), top)
  {
    var full := AlignDown(w, |written|);
    AlignUpMonotone(w, |written|, len);
    if full < |written| {
      BlockFits(w, full, len);
    }
    hide AlignDown, AlignUp, Aligned;
    assert base + len <= top;
    var p := Payload(sec2, base, len);
    forall i | 0 <= i < len ensures p[i] == if i < |written| then written[i] else 0xff {
      assert p[i] == CellBytes(sec2[base..base + len])[i];
      assert sec2[base..base + len][i] == sec2[base + i];
    }
  }

  /** After that, the sector is the one from before with the data in it. */
  lemma FlushedSector(w: Wbs, start: Sector, sec: Sector, base: nat, top: nat, written: seq<byte>, cache: seq<byte>, sec2: Sector, len: nat)
    requires AgreeOutside(start, sec, base, top) && BlankRange(start, base, top)
    requires Buffered(w, sec, base, top, written, cache)
    requires |written| <= len && base + AlignUp(w, len) <= top
    requires var full := AlignDown(w, |written|);
      if full == |written| then sec2 == sec
      else base + full + w <= top && sec2 == Splice(sec, base + full, RawCells(cache))
    ensures base + |written| <= |start| && sec2 == Splice(start, base, RawCells(written))
  {
    var full := AlignDown(w, |written|);
    hide AlignDown, AlignUp, Aligned;
    assert base + |written| <= top;
    forall i | 0 <= i < |sec2| ensures sec2[i] == Splice(start, base, RawCells(written))[i] {
      if base <= i < base + full {
        assert sec[base + (i - base)] == Raw(written[i - base]);
      } else if full < |written| && base + full <= i < base + full + w {
        assert sec2[i] == Raw(cache[i - base - full]);
      }
    }
  }

  /** What the sector holds once the incomplete block is flushed depends only on the bytes
      written in all, not on how they were split over the writes. */
  lemma SplitsDoNotMatter(w: Wbs, start: Sector, base: nat, top: nat, written: seq<byte>,
                          a: Sector, cacheA: seq<byte>, b: Sector, cacheB: seq<byte>)
    requires AgreeOutside(start, a, base, top) && AgreeOutside(start, b, base, top)
    requires Buffered(w, a, base, top, written, cacheA) && Buffered(w, b, base, top, written, cacheB)
    ensures a == b
    ensures AlignDown(w, |written|) < |written| ==> cacheA == cacheB
  {
    var full := AlignDown(w, |written|);
    forall i | 0 <= i < |a| ensures a[i] == b[i] {
      if base <= i < base + full {
        assert a[base + (i - base)] == Raw(written[i - base]) == b[base + (i - base)];
      } else if i < base || top <= i {
        assert start[i] == a[i] && start[i] == b[i];
      }
    }
    if full < |written| {
      forall i | 0 <= i < w ensures cacheA[i] == cacheB[i] {
        if i < |written| - full {
          assert cacheA[full + i - full] == written[full + i] == cacheB[full + i - full];
        }
      }
    }
  }
}
