/** The first stage loader (zb8_fsl.c): moving a new swapper or loader from the run area to
    where it runs, and what may be started when that is cut short. */
module ZbFsl {
  import opened FlashBytes

  /** Bytes copied at a time. */
  const CHUNK: nat := 32

  datatype Target = ToRun | ToSwapper | ToLoader | Elsewhere

  /** An image header: length of header and image, and where the image is to be run from. */
  datatype Header = NoHeader | Header(len: nat, target: Target)

  /** What boot starts. */
  datatype Started = Nothing | RunImage | Swapper

  /** The run, swapper and loader areas. */
  datatype Chip = Chip(run: seq<byte>, swpr: seq<byte>, ldr: seq<byte>)

  /** Header format, checksum taken in byte by byte, and the checksum in the verify area. */
  datatype Platform = Platform(parse: seq<byte> -> Header, crcByte: (nat, byte) -> nat, ver: nat, sector: nat) {
    ghost predicate Valid() {
      && sector > 0 && sector % CHUNK == 0
      && parse(Ones(CHUNK)) == NoHeader
    }
  }

  predicate Blank(s: seq<byte>) {
    forall i :: 0 <= i < |s| ==> s[i] == 0xff
  }

  /** crc32_ieee_update */
  function Crc(p: Platform, crc: nat, s: seq<byte>): nat {
    if s == [] then crc else p.crcByte(Crc(p, crc, s[..|s| - 1]), s[|s| - 1])
  }

  /** The destination areas are whole sectors and no larger than the run area. */
  ghost predicate Shaped(p: Platform, c: Chip) {
    && p.Valid()
    && |c.swpr| % p.sector == 0 && |c.ldr| % p.sector == 0
    && 0 < |c.swpr| <= |c.run| && 0 < |c.ldr| <= |c.run|
  }

  function HeaderAt(p: Platform, area: seq<byte>): Header {
    if |area| < CHUNK then NoHeader else p.parse(area[..CHUNK])
  }

  /** The run area holds an image whose checksum is the one to verify. */
  predicate RunValid(p: Platform, c: Chip) {
    var h := HeaderAt(p, c.run);
    h.Header? && h.len <= |c.run| && Crc(p, 0, c.run[..h.len]) == p.ver
  }

  /** Where the image in the run area wants to go. */
  function Goal(p: Platform, c: Chip): Target {
    if RunValid(p, c) then HeaderAt(p, c.run).target else Elsewhere
  }

  function Dst(c: Chip, t: Target): seq<byte> {
    if t == ToSwapper then c.swpr else c.ldr
  }

  function WithDst(c: Chip, t: Target, area: seq<byte>): Chip {
    if t == ToSwapper then c.(swpr := area) else c.(ldr := area)
  }

  /** The image of `c0` is still to be moved, or it has been moved completely and its header
      in the run area is gone. Other areas are as they were. */
  ghost predicate Resumable(p: Platform, c0: Chip, c: Chip) {
    var t := Goal(p, c0);
    && Shaped(p, c)
    && (t == ToRun || t == Elsewhere ==> c == c0)
    && |c.run| == |c0.run| && |Dst(c, t)| == |Dst(c0, t)|
    && WithDst(c.(run := c0.run), t, Dst(c0, t)) == c0
    && (c.run == c0.run || (Moved(c0, c, t) && HeaderAt(p, c.run) == NoHeader))
  }

  /** The part of the run area that was moved is erased. */
  ghost predicate RunErased(c: Chip, t: Target) {
    forall i :: 0 <= i < |Dst(c, t)| && i < |c.run| ==> c.run[i] == 0xff
  }

  /** `t` is the destination that the image in the run area is to be moved to. */
  ghost predicate Moves(p: Platform, c0: Chip, t: Target) {
    t == Goal(p, c0) && (t == ToSwapper || t == ToLoader)
  }

  ghost predicate Moved(c0: Chip, c: Chip, t: Target) {
    |Dst(c0, t)| <= |c0.run| && Dst(c, t) == c0.run[..|Dst(c0, t)|]
  }

  /** The first `at` bytes are those of the run area, the others are erased. */
  ghost predicate CopiedTo(area: seq<byte>, run: seq<byte>, at: nat) {
    && |area| <= |run|
    && forall i :: 0 <= i < |area| ==> area[i] == if i < at then run[i] else 0xff
  }

  ghost predicate ErasedTo(now: seq<byte>, was: seq<byte>, at: nat) {
    && |now| == |was|
    && forall i :: 0 <= i < |was| ==> now[i] == if i < at then 0xff else was[i]
  }

  /** The run area is that of `c0`, but for its first sector, which is erased. */
  ghost predicate HeaderErased(p: Platform, c0: Chip, c: Chip) {
    p.sector <= |c0.run| && c.run == Ones(p.sector) + c0.run[p.sector..]
  }

  predicate SwapperReady(p: Platform, c: Chip) {
    HeaderAt(p, c.swpr).Header? && HeaderAt(p, c.swpr).target == ToSwapper
  }

  ghost predicate CrashSafe(p: Platform, c0: Chip, before: seq<Chip>, after: seq<Chip>) {
    before <= after && forall i :: |before| <= i < |after| ==> Resumable(p, c0, after[i])
  }

  class Loader {
    const p: Platform
    var chip: Chip
    var trace: seq<Chip>
    /** The states that power cuts have left. */
    ghost var cuts: seq<Chip>

    constructor (p: Platform, chip: Chip)
      requires Shaped(p, chip)
      ensures this.p == p && this.chip == chip && trace == [] && cuts == []
    {
      this.p, this.chip, trace, cuts := p, chip, [], [];
    }

    method PowerCut(k: nat)
      requires k < |trace|
      modifies this
      ensures chip == old(trace[k]) && trace == [] && cuts == old(cuts) + [chip]
    {
      chip, trace := trace[k], [];
      cuts := cuts + [chip];
    }

    /** flash_erase of the destination, sector by sector. */
    method EraseDst(t: Target, ghost c0: Chip)
      requires Shaped(p, chip) && chip.run == c0.run && Resumable(p, c0, chip) && Moves(p, c0, t)
      modifies this`chip, this`trace
      ensures Shaped(p, chip) && chip.run == c0.run && Resumable(p, c0, chip)
      ensures Blank(Dst(chip, t))
      ensures CrashSafe(p, c0, old(trace), trace)
    {
      var size := |Dst(chip, t)|;
      var at := 0;
      while at < size
        invariant at <= size == |Dst(chip, t)| && at % p.sector == 0
        invariant Shaped(p, chip) && chip.run == c0.run && Resumable(p, c0, chip)
        invariant forall i :: 0 <= i < at ==> Dst(chip, t)[i] == 0xff
        invariant CrashSafe(p, c0, old(trace), trace)
      {
        SectorsFit(p.sector, size, at);
        var area := Dst(chip, t);
        chip := WithDst(chip, t, area[..at] + Ones(p.sector) + area[at + p.sector..]);
        trace := trace + [chip];
        at := at + p.sector;
      }
    }

    /** One round of the copy loop: CHUNK bytes are programmed where the destination is erased.
        Cut short, any bytes may be there. */
    method CopyChunk(t: Target, at: nat, ghost c0: Chip)
      requires Shaped(p, chip) && chip.run == c0.run && Resumable(p, c0, chip) && Moves(p, c0, t)
      requires at + CHUNK <= |Dst(chip, t)| && CopiedTo(Dst(chip, t), c0.run, at)
      modifies this`chip, this`trace
      ensures Shaped(p, chip) && chip.run == c0.run && Resumable(p, c0, chip)
      ensures |Dst(chip, t)| == old(|Dst(chip, t)|) && CopiedTo(Dst(chip, t), c0.run, at + CHUNK)
      ensures CrashSafe(p, c0, old(trace), trace)
    {
      hide Resumable, CrashSafe, Shaped, Goal, Moves, WithDst, CopiedTo;
      var area := Dst(chip, t);
      var partial: seq<byte> := *;
      if |partial| != CHUNK {
        partial := Ones(CHUNK);
      }
      RunIsLonger(p, chip, t);
      OneChunk(area, chip.run, at);
      var torn := area[..at] + partial + area[at + CHUNK..];
      var next := area[..at] + chip.run[at..at + CHUNK] + area[at + CHUNK..];
      DstIsApart(p, c0, chip, t, torn);
      DstIsApart(p, c0, chip, t, next);
      TwoMore(p, c0, trace, WithDst(chip, t, torn), WithDst(chip, t, next));
      trace := trace + [WithDst(chip, t, torn), WithDst(chip, t, next)];
      chip := WithDst(chip, t, next);
    }

    /** Copies the start of the run area to the erased destination. */
    method CopyDst(t: Target, ghost c0: Chip)
      requires Shaped(p, chip) && chip.run == c0.run && Resumable(p, c0, chip) && Moves(p, c0, t)
      requires Blank(Dst(chip, t))
      modifies this`chip, this`trace
      ensures Shaped(p, chip) && chip.run == c0.run && Resumable(p, c0, chip)
      ensures Moved(c0, chip, t)
      ensures CrashSafe(p, c0, old(trace), trace)
    {
      hide Resumable, Goal, Moves, Moved, Dst, CopiedTo;
      var size := |Dst(chip, t)|;
      RunIsLonger(p, chip, t);
      NothingCopied(Dst(chip, t), c0.run);
      var at := 0;
      while at < size
        invariant at <= size == |Dst(chip, t)| && at % CHUNK == 0
        invariant Shaped(p, chip) && chip.run == c0.run && Resumable(p, c0, chip)
        invariant CopiedTo(Dst(chip, t), c0.run, at)
        invariant CrashSafe(p, c0, old(trace), trace)
      {
        ChunkFits(at, size);
        CopyChunk(t, at, c0);
        at := at + CHUNK;
      }
      AllCopied(p, c0, chip, t);
    }

    /** flash_erase of the moved part of the run area, header first. */
    method EraseRun(t: Target, ghost c0: Chip)
      requires Shaped(p, chip) && chip.run == c0.run && Resumable(p, c0, chip) && Moves(p, c0, t)
      requires Moved(c0, chip, t)
      modifies this`chip, this`trace
      ensures Resumable(p, c0, chip) && Moved(c0, chip, t) && HeaderAt(p, chip.run) == NoHeader
      ensures RunErased(chip, t)
      ensures forall i :: |Dst(c0, t)| <= i < |c0.run| ==> chip.run[i] == c0.run[i]
      ensures CrashSafe(p, c0, old(trace), trace)
      ensures |old(trace)| < |trace| && HeaderErased(p, c0, trace[|old(trace)|])
    {
      hide Resumable, Moved, Moves, Dst, HeaderAt, ErasedTo, CrashSafe, Shaped;
      var size := |Dst(chip, t)|;
      RunIsLonger(p, chip, t);
      NothingErased(chip.run);
      NoMore(p, c0, trace);
      var at := 0;
      while at < size
        invariant at <= size == |Dst(chip, t)| <= |chip.run| && at % p.sector == 0
        invariant Resumable(p, c0, chip) && Moved(c0, chip, t) && Moves(p, c0, t)
        invariant at > 0 ==> HeaderAt(p, chip.run) == NoHeader
        invariant ErasedTo(chip.run, c0.run, at)
        invariant CrashSafe(p, c0, old(trace), trace) && |old(trace)| <= |trace|
        invariant at > 0 ==> |old(trace)| < |trace| && HeaderErased(p, c0, trace[|old(trace)|])
        invariant at == 0 ==> chip.run == c0.run && trace == old(trace)
      {
        SectorsFit(p.sector, size, at);
        var run := chip.run[..at] + Ones(p.sector) + chip.run[at + p.sector..];
        OneErased(chip.run, c0.run, at, p.sector);
        HeaderGone(p, run, c0.run, at + p.sector);
        RunIsApart(p, c0, chip, t, run);
        OneMore(p, c0, old(trace), trace, chip.(run := run));
        chip := chip.(run := run);
        trace := trace + [chip];
        at := at + p.sector;
      }
      AllErased(p, c0, chip, t);
    }

    /** zb_fsl_move */
    method Move(t: Target, ghost c0: Chip) returns (ghost first: nat)
      requires Shaped(p, chip) && chip.run == c0.run && Resumable(p, c0, chip) && Moves(p, c0, t)
      modifies this`chip, this`trace
      ensures Resumable(p, c0, chip) && Moved(c0, chip, t) && HeaderAt(p, chip.run) == NoHeader
      ensures RunErased(chip, t)
      ensures forall i :: |Dst(c0, t)| <= i < |c0.run| ==> chip.run[i] == c0.run[i]
      ensures CrashSafe(p, c0, old(trace), trace)
      ensures |old(trace)| <= first < |trace| && HeaderErased(p, c0, trace[first])
    {
      hide Resumable, HeaderErased, Moved, RunErased, HeaderAt;
      EraseDst(t, c0);
      CopyDst(t, c0);
      first := |trace|;
      EraseRun(t, c0);
    }

    /** The checksum loop of zb_fsl_boot. */
    method RunCrc(len: nat) returns (crc: nat)
      requires len <= |chip.run|
      ensures crc == Crc(p, 0, chip.run[..len])
    {
      crc := 0;
      var off, size := 0, len;
      while size > 0
        invariant 0 <= off && 0 <= size && off + size == len && crc == Crc(p, 0, chip.run[..off])
      {
        var rdlen := if size < CHUNK then size else CHUNK;
        CrcOfBoth(p, 0, chip.run[..off], chip.run[off..off + rdlen]);
        assert chip.run[..off] + chip.run[off..off + rdlen] == chip.run[..off + rdlen];
        crc := Crc(p, crc, chip.run[off..off + rdlen]);
        size, off := size - rdlen, off + rdlen;
      }
    }

    /** zb_fsl_boot: a valid image in the run area is started, or moved where it belongs;
        then the swapper is started if it has a header. The last clause says so in terms of
        the areas alone. */
    method Boot(ghost c0: Chip) returns (started: Started, ghost first: nat)
      requires Shaped(p, c0) && Resumable(p, c0, chip)
      modifies this`chip, this`trace
      ensures Resumable(p, c0, chip) && CrashSafe(p, c0, old(trace), trace)
      ensures Goal(p, c0) == ToRun ==> started == RunImage && chip == c0
      ensures Goal(p, c0) == Elsewhere ==> chip == c0
      ensures Moves(p, c0, Goal(p, c0)) ==> Moved(c0, chip, Goal(p, c0)) && HeaderAt(p, chip.run) == NoHeader
      ensures Moves(p, c0, Goal(p, c0)) ==>
        if HeaderAt(p, old(chip.run)).Header? then RunErased(chip, Goal(p, c0)) else chip == old(chip) && trace == old(trace)
      ensures Goal(p, c0) != ToRun ==> started == if SwapperReady(p, chip) then Swapper else Nothing
      ensures Moves(p, c0, Goal(p, c0)) && HeaderAt(p, old(chip.run)).Header? ==>
        |old(trace)| <= first < |trace| && HeaderErased(p, c0, trace[first])
      ensures |c0.run| >= 32 && |chip.swpr| == |c0.swpr| >= 32 && |chip.ldr| == |c0.ldr| <= |c0.run| && |c0.swpr| <= |c0.run|
      ensures var h, next := p.parse(c0.run[..32]), p.parse(chip.swpr[..32]);
        var ready := if next.Header? && next.target == ToSwapper then Swapper else Nothing;
        if h.Header? && h.len <= |c0.run| && Crc(p, 0, c0.run[..h.len]) == p.ver then
          match h.target
          case ToRun => started == RunImage && chip == c0
          case ToSwapper => started == Swapper && chip.swpr == c0.run[..|c0.swpr|] && chip.ldr == c0.ldr
          case ToLoader => started == ready && chip.ldr == c0.run[..|c0.ldr|] && chip.swpr == c0.swpr
          case Elsewhere => started == ready && chip == c0
        else started == ready && chip == c0
      ensures |chip.run| == |old(chip.run)| == |c0.run|
      ensures var h := p.parse(c0.run[..32]);
        h.Header? && h.len <= |c0.run| && Crc(p, 0, c0.run[..h.len]) == p.ver && p.parse(old(chip.run)[..32]).Header? ==>
          && (h.target == ToSwapper ==> forall i :: 0 <= i < |c0.swpr| ==> chip.run[i] == 0xff)
          && (h.target == ToLoader ==> forall i :: 0 <= i < |c0.ldr| ==> chip.run[i] == 0xff)
    {
      AreasAre(p, c0);
      first := 0;
      var hdr := HeaderAt(p, chip.run);
      if hdr.Header? && hdr.len <= |chip.run| {
        var crc := RunCrc(hdr.len);
        if crc == p.ver {
          if hdr.target == ToRun {
            BootOutcome(p, c0, chip, RunImage);
            return RunImage, first;
          }
          if hdr.target == ToSwapper || hdr.target == ToLoader {
            first := Move(hdr.target, c0);
          }
        }
      }
      hdr := HeaderAt(p, chip.swpr);
      started := if hdr.Header? && hdr.target == ToSwapper then Swapper else Nothing;
      BootOutcome(p, c0, chip, started);
    }
  }

  lemma AreasAre(p: Platform, c: Chip)
    requires Shaped(p, c)
    ensures 32 <= |c.swpr| <= |c.run| && 0 < |c.ldr| <= |c.run|
  {
  }

  /** What a boot leads to, read off the areas. */
  lemma BootOutcome(p: Platform, c0: Chip, c: Chip, started: Started)
    requires Shaped(p, c0) && Resumable(p, c0, c)
    requires Goal(p, c0) == ToRun ==> started == RunImage
    requires Goal(p, c0) != ToRun ==> started == if SwapperReady(p, c) then Swapper else Nothing
    requires Moves(p, c0, Goal(p, c0)) ==> Moved(c0, c, Goal(p, c0))
    ensures |c0.run| >= 32 && |c.swpr| == |c0.swpr| >= 32 && |c.ldr| == |c0.ldr| <= |c0.run| && |c0.swpr| <= |c0.run|
    ensures var h, next := p.parse(c0.run[..32]), p.parse(c.swpr[..32]);
      var ready := if next.Header? && next.target == ToSwapper then Swapper else Nothing;
      if h.Header? && h.len <= |c0.run| && Crc(p, 0, c0.run[..h.len]) == p.ver then
        match h.target
        case ToRun => started == RunImage && c == c0
        case ToSwapper => started == Swapper && c.swpr == c0.run[..|c0.swpr|] && c.ldr == c0.ldr
        case ToLoader => started == ready && c.ldr == c0.run[..|c0.ldr|] && c.swpr == c0.swpr
        case Elsewhere => started == ready && c == c0
      else started == ready && c == c0
    ensures |c.run| == |c0.run|
    ensures Moves(p, c0, Goal(p, c0)) && RunErased(c, Goal(p, c0)) ==>
      var h := p.parse(c0.run[..32]);
      && (h.target == ToSwapper ==> forall i :: 0 <= i < |c0.swpr| ==> c.run[i] == 0xff)
      && (h.target == ToLoader ==> forall i :: 0 <= i < |c0.ldr| ==> c.run[i] == 0xff)
  {
    hide Crc;
    AreasAre(p, c0);
    if Goal(p, c0) == ToSwapper {
      assert c.swpr[..32] == c0.run[..|c0.swpr|][..32] == c0.run[..32];
    }
  }

  /** The checksum takes the bytes in one by one. */
  lemma CrcByByte(p: Platform, crc: nat, s: seq<byte>, b: byte)
    ensures Crc(p, crc, []) == crc && Crc(p, crc, s + [b]) == p.crcByte(Crc(p, crc, s), b)
  {
    assert (s + [b])[..|s|] == s;
  }

  /** A checksum over several reads is the one over all the bytes. */
  lemma {:induction false} CrcOfBoth(p: Platform, crc: nat, a: seq<byte>, b: seq<byte>)
    ensures Crc(p, Crc(p, crc, a), b) == Crc(p, crc, a + b)
  {
    if b == [] {
      assert a + b == a;
    } else {
      assert (a + b)[..|a + b| - 1] == a + b[..|b| - 1];
      CrcOfBoth(p, crc, a, b[..|b| - 1]);
    }
  }

  /** That the moved part is erased in the end is not so for every power cut. Every boot that
      moves an image passes the state in which only the header's sector is erased; after a cut
      there no boot erases the rest, so that it has to be blank already. */
  lemma RunAreaMayStay(p: Platform, c0: Chip, c: Chip, t: Target)
    requires Shaped(p, c0) && Resumable(p, c0, c) && Moves(p, c0, t) && HeaderErased(p, c0, c)
    ensures !HeaderAt(p, c.run).Header?
    ensures RunErased(c, t) <==> forall i :: p.sector <= i < |Dst(c0, t)| ==> c0.run[i] == 0xff
  {
    hide Resumable, HeaderAt;
    HeaderGone(p, c.run, c.run, p.sector);
    SameDst(p, c0, c, t);
    if RunErased(c, t) {
      forall i | p.sector <= i < |Dst(c0, t)| ensures c0.run[i] == 0xff {
        assert c.run[i] == 0xff;
      }
    }
  }

  /** Such an image, of two sectors without blank bytes. */
  lemma RestOfRunStays() returns (p: Platform, c0: Chip, c: Chip)
    ensures Shaped(p, c0) && Moves(p, c0, ToSwapper) && Resumable(p, c0, c) && HeaderErased(p, c0, c)
    ensures !RunErased(c, ToSwapper)
  {
    var ones := Ones(32);
    var image: seq<byte> := seq(64, _ => 0);
    p := Platform((s: seq<byte>) => if |s| > 0 && s[0] == 0 then Header(64, ToSwapper) else NoHeader,
                  (a, b) => 0, 0, 32);
    c0 := Chip(image, ones + ones, ones);
    c := Chip(ones + image[32..], image, ones);
    assert HeaderAt(p, image) == Header(64, ToSwapper);
    assert image[..64] == image;
    assert c.run[32] == 0;
  }

  lemma SameDst(p: Platform, c0: Chip, c: Chip, t: Target)
    requires Shaped(p, c0) && Resumable(p, c0, c) && Moves(p, c0, t)
    ensures |Dst(c, t)| == |Dst(c0, t)| <= |c0.run| == |c.run|
  {
  }

  /** Before the run area is touched, the destination may hold anything. */
  lemma DstIsApart(p: Platform, c0: Chip, c: Chip, t: Target, area: seq<byte>)
    requires Shaped(p, c) && Resumable(p, c0, c) && c.run == c0.run && Moves(p, c0, t) && |area| == |Dst(c, t)|
    ensures var x := WithDst(c, t, area);
      Shaped(p, x) && Resumable(p, c0, x) && Dst(x, t) == area && x.run == c0.run
  {
  }

  lemma TwoMore(p: Platform, c0: Chip, before: seq<Chip>, x: Chip, y: Chip)
    requires Resumable(p, c0, x) && Resumable(p, c0, y)
    ensures CrashSafe(p, c0, before, before + [x, y])
  {
    hide Resumable;
  }

  lemma RunIsLonger(p: Platform, c: Chip, t: Target)
    requires Shaped(p, c)
    ensures 0 < |Dst(c, t)| <= |c.run| && |Dst(c, t)| % CHUNK == 0
    ensures p.Valid() && |Dst(c, t)| % p.sector == 0
  {
    ChunksFit(p.sector, |Dst(c, t)|);
  }

  lemma NothingCopied(area: seq<byte>, run: seq<byte>)
    requires Blank(area) && |area| <= |run|
    ensures CopiedTo(area, run, 0)
  {
  }

  /** The bytes to program are erased before, and the copy is one chunk longer after. */
  lemma OneChunk(area: seq<byte>, run: seq<byte>, at: nat)
    requires at + CHUNK <= |area| <= |run| && CopiedTo(area, run, at)
    ensures Blank(area[at..at + CHUNK])
    ensures var next := area[..at] + run[at..at + CHUNK] + area[at + CHUNK..];
      |next| == |area| && CopiedTo(next, run, at + CHUNK)
  {
  }

  lemma AllCopied(p: Platform, c0: Chip, c: Chip, t: Target)
    requires Resumable(p, c0, c) && Moves(p, c0, t) && |Dst(c, t)| <= |c0.run|
    requires CopiedTo(Dst(c, t), c0.run, |Dst(c, t)|)
    ensures Moved(c0, c, t)
  {
    assert Dst(c, t) == c0.run[..|Dst(c, t)|];
  }

  lemma ChunkFits(at: nat, size: nat)
    requires at % CHUNK == 0 && size % CHUNK == 0 && at < size
    ensures at + CHUNK <= size && (at + CHUNK) % CHUNK == 0
  {
  }

  lemma ChunksFit(sector: nat, size: nat)
    requires sector > 0 && sector % CHUNK == 0 && size % sector == 0
    ensures size % CHUNK == 0
  {
    var a, b := sector / CHUNK, size / sector;
    assert sector == CHUNK * a && size == sector * b;
    assert size == CHUNK * (a * b);
  }

  lemma NothingErased(run: seq<byte>)
    ensures ErasedTo(run, run, 0)
  {
  }

  lemma OneErased(now: seq<byte>, was: seq<byte>, at: nat, n: nat)
    requires at + n <= |now| && ErasedTo(now, was, at)
    ensures var next := now[..at] + Ones(n) + now[at + n..]; |next| == |now| && ErasedTo(next, was, at + n)
  {
  }

  /** Once the first sector of the run area is erased there is no header any more. */
  lemma HeaderGone(p: Platform, now: seq<byte>, was: seq<byte>, at: nat)
    requires p.Valid() && p.sector <= at <= |now| && ErasedTo(now, was, at)
    ensures HeaderAt(p, now) == NoHeader
  {
    if |now| >= CHUNK {
      assert now[..CHUNK] == Ones(CHUNK);
    }
  }

  /** Once the image is in place, the run area may hold anything without a header. */
  lemma RunIsApart(p: Platform, c0: Chip, c: Chip, t: Target, run: seq<byte>)
    requires Resumable(p, c0, c) && Moved(c0, c, t) && Moves(p, c0, t)
    requires |run| == |c.run| && HeaderAt(p, run) == NoHeader
    ensures var x := c.(run := run); Resumable(p, c0, x) && Moved(c0, x, t) && Dst(x, t) == Dst(c, t)
  {
  }

  lemma NoMore(p: Platform, c0: Chip, t: seq<Chip>)
    ensures CrashSafe(p, c0, t, t)
  {
  }

  lemma OneMore(p: Platform, c0: Chip, before: seq<Chip>, after: seq<Chip>, x: Chip)
    requires CrashSafe(p, c0, before, after) && Resumable(p, c0, x)
    ensures CrashSafe(p, c0, before, after + [x])
  {
    hide Resumable;
  }

  lemma AllErased(p: Platform, c0: Chip, c: Chip, t: Target)
    requires Resumable(p, c0, c) && Moves(p, c0, t) && ErasedTo(c.run, c0.run, |Dst(c, t)|)
    ensures RunErased(c, t) && |Dst(c, t)| == |Dst(c0, t)|
    ensures forall i :: |Dst(c0, t)| <= i < |c0.run| ==> c.run[i] == c0.run[i]
  {
  }

  /** What a boot after these power cuts finds. */
  ghost function LastLeft(c0: Chip, left: seq<Chip>): Chip {
    if left == [] then c0 else left[|left| - 1]
  }

  /** Any number of power cuts, each in any state the flash goes through, and leaving the states
      `left`: in the end the destination holds the start of the run area, a whole image if it
      fits, with the checksum that was verified, and the image is not found in the run area
      again. What boot starts is never a half copied swapper. All cuts but the last leave the
      header; the moved part of the run area is erased in the end if and only if the last cut
      left the header, or had left that part erased. */
  method BootWithCuts(loader: Loader, cuts: seq<nat>, ghost c0: Chip) returns (started: Started, ghost left: seq<Chip>)
    requires Shaped(loader.p, c0) && loader.chip == c0 && loader.trace == []
    requires Moves(loader.p, c0, Goal(loader.p, c0))
    modifies loader
    ensures var t, h := Goal(loader.p, c0), HeaderAt(loader.p, c0.run);
      && Moved(c0, loader.chip, t) && HeaderAt(loader.p, loader.chip.run) == NoHeader
      && (h.len <= |Dst(c0, t)| ==>
            && Dst(loader.chip, t)[..h.len] == c0.run[..h.len]
            && Crc(loader.p, 0, Dst(loader.chip, t)[..h.len]) == loader.p.ver)
    ensures |c0.run| >= 32 && |loader.chip.swpr| == |c0.swpr| >= 32 && |c0.ldr| <= |c0.run| && |c0.swpr| <= |c0.run|
    ensures var h, next := loader.p.parse(c0.run[..32]), loader.p.parse(loader.chip.swpr[..32]);
      && h.Header? && (h.target == ToSwapper || h.target == ToLoader)
      && (h.target == ToSwapper ==>
            started == Swapper && loader.chip.swpr == c0.run[..|c0.swpr|] && loader.chip.ldr == c0.ldr)
      && (h.target == ToLoader ==>
            && loader.chip.ldr == c0.run[..|c0.ldr|] && loader.chip.swpr == c0.swpr
            && started == if next.Header? && next.target == ToSwapper then Swapper else Nothing)
    ensures loader.cuts == old(loader.cuts) + left && |left| <= |cuts| && (left == [] ==> cuts == [])
    ensures forall i :: 0 <= i < |left| ==> Resumable(loader.p, c0, left[i])
    ensures forall i :: 0 <= i < |left| - 1 ==> HeaderAt(loader.p, left[i].run).Header?
    ensures |left| < |cuts| ==> HeaderAt(loader.p, LastLeft(c0, left).run) == NoHeader
    ensures var t, last := Goal(loader.p, c0), LastLeft(c0, left);
      RunErased(loader.chip, t) <==> HeaderAt(loader.p, last.run).Header? || RunErased(last, t)
  {
    hide Moved, HeaderErased, RunErased, HeaderAt, SwapperReady, Shaped, Resumable;
    ghost var first;
    left := [];
    HeaderFirst(loader.p, c0);
    var i := 0;
    while i < |cuts|
      invariant i <= |cuts| && loader.trace == [] && Resumable(loader.p, c0, loader.chip)
      invariant loader.cuts == old(loader.cuts) + left && |left| <= i && (left == [] ==> i == 0)
      invariant loader.chip == LastLeft(c0, left)
      invariant forall j :: 0 <= j < |left| ==> Resumable(loader.p, c0, left[j])
      invariant forall j :: 0 <= j < |left| - 1 ==> HeaderAt(loader.p, left[j].run).Header?
      invariant |left| < i ==> HeaderAt(loader.p, LastLeft(c0, left).run) == NoHeader
    {
      started, first := loader.Boot(c0);
      if |loader.trace| > 0 {
        loader.PowerCut(cuts[i] % |loader.trace|);
        left := left + [loader.chip];
      }
      i := i + 1;
    }
    started, first := loader.Boot(c0);
    ImageArrived(loader.p, c0, loader.chip);
  }

  lemma HeaderFirst(p: Platform, c0: Chip)
    requires Moves(p, c0, Goal(p, c0)) && Shaped(p, c0)
    ensures HeaderAt(p, c0.run).Header? && RunValid(p, c0) && Resumable(p, c0, c0)
    ensures |c0.run| >= 32 && p.parse(c0.run[..32]) == HeaderAt(p, c0.run) && Goal(p, c0) == p.parse(c0.run[..32]).target
    ensures var h := p.parse(c0.run[..32]); h.len <= |c0.run| && Crc(p, 0, c0.run[..h.len]) == p.ver
  {
    hide Crc;
  }

  lemma ImageArrived(p: Platform, c0: Chip, c: Chip)
    requires Moved(c0, c, Goal(p, c0)) && RunValid(p, c0)
    ensures var t, h := Goal(p, c0), HeaderAt(p, c0.run);
      h.len <= |Dst(c0, t)| ==> Dst(c, t)[..h.len] == c0.run[..h.len] && Crc(p, 0, Dst(c, t)[..h.len]) == p.ver
  {
    hide HeaderAt;
    var t, h := Goal(p, c0), HeaderAt(p, c0.run);
    if h.len <= |Dst(c0, t)| {
      assert c0.run[..|Dst(c0, t)|][..h.len] == c0.run[..h.len];
    }
  }
}
