/** zb_img_swap: the step machine that exchanges two images, and its log. */
module ZbSwap {
  import opened FlashBytes
  import opened ZbCtr
  import opened ZbFlash
  import opened ZbMove
  import opened ZbImages
  import opened ZbSteps

  function Max(a: nat, b: nat): nat {
    if a < b then b else a
  }

  // How many commands are still to be logged

  ghost function NewCount(job: Job): nat
    requires job.l.size > 0
  {
    Sectors(job.l.size, job.img.end)
  }

  ghost function OldCount(job: Job): nat
    requires job.l.size > 0
  {
    Sectors(job.l.size, job.prev.end)
  }

  /** The sector number at which the machine finishes, when "upgrade to run" of sector `k`
      comes next; `u` and `m` are the done flags of the two copies. */
  ghost function LastRound(a: nat, b: nat, k: nat, u: bool, m: bool): nat {
    Max(if u then k else Max(a, k), if m then k else Max(b, k) + 1)
  }

  ghost function FromUpg2Run(job: Job, k: nat, u: bool, m: bool): nat
    requires job.l.size > 0
  {
    if !job.l.inPlace then 2 * (LastRound(NewCount(job), OldCount(job), k, u, m) - k) + 3
    else if u then 2 else Max(NewCount(job), k) - k + 3
  }

  ghost function FromMov2Upg(job: Job, k: nat, u: bool, m: bool): nat
    requires job.l.size > 0
  {
    if u && m then 2 else 1 + FromUpg2Run(job, k + 1, u, m || OldCount(job) <= k)
  }

  /** Commands still to be logged before the swap ends, from `cmd` on. */
  ghost function Left(job: Job, cmd: Cmd, u: bool, m: bool): nat
    requires job.l.size > 0
  {
    match cmd.step
    case Empty => 1 + (if job.l.inPlace then 0 else OldCount(job)) + FromUpg2Run(job, 0, u, m)
    case Run2Mov => cmd.sector + 1 + FromUpg2Run(job, 0, u, m)
    case Upg2Run => FromUpg2Run(job, cmd.sector, u, m)
    case Mov2Upg => FromMov2Upg(job, cmd.sector, u, m)
    case Finalise => 1
    case SwpEnd => 0
  }

  /** The largest sector number a run from `cmd` on reaches. */
  ghost function Top(job: Job, cmd: Cmd, u: bool, m: bool): nat
    requires job.l.size > 0
  {
    var a, b, k := NewCount(job), OldCount(job), cmd.sector;
    match cmd.step
    case Empty => if job.l.inPlace then a + 1 else Max(b, LastRound(a, b, 0, u, m))
    case Run2Mov => Max(k, LastRound(a, b, 0, u, m))
    case Upg2Run => if !job.l.inPlace then LastRound(a, b, k, u, m) else if u then k else Max(a, k) + 1
    case Mov2Upg => if u && m then k else LastRound(a, b, k + 1, u, m || b <= k)
    case _ => k
  }

  lemma Upg2RunCounts(job: Job, k: nat, u: bool, m: bool)
    requires job.l.size > 0
    ensures !job.l.inPlace ==> FromUpg2Run(job, k, u, m) == 1 + FromMov2Upg(job, k, u || NewCount(job) <= k, m)
    ensures job.l.inPlace && !u ==> FromUpg2Run(job, k, u, m) == 1 + FromUpg2Run(job, k + 1, NewCount(job) <= k, m)
    ensures Top(job, Cmd(Mov2Upg, k), u || NewCount(job) <= k, m) <= Top(job, Cmd(Upg2Run, k), u, m) || job.l.inPlace
    ensures job.l.inPlace && !u ==> Top(job, Cmd(Upg2Run, k + 1), NewCount(job) <= k, m) <= Top(job, Cmd(Upg2Run, k), u, m)
  {
    hide Sectors;
  }

  /** A whole swap logs exactly this many commands. */
  lemma WholeSwapCount(job: Job)
    requires JobOk(job)
    ensures job.l.size > 0
    ensures var a, b := (job.img.end + job.l.size - 1) / job.l.size, (job.prev.end + job.l.size - 1) / job.l.size;
      && Left(job, Cmd(Empty, 0), false, job.l.inPlace) == (if job.l.inPlace then a + 4 else b + 2 * Max(a, b + 1) + 4)
      && Left(job, Cmd(Empty, 0), false, job.l.inPlace) <= 3 * job.l.count + 6
      && Top(job, Cmd(Empty, 0), false, job.l.inPlace) <= job.l.count + 1
  {
    SlotHolds(job.l, job.img.end);
    SlotHolds(job.l, job.prev.end);
    SectorsAre(job.l.size, job.img.end);
    SectorsAre(job.l.size, job.prev.end);
    hide Sectors, ParseOk, InfoOk;
  }

  /** Room for three commands a sector and one more is enough in place, and otherwise if and
      only if the images leave so many sectors unused. */
  lemma DocumentedRoom(job: Job)
    requires JobOk(job)
    ensures var n, a, b := job.l.count, NewCount(job), OldCount(job);
      Left(job, Cmd(Empty, 0), false, job.l.inPlace) <= 3 * n + 1 <==>
        if job.l.inPlace then n > 1
        else 2 * Max(a, b + 1) + b + 3 <= 3 * n
  {
    WholeSwapCount(job);
    SlotHolds(job.l, job.img.end);
    HasSectors(job);
    hide Left, Sectors, JobOk;
  }

  lemma HasSectors(job: Job)
    requires JobOk(job)
    ensures NewCount(job) > 0
  {
    hide ParseOk, Sectors, Off;
    OffZero(job.l.size);
    SectorsBound(job.l.size, job.img.end, 0);
  }

  lemma SectorsAre(size: nat, end: nat)
    requires size > 0
    ensures Sectors(size, end) == (end + size - 1) / size
  {
  }

  lemma SlotHolds(l: Layout, end: nat)
    requires l.size > 0 && end <= Off(l.size, l.count)
    ensures Sectors(l.size, end) <= l.count
  {
    hide Off, Sectors;
    SectorsBound(l.size, end, l.count);
  }

  /** The first sector that is still to be decrypted into the run slot from `cmd` on. */
  function FirstCopy(l: Layout, cmd: Cmd): nat {
    match cmd.step
    case Upg2Run => cmd.sector
    case Mov2Upg => cmd.sector + 1
    case Finalise => l.count
    case SwpEnd => l.count
    case _ => 0
  }

  /** There is a decryption to come for which only the header in the half swapped run slot is
      left to load the key from. */
  predicate NeedsKey(l: Layout, end: nat, cmd: Cmd) {
    0 < FirstCopy(l, cmd) && Off(l.size, FirstCopy(l, cmd)) < end
  }

  /** After a power cut in this state the key is needed again. */
  ghost predicate LosesKey(job: Job, c: Chip) {
    LastCmd(c.log).Good? && NeedsKey(job.l, job.img.end, LastCmd(c.log).cmd)
  }

  /** All image bytes from sector `k` on are to be decrypted with `cipher`. */
  ghost predicate PlannedFrom(job: Job, k: nat, cipher: Cipher) {
    forall j :: k <= j < |job.plan| && Off(job.l.size, j) < job.img.end ==> job.plan[j] == cipher
  }

  lemma PlannedMore(job: Job, k: nat, cipher: Cipher)
    requires PlannedFrom(job, k, cipher)
    ensures PlannedFrom(job, k + 1, cipher)
  {
  }

  lemma PlannedHere(job: Job, k: nat, cipher: Cipher)
    requires PlannedFrom(job, k, cipher) && PlanOk(job) && k < job.l.count && Off(job.l.size, k) < job.img.end
    ensures k < |job.plan| && job.plan[k] == cipher
  {
  }

  lemma EndedPlanned(job: Job, k: nat, j: nat, cipher: Cipher)
    requires job.img.end <= Off(job.l.size, k) && (k <= j || |job.plan| <= j)
    ensures PlannedFrom(job, j, cipher)
  {
    forall i | k <= i ensures job.img.end <= Off(job.l.size, i) {
      OffMonotone(job.l.size, k, i);
    }
  }

  // What a power cut may leave

  /** What a restart may find: the size of the log, how many of its slots may be in use when
      the swap ends, the largest sector number logged, and whether the first sector is in the
      run slot. */
  datatype Limits = Limits(slots: nat, need: nat, top: nat, begun: bool)

  /** The command that the log asks for. */
  ghost function Asked(log: seq<LogSlot>): Cmd {
    match LastCmd(log)
    case Good(cmd) => cmd
    case _ => Cmd(Empty, 0)
  }

  /** A restart at `cmd`, without the done flags, stays within the limits. */
  ghost predicate Fits(job: Job, lim: Limits, cmd: Cmd, used: nat)
    requires job.l.size > 0
  {
    && used + Left(job, cmd, false, job.l.inPlace) <= lim.need
    && Top(job, cmd, false, job.l.inPlace) <= lim.top
    && (cmd.step == Empty ==> cmd.sector == 0)
    && (lim.begun ==> FirstCopy(job.l, cmd) > 0)
  }

  ghost predicate Resumable(job: Job, lim: Limits, c: Chip) {
    exists used :: ResumableAt(job, lim, c, used)
  }

  ghost predicate ResumableAt(job: Job, lim: Limits, c: Chip, used: nat) {
    && |c.log| == lim.slots && LogOk(c.log, used)
    && LastCmd(c.log) != Torn && Inv(job, Asked(c.log), c)
    && job.l.size > 0 && Fits(job, lim, Asked(c.log), used)
  }

  /** All states added to `before` can be resumed from. */
  ghost predicate CrashSafe(job: Job, lim: Limits, before: seq<Chip>, after: seq<Chip>) {
    before <= after && forall i :: |before| <= i < |after| ==> Resumable(job, lim, after[i])
  }

  lemma CrashSafeTrans(job: Job, lim: Limits, a: seq<Chip>, b: seq<Chip>, c: seq<Chip>)
    requires CrashSafe(job, lim, a, b) && CrashSafe(job, lim, b, c)
    ensures CrashSafe(job, lim, a, c)
  {
    hide Resumable;
    forall i | |a| <= i < |c| ensures Resumable(job, lim, c[i]) {
      if i < |b| {
        assert b[i] == c[i];
      }
    }
  }

  /** The log is in order and asks for `cmd`, which fits the limits. */
  ghost predicate AsksFor(job: Job, lim: Limits, cmd: Cmd, log: seq<LogSlot>, used: nat) {
    && LastCmd(log) != Torn && Asked(log) == cmd && LogOk(log, used) && |log| == lim.slots
    && job.l.size > 0 && Fits(job, lim, cmd, used)
  }

  /** While a step writes its target, the log makes a restart take that step again. */
  lemma StepIsCrashSafe(job: Job, lim: Limits, cmd: Cmd, c: Chip, before: seq<Chip>, after: seq<Chip>, used: nat)
    requires Inv(job, cmd, c) && Writes(cmd.step) && AsksFor(job, lim, cmd, c.log, used)
    requires OnlyAt(job.l, c, Target(cmd), before, after)
    ensures CrashSafe(job, lim, before, after)
  {
    hide Inv, LogOk, LastCmd, Fits;
    forall i | |before| <= i < |after| ensures Resumable(job, lim, after[i]) {
      assert DiffersAt(job.l, c, Target(cmd), after[i]);
      StepIsRestartable(job, cmd, c, after[i]);
      assert ResumableAt(job, lim, after[i], used);
    }
  }

  /** While the next command is appended, a restart takes the old step again or the new one. */
  lemma AppendIsCrashSafe(job: Job, lim: Limits, cmd: Cmd, next: Cmd, c: Chip, used: nat, torn: LogSlot)
    requires AsksFor(job, lim, cmd, c.log, used) && used < |c.log| && !torn.Good?
    requires Fits(job, lim, cmd, used + 1) && Fits(job, lim, next, used + 1)
    requires Inv(job, cmd, c) && Inv(job, next, c)
    ensures var x := c.(log := c.log[used := torn]); Resumable(job, lim, x)
    ensures var y := c.(log := c.log[used := Good(next)]);
      Resumable(job, lim, y) && Inv(job, next, y) && AsksFor(job, lim, next, y.log, used + 1)
  {
    hide Inv, LogOk, LastCmd, Fits;
    AppendCmd(c.log, used, torn);
    AppendCmd(c.log, used, Good(next));
    var x := c.(log := c.log[used := torn]);
    var y := c.(log := c.log[used := Good(next)]);
    LogIsApart(job, cmd, c, x.log);
    LogIsApart(job, next, c, y.log);
    assert ResumableAt(job, lim, x, if torn == Blank then used else used + 1);
    assert ResumableAt(job, lim, y, used + 1);
  }

  class Swapper {
    const flash: Flash
    const parse: Sector -> Option<Info>
    /** Image information is loaded correctly again after a reset. */
    const loads: bool
    /** What the key buffers hold as long as no key was loaded. */
    const junk: Key
    ghost const job: Job
    /** The key of the new image is in RAM. */
    var loaded: bool

    constructor (flash: Flash, parse: Sector -> Option<Info>, loads: bool, junk: Key, ghost job: Job)
      requires flash.Valid() && flash.l == job.l && parse == job.parse && JobOk(job)
      ensures this.flash == flash && this.job == job && this.loads == loads && this.junk == junk
      ensures Valid() && !loaded
    {
      this.flash, this.parse, this.loads, this.junk := flash, parse, loads, junk;
      this.job := job;
      loaded := false;
    }

    ghost predicate Valid()
      reads flash
    {
      flash.Valid() && flash.l == job.l && parse == job.parse && JobOk(job)
    }

    /** What the key buffers hold for sectors from `k` on, when `k` is copied next. */
    ghost function CipherFrom(k: nat): Cipher
      reads this
    {
      if loads || loaded || k == 0 then RightCipher(job.img) else Cipher(job.img.start, junk)
    }

    /** The sectors that are still to be decrypted from `cmd` on will be so as planned. */
    ghost predicate Planned(cmd: Cmd)
      reads this
    {
      PlannedFrom(job, FirstCopy(job.l, cmd), CipherFrom(FirstCopy(job.l, cmd)))
    }

    /** Image information of the new image for sector `k`. For sector 0 it is loaded from the
        upgrade slot. Later the header is taken from the run slot; after a reset the image
        hash is then calculated over a half swapped slot, fails, and no key is loaded. */
    method LoadNew(k: nat) returns (end: nat, encStart: nat, key: Key)
      requires Valid() && (k > 0 || NewInUpg(job, flash.chip, 0)) && (k > 0 ==> NewInRun(job, flash.chip, 0))
      modifies this`loaded
      ensures end == job.img.end
      ensures Cipher(encStart, key) == old(CipherFrom(k))
      ensures loaded == (old(loaded) || k == 0 || loads)
    {
      hide ParseOk, Bytes, Off, NewInUpg, NewInRun;
      NewHeader(job, flash.chip);
      UpgradePlace(job.l, flash.chip);
      var header := parse(if k == 0 then At(flash.chip, PlaceOf(flash.l, Upgrade, 0)) else flash.chip.phys[0]);
      var info := header.value;
      if !loaded && k > 0 && !loads {
        return info.end, info.start, junk;
      }
      loaded := true;
      return info.end, EncStart(info), KeyOf(info);
    }

    /** RUN2MOV: moves sector `k` of the run slot up. */
    method StepRun2Mov(k: nat, ghost lim: Limits, ghost used: nat)
      requires Valid() && Inv(job, Cmd(Run2Mov, k), flash.chip)
      requires AsksFor(job, lim, Cmd(Run2Mov, k), flash.chip.log, used)
      modifies flash`chip, flash`trace
      ensures Valid() && flash.chip.log == old(flash.chip).log
      ensures Inv(job, Cmd(Run2Mov, k), flash.chip)
      ensures Inv(job, if k == 0 then Cmd(Upg2Run, 0) else Cmd(Run2Mov, k - 1), flash.chip)
      ensures CrashSafe(job, lim, old(flash.trace), flash.trace)
    {
      hide ParseOk, Bytes, Off, Moved, Agree, SectorInv, InvNoOld, AsksFor, Resumable;
      ghost var c, p := flash.chip, Phys(k + 1);
      OldFacts(job, Cmd(Run2Mov, k), c);
      var info := parse(flash.chip.phys[0]).value;
      var off := k * flash.l.size;
      OffIs(flash.l.size, k);
      var ok := flash.Erase(Move, k);
      ErasedTarget(job.l, c, p, flash.chip);
      ghost var mid, t := flash.chip, flash.trace;
      ImgMove(flash, Run, Move, k, off, flash.l.size, info.end, KeyOf(info));
      OnlyAtTrans(job.l, c, mid, p, old(flash.trace), t, flash.trace);
      DiffersTrans(job.l, c, mid, p, flash.chip);
      StepIsCrashSafe(job, lim, Cmd(Run2Mov, k), c, old(flash.trace), flash.trace, used);
      StepIsRestartable(job, Cmd(Run2Mov, k), c, flash.chip);
      AfterRun2Mov(job, c, k, flash.chip, KeyOf(info));
    }

    /** UPG2RUN: decrypts sector `k` of the new image into the run slot; `ended` when the
        image has no such sector. */
    method StepUpg2Run(k: nat, ghost lim: Limits, ghost used: nat) returns (ended: bool)
      requires Valid() && Inv(job, Cmd(Upg2Run, k), flash.chip) && Planned(Cmd(Upg2Run, k))
      requires AsksFor(job, lim, Cmd(Upg2Run, k), flash.chip.log, used)
      modifies flash`chip, flash`trace, this`loaded
      ensures Valid() && flash.chip.log == old(flash.chip).log
      ensures Inv(job, Cmd(Upg2Run, k), flash.chip)
      ensures Inv(job, if job.l.inPlace then Cmd(Upg2Run, k + 1) else Cmd(Mov2Upg, k), flash.chip)
      ensures ended == (job.img.end <= Off(job.l.size, k))
      ensures Planned(Cmd(Upg2Run, k + 1))
      ensures CrashSafe(job, lim, old(flash.trace), flash.trace)
    {
      hide ParseOk, Bytes, Off, Moved, Agree, SectorInv, InvNoOld, AsksFor, Resumable, CrashSafe, PlannedFrom, PlanOk, OnlyAt, ErasedFrom;
      ghost var c, cmd, planned := flash.chip, Cmd(Upg2Run, k), CipherFrom(k);
      var off := k * flash.l.size;
      OffIs(flash.l.size, k);
      var ok := flash.Erase(Run, k);
      if ok {
        ErasedTarget(job.l, c, Phys(k), flash.chip);
        StepIsRestartable(job, cmd, c, flash.chip);
        StepIsCrashSafe(job, lim, cmd, c, old(flash.trace), flash.trace, used);
      } else {
        BeyondSlot(job.l, job.img, k);
        CrashSafeNothing(job, lim, flash.trace);
      }
      NewFacts(job, k, flash.chip);
      var end, encStart, key := LoadNew(k);
      PlannedMore(job, k, planned);
      if off < end {
        UpgradeSector(job, c, k);
        PlannedHere(job, k, planned);
        var len := if flash.l.size < end - off then flash.l.size else end - off;
        BytesAre(job.l.size, end, k, off, len);
        OffsetAligned(job, k);
        ghost var mid, t := flash.chip, flash.trace;
        ImgMove(flash, Upgrade, Run, k, off, len, encStart, key);
        OnlyAtTrans(job.l, c, mid, Phys(k), old(flash.trace), t, flash.trace);
        DiffersTrans(job.l, c, mid, Phys(k), flash.chip);
        StepIsCrashSafe(job, lim, cmd, c, old(flash.trace), flash.trace, used);
        StepIsRestartable(job, cmd, c, flash.chip);
        ended := false;
      } else {
        ended := true;
      }
      AfterUpg2Run(job, c, k, flash.chip);
    }

    /** MOV2UPG: encrypts sector `k` of the old image into the upgrade slot; `ended` when the
        image has no such sector or there is no old image. */
    method StepMov2Upg(k: nat, ghost lim: Limits, ghost used: nat) returns (ended: bool)
      requires Valid() && Inv(job, Cmd(Mov2Upg, k), flash.chip)
      requires AsksFor(job, lim, Cmd(Mov2Upg, k), flash.chip.log, used)
      modifies flash`chip, flash`trace
      ensures Valid() && flash.chip.log == old(flash.chip).log
      ensures Inv(job, Cmd(Mov2Upg, k), flash.chip)
      ensures Inv(job, Cmd(Upg2Run, k + 1), flash.chip)
      ensures ended == (job.prev.end <= Off(job.l.size, k))
      ensures CrashSafe(job, lim, old(flash.trace), flash.trace)
    {
      hide ParseOk, Bytes, Off, Moved, Agree, SectorInv, InvNoOld, AsksFor, Resumable, CrashSafe, OnlyAt, ErasedFrom;
      ghost var c, cmd := flash.chip, Cmd(Mov2Upg, k);
      var off := k * flash.l.size;
      OffIs(flash.l.size, k);
      var ok := flash.Erase(Upgrade, k);
      if ok {
        ErasedTarget(job.l, c, Upg(k), flash.chip);
        StepIsRestartable(job, cmd, c, flash.chip);
        StepIsCrashSafe(job, lim, cmd, c, old(flash.trace), flash.trace, used);
      } else {
        BeyondSlot(job.l, job.prev, k);
        CrashSafeNothing(job, lim, flash.trace);
      }
      MoveFacts(job, k, flash.chip, ok);
      var header := parse(if k == 0 then flash.chip.phys[1] else flash.chip.upg[0]);
      var info := if header.Some? then header.value else Info(0, off, None);
      if off < info.end {
        MoveSector(job, c, k);
        var len := if flash.l.size < info.end - off then flash.l.size else info.end - off;
        BytesAre(job.l.size, info.end, k, off, len);
        OldOffsetAligned(job, k);
        ghost var mid, t := flash.chip, flash.trace;
        ImgMove(flash, Move, Upgrade, k, off, len, EncStart(info), KeyOf(info));
        OnlyAtTrans(job.l, c, mid, Upg(k), old(flash.trace), t, flash.trace);
        DiffersTrans(job.l, c, mid, Upg(k), flash.chip);
        StepIsCrashSafe(job, lim, cmd, c, old(flash.trace), flash.trace, used);
        StepIsRestartable(job, cmd, c, flash.chip);
        ended := false;
      } else {
        ended := true;
      }
      AfterMov2Upg(job, c, k, flash.chip);
    }

    /** The done flags are set only when the image in question has ended. */
    ghost predicate FlagsOk(cmd: Cmd, u: bool, m: bool) {
      match cmd.step
      case Empty => !u && m == job.l.inPlace
      case Run2Mov => !u && m == job.l.inPlace
      case Upg2Run => CopiesEnded(cmd.sector, u, m)
      case Mov2Upg => CopiesEnded(cmd.sector, u, m)
      case _ => true
    }

    ghost predicate CopiesEnded(k: nat, u: bool, m: bool) {
      && (u ==> job.img.end <= Off(job.l.size, k))
      && (if job.l.inPlace then m else m ==> 0 < k && job.prev.end <= Off(job.l.size, k))
    }

    /** The last sector of the old image, found by counting up. */
    method LastSector(end: nat) returns (sector: nat)
      requires Valid() && end == job.prev.end && 0 < OldCount(job) <= 0x100
      ensures sector + 1 == OldCount(job)
      ensures Off(job.l.size, sector) < end <= Off(job.l.size, sector + 1)
    {
      hide ParseOk, Bytes, Sectors, Off, JobOk;
      sector := 0;
      SectorsBound(job.l.size, end, 0);
      OffIs(job.l.size, 1);
      SectorsBound(job.l.size, end, 1);
      while (sector + 1) * flash.l.size < end
        invariant Off(job.l.size, sector) < end && sector < OldCount(job)
        invariant (sector + 1) * flash.l.size < end <==> sector + 1 < OldCount(job)
        decreases OldCount(job) - sector
      {
        OffIs(job.l.size, sector + 1);
        OffIs(job.l.size, sector + 2);
        SectorsBound(job.l.size, end, sector + 1);
        SectorsBound(job.l.size, end, sector + 2);
        sector := (sector + 1) % 0x100;
      }
      OffIs(job.l.size, sector + 1);
    }

    /** The start of a swap: where the last sector of the old image is. */
    method StepEmpty() returns (next: Cmd)
      requires Valid() && Inv(job, Cmd(Empty, 0), flash.chip)
      requires Top(job, Cmd(Empty, 0), false, job.l.inPlace) < 0x100
      ensures Inv(job, next, flash.chip) && FlagsOk(next, false, job.l.inPlace)
      ensures next.step == Run2Mov || next == Cmd(Upg2Run, 0)
      ensures Left(job, Cmd(Empty, 0), false, job.l.inPlace) == 1 + Left(job, next, false, job.l.inPlace)
      ensures Top(job, next, false, job.l.inPlace) <= Top(job, Cmd(Empty, 0), false, job.l.inPlace)
    {
      hide ParseOk, Bytes, Moved, Agree, SectorInv, Sectors, Off, InfoOk, InvNoOld, FromUpg2Run, LastRound;
      NoOldCount(job);
      if flash.l.inPlace {
        StartCopy(job, flash.chip);
        InPlaceTop(job);
        return Cmd(Upg2Run, 0);
      }
      StartFacts(job, flash.chip);
      var header := parse(flash.chip.phys[0]);
      if header.None? {
        StartCopy(job, flash.chip);
        return Cmd(Upg2Run, 0);
      }
      var sector := LastSector(header.value.end);
      StartMove(job, flash.chip, sector);
      return Cmd(Run2Mov, sector);
    }

    method ExecuteUpg2Run(k: nat, u: bool, m: bool, ghost lim: Limits, ghost used: nat) returns (next: Cmd, u2: bool)
      requires Valid() && Inv(job, Cmd(Upg2Run, k), flash.chip) && CopiesEnded(k, u, m) && Planned(Cmd(Upg2Run, k))
      requires AsksFor(job, lim, Cmd(Upg2Run, k), flash.chip.log, used)
      requires Top(job, Cmd(Upg2Run, k), u, m) < 0x100
      modifies flash`chip, flash`trace, this`loaded
      ensures Valid() && flash.chip.log == old(flash.chip).log
      ensures Inv(job, Cmd(Upg2Run, k), flash.chip) && Inv(job, next, flash.chip)
      ensures FlagsOk(next, u2, m) && Planned(next) && next.step in {Upg2Run, Mov2Upg, Finalise}
      ensures Left(job, Cmd(Upg2Run, k), u, m) == 1 + Left(job, next, u2, m)
      ensures Top(job, next, u2, m) <= Top(job, Cmd(Upg2Run, k), u, m)
      ensures k == 0 ==> FirstCopy(job.l, next) == 1
      ensures k > 0 ==> FirstCopy(job.l, next) > 0
      ensures CrashSafe(job, lim, old(flash.trace), flash.trace)
    {
      hide ParseOk, AsksFor, CrashSafe, Off, Inv, LastRound, FromUpg2Run, FromMov2Upg, Top, OldCount, Sectors, PlannedFrom;
      CrashSafeNothing(job, lim, flash.trace);
      SectorsBound(job.l.size, job.img.end, k);
      OffMonotone(job.l.size, k, k + 1);
      Upg2RunCounts(job, k, u, m);
      Upg2RunTop(job, k, u, m);
      OffZero(job.l.size);
      u2 := u;
      if u {
        EndedStays(job, k, flash.chip);
        EndedPlanned(job, k, k + 1, CipherFrom(k + 1));
        EndedPlanned(job, k, job.l.count, CipherFrom(job.l.count));
        next := if flash.l.inPlace then Cmd(Finalise, k) else Cmd(Mov2Upg, k);
      } else {
        u2 := StepUpg2Run(k, lim, used);
        next := if flash.l.inPlace then Cmd(Upg2Run, (k + 1) % 0x100) else Cmd(Mov2Upg, k);
      }
    }

    method ExecuteMov2Upg(k: nat, u: bool, m: bool, ghost lim: Limits, ghost used: nat) returns (next: Cmd, m2: bool)
      requires Valid() && Inv(job, Cmd(Mov2Upg, k), flash.chip) && CopiesEnded(k, u, m) && Planned(Cmd(Mov2Upg, k))
      requires AsksFor(job, lim, Cmd(Mov2Upg, k), flash.chip.log, used)
      requires Top(job, Cmd(Mov2Upg, k), u, m) < 0x100
      modifies flash`chip, flash`trace
      ensures Valid() && flash.chip.log == old(flash.chip).log
      ensures Inv(job, Cmd(Mov2Upg, k), flash.chip) && Inv(job, next, flash.chip)
      ensures FlagsOk(next, u, m2) && Planned(next) && next.step in {Upg2Run, Finalise}
      ensures FirstCopy(job.l, next) > 0
      ensures Left(job, Cmd(Mov2Upg, k), u, m) == 1 + Left(job, next, u, m2)
      ensures Top(job, next, u, m2) <= Top(job, Cmd(Mov2Upg, k), u, m)
      ensures CrashSafe(job, lim, old(flash.trace), flash.trace)
    {
      hide ParseOk, AsksFor, CrashSafe, Off, Inv, LastRound, FromUpg2Run, Top, NewCount, PlannedFrom;
      CrashSafeNothing(job, lim, flash.trace);
      SectorsBound(job.l.size, job.prev.end, k);
      OffMonotone(job.l.size, k, k + 1);
      MoveOnlyClassic(job, Cmd(Mov2Upg, k), flash.chip);
      Mov2UpgTop(job, k, u, m);
      m2 := m;
      if m {
        if u {
          Finished(job, Cmd(Mov2Upg, k), flash.chip, Finalise);
          EndedPlanned(job, k, job.l.count, CipherFrom(job.l.count));
          next := Cmd(Finalise, k);
        } else {
          MovedStays(job, k, flash.chip);
          next := Cmd(Upg2Run, (k + 1) % 0x100);
        }
      } else {
        m2 := StepMov2Upg(k, lim, used);
        next := Cmd(Upg2Run, (k + 1) % 0x100);
      }
    }

    /** One turn of the loop: executes `cmd` and says what is to be logged next. */
    method Execute(cmd: Cmd, u: bool, m: bool, ghost lim: Limits, ghost used: nat) returns (next: Cmd, u2: bool, m2: bool)
      requires Valid() && Inv(job, cmd, flash.chip) && cmd.step != SwpEnd && FlagsOk(cmd, u, m) && Planned(cmd)
      requires cmd.step == Empty ==> cmd.sector == 0
      requires AsksFor(job, lim, cmd, flash.chip.log, used)
      requires Top(job, cmd, u, m) < 0x100
      modifies flash`chip, flash`trace, this`loaded
      ensures Valid() && flash.chip.log == old(flash.chip).log
      ensures Inv(job, cmd, flash.chip) && Inv(job, next, flash.chip)
      ensures FlagsOk(next, u2, m2) && Planned(next) && next.step != Empty
      ensures Left(job, cmd, u, m) == 1 + Left(job, next, u2, m2)
      ensures Top(job, next, u2, m2) <= Top(job, cmd, u, m)
      ensures BeforeCopy(cmd) ==> BeforeCopy(next) || FirstCopy(job.l, next) == 1
      ensures FirstCopy(job.l, cmd) > 0 ==> FirstCopy(job.l, next) > 0
      ensures cmd.step == Finalise ==> next.step == SwpEnd && flash.chip == old(flash.chip)
      ensures CrashSafe(job, lim, old(flash.trace), flash.trace)
    {
      hide ParseOk, AsksFor, CrashSafe, Off, Inv, NewCount, OldCount, FromUpg2Run, FromMov2Upg, LastRound, PlannedFrom;
      u2, m2 := u, m;
      CrashSafeNothing(job, lim, flash.trace);
      match cmd.step
      case Empty =>
        next := StepEmpty();
      case Run2Mov =>
        StepRun2Mov(cmd.sector, lim, used);
        MoveOnlyClassic(job, cmd, flash.chip);
        next := if cmd.sector == 0 then Cmd(Upg2Run, 0) else Cmd(Run2Mov, cmd.sector - 1);
      case Upg2Run =>
        next, u2 := ExecuteUpg2Run(cmd.sector, u, m, lim, used);
      case Mov2Upg =>
        next, m2 := ExecuteMov2Upg(cmd.sector, u, m, lim, used);
      case Finalise =>
        Finished(job, cmd, flash.chip, SwpEnd);
        next := Cmd(SwpEnd, cmd.sector);
    }

    /** Appends the next command; until it is complete, a restart takes the old step again. */
    method Append(cmd: Cmd, next: Cmd, ghost lim: Limits, ghost used: nat)
      requires Valid() && Inv(job, cmd, flash.chip) && Inv(job, next, flash.chip)
      requires AsksFor(job, lim, cmd, flash.chip.log, used) && used < |flash.chip.log|
      requires Fits(job, lim, cmd, used + 1) && Fits(job, lim, next, used + 1)
      modifies flash`chip, flash`trace
      ensures Valid() && Inv(job, next, flash.chip) && AsksFor(job, lim, next, flash.chip.log, used + 1)
      ensures flash.trace != [] && flash.trace[|flash.trace| - 1] == flash.chip
      ensures LastCmd(flash.chip.log) == Good(next) && flash.chip == old(flash.chip).(log := flash.chip.log)
      ensures |old(flash.trace)| < |flash.trace| && CrashSafe(job, lim, old(flash.trace), flash.trace)
    {
      hide ParseOk, Inv, Resumable, LastCmd, LogOk;
      ghost var c := flash.chip;
      var ok; ghost var torn;
      ok, torn := flash.CmdWrite(next, used);
      AppendCmd(c.log, used, Good(next));
      AppendIsCrashSafe(job, lim, cmd, next, c, used, torn);
    }

    /** One turn of the loop of zb_img_swap: the command is executed and the next one logged. */
    method Turn(cmd: Cmd, u: bool, m: bool, ghost lim: Limits, ghost used: nat, ghost total: nat)
        returns (next: Cmd, u2: bool, m2: bool)
      requires Valid() && Inv(job, cmd, flash.chip) && cmd.step != SwpEnd && FlagsOk(cmd, u, m) && Planned(cmd)
      requires AsksFor(job, lim, cmd, flash.chip.log, used) && (cmd.step == Empty ==> cmd.sector == 0)
      requires used + Left(job, cmd, u, m) == total && Top(job, cmd, u, m) < lim.top <= 0x100
      requires total + 3 <= lim.need && total <= lim.slots && (lim.begun ==> FirstCopy(job.l, cmd) > 0)
      modifies flash`chip, flash`trace, this`loaded
      ensures Valid() && Inv(job, next, flash.chip) && next.step != Empty && FlagsOk(next, u2, m2) && Planned(next)
      ensures AsksFor(job, lim, next, flash.chip.log, used + 1) && LastCmd(flash.chip.log) == Good(next)
      ensures used + 1 + Left(job, next, u2, m2) == total && Top(job, next, u2, m2) < lim.top
      ensures BeforeCopy(cmd) ==> BeforeCopy(next) || FirstCopy(job.l, next) == 1
      ensures lim.begun ==> FirstCopy(job.l, next) > 0
      ensures cmd.step == Finalise ==>
        next.step == SwpEnd && flash.chip.phys == old(flash.chip).phys && flash.chip.upg == old(flash.chip).upg
      ensures flash.trace != [] && flash.trace[|flash.trace| - 1] == flash.chip
      ensures |old(flash.trace)| < |flash.trace| && CrashSafe(job, lim, old(flash.trace), flash.trace)
    {
      hide ParseOk, JobOk, Inv, LogOk, LastCmd, CrashSafe, Top, Left, AsksFor, FlagsOk, PlannedFrom, Fits;
      SlotsLeft(job, lim, cmd, flash.chip.log, used);
      RestartFits(lim, cmd, u, m, used, total);
      next, u2, m2 := Execute(cmd, u, m, lim, used);
      NextBelowTop(job, next, u2, m2);
      RestartFits(lim, next, u2, m2, used + 1, total);
      ghost var t0 := flash.trace;
      Prefix(job, lim, old(flash.trace), t0);
      Append(cmd, next, lim, used);
      CrashSafeTrans(job, lim, old(flash.trace), t0, flash.trace);
    }

    /** zb_img_swap: starts a swap or continues the one in the log. It ends with both images
        in their places, after logging exactly `Left` commands. A swap that is started, of an
        image of two sectors or more, passes a state, number `lost` of the trace, in which a
        power cut loses the key. */
    method ImgSwap(runValid: bool, ghost lim: Limits, ghost used0: nat) returns (ghost used: nat, ghost lost: nat)
      requires Valid() && !loaded && LogOk(flash.chip.log, used0) && |flash.chip.log| == lim.slots
      requires !runValid ==> MayStart(lim, used0) && Planned(NextCmd(flash.chip.log))
      modifies flash`chip, flash`trace, this`loaded
      ensures Valid() && LogOk(flash.chip.log, used) && |flash.chip.log| == lim.slots
      ensures runValid ==> flash.chip == old(flash.chip) && flash.trace == old(flash.trace)
      ensures !runValid ==> Swapped(job, flash.chip)
      ensures !runValid ==>
        used == old(StartUsed(flash.chip.log, used0)) + Left(job, old(NextCmd(flash.chip.log)), false, job.l.inPlace)
      ensures !runValid ==> |old(flash.trace)| < |flash.trace| && CrashSafe(job, lim, old(flash.trace), flash.trace)
      ensures old(NextCmd(flash.chip.log)).step == Finalise ==>
        flash.chip.phys == old(flash.chip).phys && flash.chip.upg == old(flash.chip).upg
      ensures !runValid && old(NextCmd(flash.chip.log)).step == Empty && NewCount(job) > 1 ==>
        |old(flash.trace)| <= lost < |flash.trace| && LosesKey(job, flash.trace[lost])
    {
      hide ParseOk, JobOk, Inv, LogOk, LastCmd, CrashSafe, Top, Left, AsksFor, FlagsOk, PlannedFrom, NeedsKey, Fits, LosesKey, NewCount;
      used, lost := used0, 0;
      if runValid {
        return;
      }
      ghost var total := StartUsed(flash.chip.log, used0) + Left(job, NextCmd(flash.chip.log), false, job.l.inPlace);
      ghost var fresh0 := NextCmd(flash.chip.log).step == Empty && NewCount(job) > 1;
      var cmd;
      cmd, used := Begin(lim, used0);
      var u, m := false, flash.l.inPlace;
      FirstFlags(cmd);
      while cmd.step != SwpEnd
        invariant Valid() && Inv(job, cmd, flash.chip) && FlagsOk(cmd, u, m) && Planned(cmd)
        invariant AsksFor(job, lim, cmd, flash.chip.log, used) && (cmd.step == Empty ==> cmd.sector == 0)
        invariant cmd.step == SwpEnd ==> LastCmd(flash.chip.log) == Good(cmd)
        invariant used + Left(job, cmd, u, m) == total && Top(job, cmd, u, m) < lim.top
        invariant total + 3 <= lim.need && total <= lim.slots && lim.top <= 0x100
        invariant CrashSafe(job, lim, old(flash.trace), flash.trace) && old(flash.trace) <= flash.trace
        invariant cmd.step == SwpEnd ==> |old(flash.trace)| < |flash.trace|
        invariant lim.begun ==> FirstCopy(job.l, cmd) > 0
        invariant old(NextCmd(flash.chip.log)).step == Finalise ==> cmd.step == Finalise || cmd.step == SwpEnd
        invariant old(NextCmd(flash.chip.log)).step == Finalise ==>
          flash.chip.phys == old(flash.chip).phys && flash.chip.upg == old(flash.chip).upg
        invariant fresh0 && !BeforeCopy(cmd) ==>
          |old(flash.trace)| <= lost < |flash.trace| && LosesKey(job, flash.trace[lost])
        decreases Left(job, cmd, u, m)
      {
        ghost var t0 := flash.trace;
        var next, u2, m2 := Turn(cmd, u, m, lim, used, total);
        Prefix(job, lim, t0, flash.trace);
        CrashSafeTrans(job, lim, old(flash.trace), t0, flash.trace);
        if fresh0 && BeforeCopy(cmd) && !BeforeCopy(next) {
          lost := |flash.trace| - 1;
          KeyNeeded(job, next, flash.chip);
        }
        cmd, u, m, used := next, u2, m2, used + 1;
      }
      NothingLeft(job, cmd, u, m);
      SlotsLeft(job, lim, cmd, flash.chip.log, used);
    }

    /** The command to start or go on with; a new swap starts with an erased log. */
    method Begin(ghost lim: Limits, ghost used0: nat) returns (cmd: Cmd, ghost used: nat)
      requires Valid() && LogOk(flash.chip.log, used0) && |flash.chip.log| == lim.slots
      requires MayStart(lim, used0) && Planned(NextCmd(flash.chip.log))
      modifies flash`chip, flash`trace, this`loaded
      ensures Valid() && cmd == NextCmd(old(flash.chip.log)) && cmd.step != SwpEnd && Inv(job, cmd, flash.chip) && Planned(cmd)
      ensures flash.chip == old(flash.chip).(log := flash.chip.log)
      ensures used == StartUsed(old(flash.chip.log), used0) && AsksFor(job, lim, cmd, flash.chip.log, used)
      ensures CrashSafe(job, lim, old(flash.trace), flash.trace) && old(flash.trace) <= flash.trace
    {
      hide ParseOk, JobOk, Inv, LogOk, LastCmd, CrashSafe, Top, Left, AsksFor, PlannedFrom, Fits;
      var last := flash.CmdRead(used0);
      used, cmd := used0, Cmd(Empty, 0);
      if last.Good? && last.cmd.step != SwpEnd {
        cmd := last.cmd;
        CrashSafeNothing(job, lim, flash.trace);
        StartsWith(job, lim, cmd, flash.chip.log, used0);
      } else {
        loaded := true;
        ghost var c, t := flash.chip, flash.trace;
        flash.EraseLog();
        used := 0;
        LogIsApart(job, cmd, c, flash.chip.log);
        StartsWith(job, lim, cmd, flash.chip.log, 0);
        BlankLog(job, lim, flash.chip, t);
      }
    }

    /** There is a swap to start or to continue, with room for all its log entries; after a
        power cut it takes up to three entries and one round more. */
    ghost predicate MayStart(lim: Limits, used0: nat)
      reads this, flash
    {
      var cmd := NextCmd(flash.chip.log);
      && Inv(job, cmd, flash.chip)
      && (cmd.step == Empty ==> cmd.sector == 0)
      && job.l.size > 0
      && StartUsed(flash.chip.log, used0) + Left(job, cmd, false, job.l.inPlace) <= lim.slots
      && StartUsed(flash.chip.log, used0) + Left(job, cmd, false, job.l.inPlace) + 3 <= lim.need
      && Top(job, cmd, false, job.l.inPlace) < lim.top <= 0x100
      && (lim.begun ==> FirstCopy(job.l, cmd) > 0)
    }

    /** Without the done flags, the same commands and at most two more are to be logged. */
    lemma RestartFits(lim: Limits, cmd: Cmd, u: bool, m: bool, used: nat, total: nat)
      requires JobOk(job) && FlagsOk(cmd, u, m) && (cmd.step == Empty ==> cmd.sector == 0)
      requires used + Left(job, cmd, u, m) <= total && Top(job, cmd, u, m) < lim.top && total + 3 <= lim.need
      requires lim.begun ==> FirstCopy(job.l, cmd) > 0
      ensures Fits(job, lim, cmd, used) && Fits(job, lim, cmd, used + 1)
    {
      RestartCost(cmd, u, m);
      hide Left, Top;
    }

    /** What losing the done flags costs. */
    lemma RestartCost(cmd: Cmd, u: bool, m: bool)
      requires JobOk(job) && FlagsOk(cmd, u, m)
      ensures Left(job, cmd, false, job.l.inPlace) <= Left(job, cmd, u, m) + 2
      ensures Top(job, cmd, false, job.l.inPlace) <= Top(job, cmd, u, m) + 1
    {
      SectorsBound(job.l.size, job.img.end, cmd.sector);
      SectorsBound(job.l.size, job.prev.end, cmd.sector);
      hide Sectors, Off, JobOk;
    }

    lemma FirstFlags(cmd: Cmd)
      ensures FlagsOk(cmd, false, job.l.inPlace)
    {
    }
  }

  /** The command a swap starts or goes on with. */
  ghost function NextCmd(log: seq<LogSlot>): Cmd {
    match LastCmd(log)
    case Good(cmd) => if cmd.step == SwpEnd then Cmd(Empty, 0) else cmd
    case _ => Cmd(Empty, 0)
  }

  /** The log slots that stay used: none when a new swap starts. */
  ghost function StartUsed(log: seq<LogSlot>, used: nat): nat {
    if LastCmd(log).Good? && LastCmd(log).cmd.step != SwpEnd then used else 0
  }

  /** No sector has been copied to the run slot. */
  ghost predicate BeforeCopy(cmd: Cmd) {
    cmd.step == Empty || cmd.step == Run2Mov || cmd == Cmd(Upg2Run, 0)
  }

  /** The log says that every sector of both images is in its place, and that is so. */
  ghost predicate Arrived(job: Job, c: Chip) {
    && LastCmd(c.log).Good? && (LastCmd(c.log).cmd.step == Finalise || LastCmd(c.log).cmd.step == SwpEnd)
    && Inv(job, LastCmd(c.log).cmd, c)
  }

  /** And the swap is logged as ended. */
  ghost predicate Swapped(job: Job, c: Chip) {
    Arrived(job, c) && LastCmd(c.log).cmd.step == SwpEnd
  }

  lemma StartsWith(job: Job, lim: Limits, cmd: Cmd, log: seq<LogSlot>, used: nat)
    requires job.l.size > 0 && (cmd.step == Empty ==> cmd.sector == 0)
    requires LastCmd(log) == Good(cmd) || (cmd == Cmd(Empty, 0) && used == 0)
    requires LogOk(log, used) && |log| == lim.slots
    requires used + Left(job, cmd, false, job.l.inPlace) <= lim.need && Top(job, cmd, false, job.l.inPlace) <= lim.top
    requires lim.begun ==> FirstCopy(job.l, cmd) > 0
    ensures AsksFor(job, lim, cmd, log, used)
  {
    hide Left, Top;
    if used == 0 {
      LastCmdOfPrefix(log, 0);
      assert log[..0] == [];
    }
  }

  lemma SlotsLeft(job: Job, lim: Limits, cmd: Cmd, log: seq<LogSlot>, used: nat)
    requires AsksFor(job, lim, cmd, log, used)
    ensures |log| == lim.slots && LogOk(log, used)
  {
  }

  lemma Prefix(job: Job, lim: Limits, a: seq<Chip>, b: seq<Chip>)
    requires CrashSafe(job, lim, a, b)
    ensures a <= b
  {
  }

  /** After the first sector, the image goes on. */
  lemma KeyNeeded(job: Job, next: Cmd, c: Chip)
    requires job.l.size > 0 && NewCount(job) > 1 && FirstCopy(job.l, next) == 1 && LastCmd(c.log) == Good(next)
    ensures LosesKey(job, c)
  {
    hide Sectors, Off, LastCmd;
    SectorsBound(job.l.size, job.img.end, 1);
  }

  lemma BlankLog(job: Job, lim: Limits, c: Chip, t: seq<Chip>)
    requires Inv(job, Cmd(Empty, 0), c) && AsksFor(job, lim, Cmd(Empty, 0), c.log, 0)
    ensures CrashSafe(job, lim, t, t + [c])
  {
    hide Inv, Fits;
    assert ResumableAt(job, lim, c, 0);
  }

  lemma NextBelowTop(job: Job, cmd: Cmd, u: bool, m: bool)
    requires job.l.size > 0 && cmd.step != Empty
    ensures cmd.sector <= Top(job, cmd, u, m)
    ensures cmd.step != SwpEnd ==> Left(job, cmd, u, m) > 0
  {
    hide Sectors;
  }

  lemma NothingLeft(job: Job, cmd: Cmd, u: bool, m: bool)
    requires job.l.size > 0 && cmd.step == SwpEnd
    ensures Left(job, cmd, u, m) == 0
  {
  }

  lemma InPlaceTop(job: Job)
    requires job.l.size > 0 && job.l.inPlace
    ensures Top(job, Cmd(Upg2Run, 0), false, true) == Top(job, Cmd(Empty, 0), false, true)
  {
    hide Sectors;
  }

  /** Sector numbers stay below the top. */
  lemma Upg2RunTop(job: Job, k: nat, u: bool, m: bool)
    requires job.l.size > 0
    ensures k <= Top(job, Cmd(Upg2Run, k), u, m)
    ensures job.l.inPlace && !u ==> k + 1 <= Top(job, Cmd(Upg2Run, k), u, m)
    ensures u ==> Top(job, Cmd(Finalise, k), u, m) <= Top(job, Cmd(Upg2Run, k), u, m)
    ensures job.l.inPlace && u ==> FromUpg2Run(job, k, u, m) == 2
  {
    hide Sectors;
  }

  lemma Mov2UpgTop(job: Job, k: nat, u: bool, m: bool)
    requires job.l.size > 0 && !job.l.inPlace
    ensures !(u && m) ==> k + 1 <= Top(job, Cmd(Mov2Upg, k), u, m)
    ensures !(u && m) ==> Top(job, Cmd(Upg2Run, k + 1), u, m || OldCount(job) <= k) == Top(job, Cmd(Mov2Upg, k), u, m)
    ensures Top(job, Cmd(Finalise, k), u, m) <= Top(job, Cmd(Mov2Upg, k), u, m)
  {
    hide Sectors;
  }

  lemma OffZero(size: nat)
    ensures Off(size, 0) == 0
  {
  }

  lemma NoOldCount(job: Job)
    requires JobOk(job)
    ensures job.prev == NO_IMAGE ==> OldCount(job) == 0
    ensures job.prev != NO_IMAGE ==> 0 < job.prev.end && 0 < OldCount(job)
  {
    hide ParseOk, Off, Sectors;
    OffZero(job.l.size);
    SectorsBound(job.l.size, job.prev.end, 0);
  }

  /** What is read as the header in the run slot when a swap starts. */
  lemma StartFacts(job: Job, c: Chip)
    requires JobOk(job) && Inv(job, Cmd(Empty, 0), c) && !job.l.inPlace
    ensures |c.phys| > 0 && job.parse(c.phys[0]) == if job.prev == NO_IMAGE then None else Some(job.prev)
  {
    hide Bytes, Off, Moved, Agree;
    assert SectorInv(job, Cmd(Empty, 0), c, 0);
    if job.prev != NO_IMAGE {
      OldHeader(job, c);
    }
  }

  lemma MoveOnlyClassic(job: Job, cmd: Cmd, c: Chip)
    requires Inv(job, cmd, c) && (cmd.step == Run2Mov || cmd.step == Mov2Upg)
    ensures !job.l.inPlace
  {
    hide SectorInv, InvNoOld;
  }

  /** Skipping a copy that has ended. */
  lemma EndedStays(job: Job, k: nat, c: Chip)
    requires JobOk(job) && Inv(job, Cmd(Upg2Run, k), c) && job.img.end <= Off(job.l.size, k)
    ensures Inv(job, if job.l.inPlace then Cmd(Finalise, k) else Cmd(Mov2Upg, k), c)
  {
    hide ParseOk, Bytes, Moved, Agree, SectorInv, InvNoOld, Off;
    if job.l.inPlace {
      Finished(job, Cmd(Upg2Run, k), c, Finalise);
    } else {
      AfterUpg2Run(job, c, k, c);
    }
  }

  lemma MovedStays(job: Job, k: nat, c: Chip)
    requires JobOk(job) && Inv(job, Cmd(Mov2Upg, k), c) && !job.l.inPlace && job.prev.end <= Off(job.l.size, k)
    requires job.prev == NO_IMAGE && k == 0 ==> |c.upg| > 0 && job.parse(c.upg[0]) == None
    ensures Inv(job, Cmd(Upg2Run, k + 1), c)
  {
    hide ParseOk, Bytes, Moved, Agree, SectorInv, InvNoOld, Off;
    AfterMov2Upg(job, c, k, c);
  }

  lemma CrashSafeNothing(job: Job, lim: Limits, t: seq<Chip>)
    ensures CrashSafe(job, lim, t, t)
  {
  }

  lemma BeyondSlot(l: Layout, info: Info, k: nat)
    requires InfoOk(l, info) || info == NO_IMAGE
    ensures k >= l.count ==> info.end <= Off(l.size, k)
  {
    if k >= l.count {
      OffMonotone(l.size, l.count, k);
    }
  }

  /** Where the header of the new image is when sector `k` is to be copied. */
  lemma NewFacts(job: Job, k: nat, c: Chip)
    requires JobOk(job) && Inv(job, Cmd(Upg2Run, k), c)
    ensures if k == 0 then NewInUpg(job, c, 0) else NewInRun(job, c, 0)
  {
    hide ParseOk, Bytes, Off, Moved, Agree, InvNoOld;
    assert SectorInv(job, Cmd(Upg2Run, k), c, 0);
  }

  lemma UpgradeSector(job: Job, c: Chip, k: nat)
    requires JobOk(job) && Inv(job, Cmd(Upg2Run, k), c) && Off(job.l.size, k) < job.img.end
    ensures k < job.l.count && Has(c, PlaceOf(job.l, Upgrade, k)) && Has(c, Phys(k))
    ensures PlaceOf(job.l, Upgrade, k) != Phys(k)
  {
    hide ParseOk, Bytes, Moved, Agree, InvNoOld, SectorInv;
    InsideSlot(job.l, job.img, k);
  }

  lemma BytesAre(size: nat, end: nat, k: nat, off: nat, len: nat)
    requires off == Off(size, k) < end && len == if size < end - off then size else end - off
    ensures len == Bytes(size, end, k)
  {
  }

  lemma OffsetAligned(job: Job, k: nat)
    requires JobOk(job)
    requires k < |job.plan| && Off(job.l.size, k) < job.img.end
    ensures Off(job.l.size, k) <= job.plan[k].start || (Off(job.l.size, k) - job.plan[k].start) % BLOCK == 0
  {
    hide ParseOk, Bytes;
    BlocksApart(job.l.size, k, job.img.start);
  }

  lemma OldOffsetAligned(job: Job, k: nat)
    requires JobOk(job)
    ensures Off(job.l.size, k) < job.prev.end ==>
      Off(job.l.size, k) <= EncStart(job.prev) || (Off(job.l.size, k) - EncStart(job.prev)) % BLOCK == 0
  {
    hide ParseOk, Bytes;
    BlocksApart(job.l.size, k, job.prev.start);
  }

  lemma BlocksApart(size: nat, k: nat, start: nat)
    requires size % BLOCK == 0 && start % BLOCK == 0
    ensures Off(size, k) >= start ==> (Off(size, k) - start) % BLOCK == 0
  {
    var q, r := size / BLOCK, start / BLOCK;
    assert size == BLOCK * q && start == BLOCK * r;
    assert Off(size, k) == k * (BLOCK * q) == BLOCK * (k * q);
    if Off(size, k) >= start {
      assert Off(size, k) - start == BLOCK * (k * q - r);
    }
  }

  /** What is read as the header of the old image when its sector `k` is to be copied. */
  lemma MoveFacts(job: Job, k: nat, c: Chip, erased: bool)
    requires JobOk(job) && Inv(job, Cmd(Mov2Upg, k), c) && !job.l.inPlace
    requires erased && k == 0 ==> c.upg[0] == Ones(job.l.size)
    requires !erased ==> k >= job.l.count
    ensures |c.phys| > 1 && |c.upg| > 0
    ensures job.parse(if k == 0 then c.phys[1] else c.upg[0]) == if job.prev == NO_IMAGE then None else Some(job.prev)
    ensures job.prev == NO_IMAGE && k == 0 ==> job.parse(c.upg[0]) == None
  {
    hide Bytes, Off, Moved, Agree;
    assert SectorInv(job, Cmd(Mov2Upg, k), c, 0);
    if job.prev != NO_IMAGE {
      OldHeader(job, c);
    }
  }

  lemma MoveSector(job: Job, c: Chip, k: nat)
    requires JobOk(job) && Inv(job, Cmd(Mov2Upg, k), c) && Off(job.l.size, k) < job.prev.end
    ensures k < job.l.count && Has(c, Phys(k + 1)) && Has(c, Upg(k))
  {
    hide ParseOk, Bytes, Moved, Agree, InvNoOld, SectorInv;
    NoImageEmpty(job, k);
    InsideSlot(job.l, job.prev, k);
  }

  lemma UpgradePlace(l: Layout, c: Chip)
    requires l.Valid() && Shaped(l, c)
    ensures Has(c, PlaceOf(l, Upgrade, 0)) && |c.phys| > 1
  {
  }

  lemma OffIs(size: nat, k: nat)
    ensures k * size == Off(size, k)
  {
  }

  lemma ErasedTarget(l: Layout, c: Chip, p: Place, x: Chip)
    requires Shaped(l, c) && Has(c, p) && Has(x, p) && x == With(c, p, Ones(l.size))
    ensures DiffersAt(l, c, p, x) && ErasedFrom(At(x, p), 0)
  {
  }

  /** As long as the old image is being moved up, its header is in the run slot. */
  lemma OldFacts(job: Job, cmd: Cmd, c: Chip)
    requires JobOk(job) && Inv(job, cmd, c) && cmd.step == Run2Mov
    ensures |c.phys| > 0 && job.prev != NO_IMAGE && job.parse(c.phys[0]) == Some(job.prev)
    ensures cmd.sector < job.l.count && !job.l.inPlace
  {
    hide ParseOk, Bytes, Off, Moved, Agree, InvNoOld;
    assert SectorInv(job, cmd, c, 0);
    NoImageEmpty(job, cmd.sector);
    OldHeader(job, c);
  }

  lemma NoImageEmpty(job: Job, k: nat)
    ensures Off(job.l.size, k) < job.prev.end ==> job.prev != NO_IMAGE
  {
  }
}
