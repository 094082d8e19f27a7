/** Whole swaps: power cuts at any point of any step, what is conserved on the way, and two
    swaps in a row. */
module ZbSwapRun {
  import opened FlashBytes
  import opened ZbCtr
  import opened ZbFlash
  import opened ZbMove
  import opened ZbImages
  import opened ZbSteps
  import opened ZbSwap

  // What a boot decrypts with

  /** The swap as it goes on when it is booted at `cmd`: what is still to be decrypted uses the
      right key, if that is loaded, or what the key buffers hold. */
  ghost function Booted(job: Job, cmd: Cmd, loads: bool, junk: Key): (b: Job)
    ensures b == job.(plan := b.plan) && |b.plan| == |job.plan|
  {
    job.(plan := seq(|job.plan|, k requires 0 <= k < |job.plan| =>
      if FirstCopy(job.l, cmd) <= k && Off(job.l.size, k) < job.img.end then BootCipher(job, cmd, loads, junk) else job.plan[k]))
  }

  ghost function BootCipher(job: Job, cmd: Cmd, loads: bool, junk: Key): Cipher {
    if loads || FirstCopy(job.l, cmd) == 0 then RightCipher(job.img) else Cipher(job.img.start, junk)
  }

  lemma BootedOk(job: Job, cmd: Cmd, loads: bool, junk: Key)
    requires JobOk(job)
    ensures JobOk(Booted(job, cmd, loads, junk))
    ensures PlannedFrom(Booted(job, cmd, loads, junk), FirstCopy(job.l, cmd), BootCipher(job, cmd, loads, junk))
  {
    hide ParseOk, InfoOk, Off;
  }

  /** Only sectors that are not in the run slot yet are decrypted differently. */
  lemma BootedInv(job: Job, cmd: Cmd, loads: bool, junk: Key, c: Chip)
    requires Inv(job, cmd, c)
    ensures Inv(Booted(job, cmd, loads, junk), cmd, c)
  {
    hide Moved, Agree, Bytes, Off;
    var b := Booted(job, cmd, loads, junk);
    forall j | 0 <= j < job.l.count ensures SectorInv(b, cmd, c, j) {
      assert SectorInv(job, cmd, c, j);
    }
  }

  lemma BootedCounts(job: Job, cmd: Cmd, loads: bool, junk: Key)
    requires job.l.size > 0
    ensures var b := Booted(job, cmd, loads, junk);
      && Left(b, cmd, false, b.l.inPlace) == Left(job, cmd, false, job.l.inPlace)
      && Top(b, cmd, false, b.l.inPlace) == Top(job, cmd, false, job.l.inPlace)
  {
    hide Sectors;
  }

  /** Nothing is decrypted differently when the key is loaded, or not needed. */
  lemma BootedRight(job: Job, cmd: Cmd, loads: bool, junk: Key)
    requires KeysRight(job) && (loads || !NeedsKey(job.l, job.img.end, cmd))
    ensures Booted(job, cmd, loads, junk) == job
  {
    hide Off;
    var b, first := Booted(job, cmd, loads, junk), FirstCopy(job.l, cmd);
    forall k | 0 <= k < |job.plan| ensures b.plan[k] == job.plan[k] {
      if first <= k {
        OffMonotone(job.l.size, first, k);
      }
    }
    assert b.plan == job.plan;
  }

  // Boots

  /** There is a swap to start or to go on with, within the limits. */
  ghost predicate MayGoOn(job: Job, lim: Limits, c: Chip, used: nat) {
    var cmd := NextCmd(c.log);
    && LogOk(c.log, used) && |c.log| == lim.slots
    && Inv(job, cmd, c) && (cmd.step == Empty ==> cmd.sector == 0) && job.l.size > 0
    && StartUsed(c.log, used) + Left(job, cmd, false, job.l.inPlace) <= lim.slots
    && StartUsed(c.log, used) + Left(job, cmd, false, job.l.inPlace) + 3 <= lim.need
    && Top(job, cmd, false, job.l.inPlace) < lim.top <= 0x100
    && (lim.begun ==> FirstCopy(job.l, cmd) > 0)
  }

  /** One boot of the swapper that starts a swap or goes on with one. */
  method Boot(flash: Flash, parse: Sector -> Option<Info>, loads: bool, junk: Key, ghost job: Job, ghost lim: Limits, ghost used0: nat)
      returns (ghost used: nat, ghost lost: nat)
    requires flash.Valid() && flash.l == job.l && parse == job.parse && JobOk(job)
    requires MayGoOn(job, lim, flash.chip, used0)
    modifies flash`chip, flash`trace
    ensures flash.Valid() && LogOk(flash.chip.log, used) && |flash.chip.log| == lim.slots
    ensures var b := Booted(job, NextCmd(old(flash.chip.log)), loads, junk);
      && JobOk(b) && Swapped(b, flash.chip)
      && |old(flash.trace)| < |flash.trace| && CrashSafe(b, lim, old(flash.trace), flash.trace)
    ensures NextCmd(old(flash.chip.log)).step == Empty && NewCount(job) > 1 ==>
      |old(flash.trace)| <= lost < |flash.trace| && LosesKey(job, flash.trace[lost])
  {
    hide JobOk, ParseOk, Inv, LogOk, LastCmd, Left, Top, Off, PlannedFrom, CrashSafe, Booted, Sectors, NeedsKey;
    ghost var cmd := NextCmd(flash.chip.log);
    ghost var b := Booted(job, cmd, loads, junk);
    BootedOk(job, cmd, loads, junk);
    BootedInv(job, cmd, loads, junk, flash.chip);
    BootedCounts(job, cmd, loads, junk);
    var swapper := new Swapper(flash, parse, loads, junk, b);
    used, lost := swapper.ImgSwap(false, lim, used0);
  }

  /** Room in the log, and in the command's byte, for a swap in which `cuts` boots are cut
      short: three entries and one round more for each of them. */
  ghost predicate LogHolds(job: Job, slots: nat, cuts: nat)
    requires job.l.size > 0
  {
    && Left(job, Cmd(Empty, 0), false, job.l.inPlace) + 3 * cuts <= slots
    && Top(job, Cmd(Empty, 0), false, job.l.inPlace) + cuts < 0x100
  }

  /** So much is always enough. */
  lemma EnoughRoom(job: Job, slots: nat, cuts: nat)
    requires JobOk(job) && 3 * job.l.count + 6 + 3 * cuts <= slots && job.l.count + 1 + cuts < 256
    ensures job.l.size > 0 && LogHolds(job, slots, cuts)
  {
    hide Left, Top, ParseOk;
    WholeSwapCount(job);
  }

  /** What may be in use after `boots` boots were cut short. */
  ghost function CutLimits(job: Job, slots: nat, boots: nat, begun: bool): Limits
    requires job.l.size > 0
  {
    Limits(slots, Left(job, Cmd(Empty, 0), false, job.l.inPlace) + 3 * boots,
           Top(job, Cmd(Empty, 0), false, job.l.inPlace) + boots, begun)
  }

  /** The log has no command, or says that the last swap has ended. */
  ghost predicate NothingToResume(log: seq<LogSlot>) {
    LastCmd(log).Good? ==> LastCmd(log).cmd.step == SwpEnd
  }

  // Power cuts

  /** A boot that finds this state does not go on with the swap: its end is logged, or it is at
      FINALISE and the image in the run slot, which FINALISE may have confirmed, is `valid`. */
  ghost predicate Stops(c: Chip, valid: bool) {
    LastCmd(c.log).Good? && (LastCmd(c.log).cmd.step == SwpEnd || (LastCmd(c.log).cmd.step == Finalise && valid))
  }

  /** Power failed in the states `chips`, in every boot up to the one at which the swap stops,
      and in as many boots as there are in `valid`. */
  ghost predicate CutsTaken(chips: seq<Chip>, valid: seq<bool>) {
    && |chips| <= |valid|
    && (forall i :: 0 <= i < |chips| - 1 ==> !Stops(chips[i], valid[i]))
    && (|chips| < |valid| ==> chips != [] && Stops(chips[|chips| - 1], valid[|chips| - 1]))
  }

  /** Once the first sector of the new image is in the run slot, no later boot starts anew. */
  ghost predicate NeverBack(l: Layout, chips: seq<Chip>) {
    forall i, j :: 0 <= i <= j < |chips| && FirstCopy(l, Asked(chips[i].log)) > 0 ==> FirstCopy(l, Asked(chips[j].log)) > 0
  }

  /** The swap as it is decrypted in the end when power failed in the states `chips`, and the
      key buffers held `junk[i]` in boot `i`. */
  ghost function AfterCuts(job: Job, chips: seq<Chip>, loads: bool, junk: seq<Key>): (b: Job)
    requires |chips| < |junk|
    ensures b == job.(plan := b.plan) && |b.plan| == |job.plan|
  {
    if chips == [] then Booted(job, Cmd(Empty, 0), loads, junk[0])
    else
      var n := |chips| - 1;
      Booted(AfterCuts(job, chips[..n], loads, junk), Asked(chips[n].log), loads, junk[n + 1])
  }

  ghost predicate NeverLosesKey(job: Job, chips: seq<Chip>) {
    forall i :: 0 <= i < |chips| ==> !LosesKey(job, chips[i])
  }

  /** The last boot found the images in their places, at FINALISE, and a run slot that is valid. */
  ghost predicate StoppedEarly(chips: seq<Chip>, valid: seq<bool>, c: Chip) {
    0 < |chips| <= |valid| && chips[|chips| - 1] == c && valid[|chips| - 1] && Asked(c.log).step == Finalise
  }

  /** One boot that is cut short in some state of the flash. */
  method BootAndCut(flash: Flash, parse: Sector -> Option<Info>, loads: bool, junk: Key, cut: nat, ghost job: Job, ghost lim: Limits, ghost used0: nat)
      returns (ghost used: nat)
    requires flash.Valid() && flash.l == job.l && parse == job.parse && JobOk(job)
    requires MayGoOn(job, lim, flash.chip, used0)
    modifies flash
    ensures flash.Valid() && LogOk(flash.chip.log, used) && |flash.chip.log| == lim.slots
    ensures flash.cuts == old(flash.cuts) + [flash.chip]
    ensures var b := Booted(job, NextCmd(old(flash.chip.log)), loads, junk);
      JobOk(b) && ResumableAt(b, lim, flash.chip, used)
    ensures lim.begun ==> FirstCopy(job.l, Asked(flash.chip.log)) > 0
  {
    hide JobOk, ParseOk, LogOk, LastCmd, MayGoOn, CrashSafe, Booted, ResumableAt, LosesKey, NewCount, Swapped;
    var base := |flash.trace|;
    ghost var b, t0 := Booted(job, NextCmd(flash.chip.log), loads, junk), flash.trace;
    ghost var lost;
    used, lost := Boot(flash, parse, loads, junk, job, lim, used0);
    var k := base + cut % (|flash.trace| - base);
    used := StateAt(b, lim, t0, flash.trace, k);
    flash.PowerCut(k);
  }

  /** A swap with a power cut in every boot but the last, each in any of the states the flash
      goes through. It ends with both images in their places, and with the right contents if
      the key can be loaded after a reset, or no cut was in a state from which it has to be.
      Once its end is logged the swap is over; boots after that are not part of it. */
  method SwapWithCuts(flash: Flash, parse: Sector -> Option<Info>, loads: bool, junk: seq<Key>, cuts: seq<nat>, valid: seq<bool>,
      ghost job: Job, ghost used0: nat) returns (ghost used: nat, ghost chips: seq<Chip>)
    requires flash.Valid() && flash.l == job.l && parse == job.parse && JobOk(job) && job.l.size > 0
    requires LogOk(flash.chip.log, used0) && NothingToResume(flash.chip.log) && Inv(job, Cmd(Empty, 0), flash.chip)
    requires |junk| == |cuts| + 1 && |valid| == |cuts| && LogHolds(job, |flash.chip.log|, |cuts|)
    modifies flash
    ensures flash.Valid() && LogOk(flash.chip.log, used) && |flash.chip.log| == |old(flash.chip.log)|
    ensures flash.cuts == old(flash.cuts) + chips && CutsTaken(chips, valid) && NeverBack(job.l, chips)
    ensures Arrived(AfterCuts(job, chips, loads, junk), flash.chip) && JobOk(AfterCuts(job, chips, loads, junk))
    ensures Swapped(AfterCuts(job, chips, loads, junk), flash.chip) || StoppedEarly(chips, valid, flash.chip)
    ensures KeysRight(job) && (loads || NeverLosesKey(job, chips)) ==> Arrived(job, flash.chip)
    ensures KeysRight(job) && (loads || cuts == [] || NewCount(job) <= 1) ==> Arrived(job, flash.chip)
    ensures KeysRight(job) && (loads || NeverLosesKey(job, chips)) ==> Exchanged(job, old(flash.chip), flash.chip)
  {
    hide JobOk, ParseOk, Inv, LogOk, LastCmd, Left, Top, Off, ResumableAt, MayGoOn, LogHolds, NeverBack, NeverLosesKey, AfterCuts,
      Booted, KeysRight, LosesKey, NewCount, Exchanged;
    ghost var slots, c0 := |flash.chip.log|, flash.chip;
    used, chips := used0, [];
    ghost var now := job;
    FirstBoot(job, flash.chip, used0, |cuts|);
    PlanLength(job);
    NoCuts(job, loads, junk);
    for i := 0 to |cuts|
      invariant flash.Valid() && |flash.chip.log| == slots && LogOk(flash.chip.log, used)
      invariant |chips| == i && flash.cuts == old(flash.cuts) + chips && NeverBack(job.l, chips)
      invariant forall j :: 0 <= j < i ==> !Stops(chips[j], valid[j])
      invariant i > 0 ==> flash.chip == chips[i - 1]
      invariant JobOk(now) && now == job.(plan := now.plan)
      invariant Booted(now, NextCmd(flash.chip.log), loads, junk[i]) == AfterCuts(job, chips, loads, junk)
      invariant MayBoot(now, job, flash.chip, slots, used, i, |cuts|)
    {
      ghost var cmd := NextCmd(flash.chip.log);
      ghost var lim := CutLimits(job, slots, i + 1, FirstCopy(job.l, cmd) > 0);
      used := BootAndCut(flash, parse, loads, junk[i], cuts[i], now, lim, used);
      now := AfterCuts(job, chips, loads, junk);
      OneMore(job, chips, loads, junk, flash.chip);
      StillBegun(job.l, chips, flash.chip, cmd);
      chips := chips + [flash.chip];
      var last := flash.CmdRead(used);
      if last.Good? && (last.cmd.step == SwpEnd || (last.cmd.step == Finalise && valid[i])) {
        IsArrived(now, lim, flash.chip, used);
        ContentsRight(job, |cuts|, chips, loads, junk);
        RightExchange(job, c0, flash.chip);
        return;
      }
      NextBoot(job, now, lim.begun, flash.chip, slots, used, i + 1, |cuts|);
    }
    ghost var cmd := NextCmd(flash.chip.log);
    ghost var lim := CutLimits(job, slots, |cuts| + 1, FirstCopy(job.l, cmd) > 0);
    ghost var lost;
    used, lost := Boot(flash, parse, loads, junk[|cuts|], now, lim, used);
    ContentsRight(job, |cuts|, chips, loads, junk);
    RightExchange(job, c0, flash.chip);
  }

  lemma RightExchange(job: Job, c0: Chip, c: Chip)
    requires JobOk(job) && Inv(job, Cmd(Empty, 0), c0)
    ensures KeysRight(job) && Arrived(job, c) ==> Exchanged(job, c0, c)
  {
    hide JobOk, Inv, KeysRight, Arrived, Exchanged;
    if KeysRight(job) && Arrived(job, c) {
      SwapExchanges(job, c0, c);
    }
  }

  /** Before boot `i` of a swap of `job`, in which the sectors copied so far were decrypted as
      `now` has it. */
  ghost predicate MayBoot(now: Job, job: Job, c: Chip, slots: nat, used: nat, i: nat, n: nat)
    requires job.l.size > 0
  {
    && i <= n && LogHolds(job, slots, n)
    && MayGoOn(now, CutLimits(job, slots, i + 1, FirstCopy(job.l, NextCmd(c.log)) > 0), c, used)
  }

  lemma FirstBoot(job: Job, c: Chip, used: nat, n: nat)
    requires job.l.size > 0 && NothingToResume(c.log) && Inv(job, Cmd(Empty, 0), c) && LogHolds(job, |c.log|, n)
    requires LogOk(c.log, used)
    ensures MayBoot(job, job, c, |c.log|, used, 0, n) && NextCmd(c.log) == Cmd(Empty, 0)
  {
    hide Inv, Left, Top;
  }

  lemma NextBoot(job: Job, now: Job, begun: bool, c: Chip, slots: nat, used: nat, i: nat, n: nat)
    requires job.l.size > 0 && now == job.(plan := now.plan) && i <= n
    requires ResumableAt(now, CutLimits(job, slots, i, begun), c, used) && LogHolds(job, slots, n)
    requires !(LastCmd(c.log).Good? && LastCmd(c.log).cmd.step == SwpEnd)
    ensures MayBoot(now, job, c, slots, used, i, n) && NextCmd(c.log) == Asked(c.log)
  {
    hide Inv, Left, Top, LogOk, LastCmd;
  }

  /** The state the power cut leaves. */
  lemma StateAt(now: Job, lim: Limits, before: seq<Chip>, trace: seq<Chip>, k: nat) returns (used: nat)
    requires |before| <= k < |trace| && CrashSafe(now, lim, before, trace)
    ensures ResumableAt(now, lim, trace[k], used) && LogOk(trace[k].log, used)
    ensures Shaped(now.l, trace[k]) && |trace[k].log| == lim.slots
    ensures lim.begun ==> FirstCopy(now.l, Asked(trace[k].log)) > 0
  {
    hide LogOk, LastCmd, SectorInv, InvNoOld, Left, Top;
    used :| ResumableAt(now, lim, trace[k], used);
  }

  lemma IsArrived(now: Job, lim: Limits, c: Chip, used: nat)
    requires ResumableAt(now, lim, c, used) && LastCmd(c.log).Good? && LastCmd(c.log).cmd.step in {Finalise, SwpEnd}
    ensures Arrived(now, c)
  {
    hide Inv, Fits, LastCmd;
  }

  lemma StillBegun(l: Layout, chips: seq<Chip>, c: Chip, cmd: Cmd)
    requires NeverBack(l, chips) && (FirstCopy(l, cmd) > 0 ==> FirstCopy(l, Asked(c.log)) > 0)
    requires chips != [] && FirstCopy(l, Asked(chips[|chips| - 1].log)) > 0 ==> FirstCopy(l, cmd) > 0
    ensures NeverBack(l, chips + [c])
  {
    hide Asked, FirstCopy;
  }

  lemma NoCuts(job: Job, loads: bool, junk: seq<Key>)
    requires junk != []
    ensures AfterCuts(job, [], loads, junk) == Booted(job, Cmd(Empty, 0), loads, junk[0]) && NeverBack(job.l, [])
  {
  }

  /** How one more power cut changes what is decrypted afterwards. */
  lemma OneMore(job: Job, chips: seq<Chip>, loads: bool, junk: seq<Key>, c: Chip)
    requires |chips| + 1 < |junk|
    ensures AfterCuts(job, chips + [c], loads, junk) ==
            Booted(AfterCuts(job, chips, loads, junk), Asked(c.log), loads, junk[|chips| + 1])
    ensures |job.plan| <= FirstCopy(job.l, Asked(c.log)) ==>
      AfterCuts(job, chips + [c], loads, junk) == AfterCuts(job, chips, loads, junk)
  {
    assert (chips + [c])[..|chips|] == chips;
    if |job.plan| <= FirstCopy(job.l, Asked(c.log)) {
      var b := AfterCuts(job, chips, loads, junk);
      BootedEnded(b, Asked(c.log), loads, junk[|chips| + 1]);
    }
  }

  /** No sector is left to be decrypted. */
  lemma BootedEnded(job: Job, cmd: Cmd, loads: bool, junk: Key)
    requires |job.plan| <= FirstCopy(job.l, cmd) || job.img.end <= Off(job.l.size, FirstCopy(job.l, cmd))
    ensures Booted(job, cmd, loads, junk) == job
  {
    hide Off;
    var b, first := Booted(job, cmd, loads, junk), FirstCopy(job.l, cmd);
    forall k | 0 <= k < |job.plan| ensures b.plan[k] == job.plan[k] {
      if first <= k {
        OffMonotone(job.l.size, first, k);
      }
    }
    assert b.plan == job.plan;
  }

  /** When no power cut makes a boot need the key, or the key can be loaded, all sectors are
      decrypted with it. */
  lemma {:induction false} AfterCutsRight(job: Job, chips: seq<Chip>, loads: bool, junk: seq<Key>)
    requires |chips| < |junk| && KeysRight(job) && (loads || NeverLosesKey(job, chips))
    ensures AfterCuts(job, chips, loads, junk) == job
  {
    hide NeedsKey, Booted, KeysRight;
    if chips == [] {
      NothingCopied(job.l, job.img.end);
      BootedRight(job, Cmd(Empty, 0), loads, junk[0]);
    } else {
      var n := |chips| - 1;
      AfterCutsRight(job, chips[..n], loads, junk);
      NothingCopied(job.l, job.img.end);
      BootedRight(job, Asked(chips[n].log), loads, junk[n + 1]);
    }
  }

  lemma NothingCopied(l: Layout, end: nat)
    ensures !NeedsKey(l, end, Cmd(Empty, 0))
  {
  }

  lemma ContentsRight(job: Job, n: nat, chips: seq<Chip>, loads: bool, junk: seq<Key>)
    requires |chips| <= n < |junk| && job.l.size > 0
    ensures KeysRight(job) && (loads || NeverLosesKey(job, chips)) ==> AfterCuts(job, chips, loads, junk) == job
    ensures n == 0 || NewCount(job) <= 1 ==> NeverLosesKey(job, chips)
  {
    hide Sectors, KeysRight;
    if KeysRight(job) && (loads || NeverLosesKey(job, chips)) {
      AfterCutsRight(job, chips, loads, junk);
    }
    forall c: Chip | NewCount(job) <= 1 ensures !LosesKey(job, c) {
      SectorsBound(job.l.size, job.img.end, FirstCopy(job.l, Asked(c.log)));
    }
  }

  // Conservation

  /** Sector `j` of the new image is in the upgrade slot or, decrypted, in the run slot; the
      old one's is in the run slot, in the move slot or, encrypted, in the upgrade slot. */
  ghost predicate Conserved(job: Job, c: Chip, j: nat) {
    && (NewInUpg(job, c, j) || NewInRun(job, c, j))
    && (!job.l.inPlace ==> OldInRun(job, c, j) || OldInMove(job, c, j) || OldInUpg(job, c, j))
  }

  /** No state a power cut may leave has lost a sector of either image, although move sector
      `j` is run sector `j + 1`. */
  lemma NothingIsLost(job: Job, lim: Limits, c: Chip)
    requires Resumable(job, lim, c)
    ensures forall j :: 0 <= j < job.l.count ==> Conserved(job, c, j)
  {
    hide NewInUpg, NewInRun, OldInRun, OldInMove, OldInUpg, InvNoOld;
    var used :| ResumableAt(job, lim, c, used);
    var cmd := Asked(c.log);
    forall j | 0 <= j < job.l.count ensures Conserved(job, c, j) {
      assert SectorInv(job, cmd, c, j);
    }
  }

  // Loading the key after a reset

  /** Going on at `cmd` without the key gives the right images, whatever the key buffers hold,
      if and only if nothing is left to be decrypted for which the key would have to be loaded. */
  lemma KeyIsNeeded(job: Job, cmd: Cmd)
    requires JobOk(job) && KeysRight(job)
    ensures (forall junk: Key, c: Chip :: Arrived(Booted(job, cmd, false, junk), c) ==> Arrived(job, c))
      <==> !NeedsKey(job.l, job.img.end, cmd)
  {
    hide ParseOk, Arrived, Booted, NeedsKey, JobOk;
    if NeedsKey(job.l, job.img.end, cmd) {
      var junk := SpoilingKey(job, cmd);
      BootedOk(job, cmd, false, junk);
      var c := FinalChip(Booted(job, cmd, false, junk));
      if Arrived(job, c) {
        ArrivedHas(job, c, FirstCopy(job.l, cmd));
      }
    } else {
      forall junk: Key ensures Booted(job, cmd, false, junk) == job {
        BootedRight(job, cmd, false, junk);
      }
    }
  }

  /** A whole swap in which power failed in the states `chips` gives the right images, whatever
      the key buffers hold in each boot, if and only if none of these states needs the key. */
  lemma CutsNeedKey(job: Job, chips: seq<Chip>)
    requires JobOk(job) && KeysRight(job) && NeverBack(job.l, chips)
    ensures (forall junk: seq<Key>, c: Chip ::
              |junk| == |chips| + 1 && Arrived(AfterCuts(job, chips, false, junk), c) ==> Arrived(job, c))
      <==> NeverLosesKey(job, chips)
  {
    hide ParseOk, Arrived, AfterCuts, LosesKey, JobOk, NeverBack;
    if NeverLosesKey(job, chips) {
      forall junk: seq<Key> | |junk| == |chips| + 1 ensures AfterCuts(job, chips, false, junk) == job {
        AfterCutsRight(job, chips, false, junk);
      }
    } else {
      var junk, k := SpoiltRun(job, chips);
      AfterCutsOk(job, chips, false, junk);
      var c := FinalChip(AfterCuts(job, chips, false, junk));
      if Arrived(job, c) {
        ArrivedHas(job, c, k);
      }
    }
  }

  lemma {:induction false} AfterCutsOk(job: Job, chips: seq<Chip>, loads: bool, junk: seq<Key>)
    requires JobOk(job) && |chips| < |junk|
    ensures JobOk(AfterCuts(job, chips, loads, junk))
  {
    hide JobOk, ParseOk, Booted;
    if chips == [] {
      BootedOk(job, Cmd(Empty, 0), loads, junk[0]);
    } else {
      var n := |chips| - 1;
      AfterCutsOk(job, chips[..n], loads, junk);
      BootedOk(AfterCuts(job, chips[..n], loads, junk), Asked(chips[n].log), loads, junk[n + 1]);
    }
  }

  /** Key buffers with which sector `k` comes out wrong: they spoil it in the boot after the last
      cut that loses the key, and no later boot decrypts anything. */
  lemma {:induction false} SpoiltRun(job: Job, chips: seq<Chip>) returns (junk: seq<Key>, k: nat)
    requires JobOk(job) && KeysRight(job) && NeverBack(job.l, chips) && !NeverLosesKey(job, chips)
    ensures |junk| == |chips| + 1 && k < job.l.count
    ensures forall c: Chip :: Arrived(AfterCuts(job, chips, false, junk), c) ==> !NewInRun(job, c, k)
  {
    hide ParseOk, Arrived, JobOk, KeysRight, NewInRun, Booted, NeedsKey;
    var n := |chips| - 1;
    var cmd := Asked(chips[n].log);
    if LosesKey(job, chips[n]) {
      var key := SpoilingKey(job, cmd);
      junk, k := seq(n + 1, _ => NO_KEY) + [key], FirstCopy(job.l, cmd);
      AfterCutsOk(job, chips[..n], false, junk);
    } else {
      assert forall i :: 0 <= i < n ==> chips[..n][i] == chips[i];
      var start;
      start, k := SpoiltRun(job, chips[..n]);
      junk := start + [NO_KEY];
      SameBoots(job, chips[..n], false, start, junk);
      NothingNeeded(job, chips);
      BootedEnded(AfterCuts(job, chips[..n], false, junk), cmd, false, NO_KEY);
    }
  }

  lemma NothingNeeded(job: Job, chips: seq<Chip>)
    requires NeverBack(job.l, chips) && !NeverLosesKey(job, chips) && !LosesKey(job, chips[|chips| - 1])
    ensures job.img.end <= Off(job.l.size, FirstCopy(job.l, Asked(chips[|chips| - 1].log)))
  {
    var i :| 0 <= i < |chips| && LosesKey(job, chips[i]);
    assert FirstCopy(job.l, Asked(chips[i].log)) > 0;
    hide Off;
  }

  lemma {:induction false} SameBoots(job: Job, chips: seq<Chip>, loads: bool, junk: seq<Key>, more: seq<Key>)
    requires |chips| < |junk| <= |more| && junk == more[..|junk|]
    ensures AfterCuts(job, chips, loads, junk) == AfterCuts(job, chips, loads, more)
  {
    hide Booted;
    if chips != [] {
      SameBoots(job, chips[..|chips| - 1], loads, junk, more);
    }
  }

  lemma ArrivedHas(job: Job, c: Chip, k: nat)
    requires Arrived(job, c) && k < job.l.count
    ensures NewInRun(job, c, k)
  {
    hide NewInRun, OldInUpg;
    assert SectorInv(job, LastCmd(c.log).cmd, c, k);
  }

  /** The chip at the end of a swap exists: nothing but the plan decides on its contents. */
  lemma FinalChip(job: Job) returns (c: Chip)
    requires JobOk(job)
    ensures Swapped(job, c)
  {
    hide ParseOk, InfoOk, Bytes, Off, MoveByte, PlanOk;
    PlanLength(job);
    var phys := seq(job.l.count, k requires 0 <= k < job.l.count =>
      MovedBy(job.upg0[k], Off(job.l.size, k), job.plan[k].start, job.plan[k].key));
    var upg := seq(job.l.count, k requires 0 <= k < job.l.count =>
      MovedBy(job.run0[k], Off(job.l.size, k), EncStart(job.prev), KeyOf(job.prev)));
    c := Chip(phys + [Ones(job.l.size)], upg, [Good(Cmd(SwpEnd, 0))]);
    assert c.log[..0] == [];
    forall k | 0 <= k < job.l.count ensures SectorInv(job, Cmd(SwpEnd, 0), c, k) {
      assert c.phys[k] == phys[k];
      BytesFit(job, k);
    }
  }

  lemma PlanLength(job: Job)
    requires JobOk(job)
    ensures |job.plan| == job.l.count
  {
  }

  lemma BytesFit(job: Job, k: nat)
    ensures NewBytes(job, k) <= job.l.size && OldBytes(job, k) <= job.l.size
  {
  }

  /** Key buffers with which the first sector that is decrypted after a reset comes out wrong,
      whatever the sectors before it were decrypted with. */
  lemma SpoilingKey(job: Job, cmd: Cmd) returns (junk: Key)
    requires JobOk(job) && KeysRight(job) && NeedsKey(job.l, job.img.end, cmd)
    ensures FirstCopy(job.l, cmd) < job.l.count
    ensures forall now: Job, c: Chip :: JobOk(now) && now == job.(plan := now.plan) && Arrived(Booted(now, cmd, false, junk), c)
              ==> !NewInRun(job, c, FirstCopy(job.l, cmd))
  {
    hide ParseOk, Bytes, Off, MoveByte, Arrived;
    var k := FirstCopy(job.l, cmd);
    FirstByte(job, k);
    InsideSlot(job.l, job.img, k);
    var off, n, x := Off(job.l.size, k), NewBytes(job, k), job.upg0[k][0];
    junk := Spoiling(job.img.start, off, x, MoveByte(EncStart(job.img), KeyOf(job.img), off, x));
    forall now: Job, c: Chip | JobOk(now) && now == job.(plan := now.plan) && Arrived(Booted(now, cmd, false, junk), c)
      ensures !NewInRun(job, c, k)
    {
      var b := Booted(now, cmd, false, junk);
      ArrivedHas(b, c, k);
      var src, dst := job.upg0[k], c.phys[k];
      FirstMoved(src, dst, off, n, job.img.start, junk);
      if NewInRun(job, c, k) {
        FirstMoved(src, dst, off, n, EncStart(job.img), KeyOf(job.img));
      }
    }
  }

  lemma FirstMoved(src: Sector, dst: Sector, off: nat, n: nat, encStart: nat, key: Key)
    requires Moved(src, dst, off, n, encStart, key) && n > 0
    ensures dst[0] == MoveByte(encStart, key, off, src[0])
  {
    assert dst[0] == MoveByte(encStart, key, off + 0, src[0]);
  }

  ghost function MovedBy(src: Sector, off: nat, encStart: nat, key: Key): (dst: Sector)
    ensures |dst| == |src| && forall i :: 0 <= i < |src| ==> dst[i] == MoveByte(encStart, key, off + i, src[i])
  {
    seq(|src|, i requires 0 <= i < |src| => MoveByte(encStart, key, off + i, src[i]))
  }

  lemma Spoiling(start: nat, off: nat, x: byte, right: byte) returns (junk: Key)
    requires start <= off
    ensures MoveByte(start, junk, off, x) != right
  {
    var flip := x ^ right ^ 1;
    junk := Key((ctr: seq<octet>, j: nat) => flip, []);
    FlipDiffers(x, right);
  }

  lemma FlipDiffers(x: byte, y: byte)
    ensures x ^ (x ^ y ^ 1) != y
  {
  }

  lemma FirstByte(job: Job, k: nat)
    requires JobOk(job) && k > 0 && Off(job.l.size, k) < job.img.end
    ensures NewBytes(job, k) > 0 && job.img.start <= Off(job.l.size, k)
  {
    hide ParseOk;
    OffMonotone(job.l.size, 1, k);
    OffNext(job.l.size, 0);
  }

  // One pass

  ghost function Flat(sectors: seq<Sector>): seq<byte> {
    if sectors == [] then [] else Flat(sectors[..|sectors| - 1]) + sectors[|sectors| - 1]
  }

  /** De- or encrypting a whole image at once. */
  ghost function OnePass(image: seq<byte>, encStart: nat, key: Key): seq<byte> {
    seq(|image|, x requires 0 <= x < |image| => MoveByte(encStart, key, x, image[x]))
  }

  /** Moving an image sector by sector, the last sector up to the end of the image only, is one
      pass of counter mode over it. */
  lemma SectorsAreOnePass(size: nat, end: nat, src: seq<Sector>, dst: seq<Sector>, encStart: nat, key: Key)
    requires |src| == |dst| && (forall k :: 0 <= k < |src| ==> |src[k]| == size) && end <= Off(size, |src|)
    requires forall k :: 0 <= k < |src| ==> Moved(src[k], dst[k], Off(size, k), Bytes(size, end, k), encStart, key)
    ensures |Flat(src)| == |Flat(dst)| == Off(size, |src|)
    ensures Flat(dst)[..end] == OnePass(Flat(src)[..end], encStart, key)
  {
    hide MoveByte, Moved, Off, Bytes;
    forall k | 0 <= k < |src| ensures |dst[k]| == size {
      MovedSize(src[k], dst[k], Off(size, k), Bytes(size, end, k), encStart, key);
    }
    FlatLength(size, src);
    FlatLength(size, dst);
    forall x: nat | x < end ensures Flat(dst)[x] == MoveByte(encStart, key, x, Flat(src)[x]) {
      ByteMoved(size, end, src, dst, encStart, key, x);
    }
  }

  lemma {:induction false} FlatLength(size: nat, s: seq<Sector>)
    requires forall k :: 0 <= k < |s| ==> |s[k]| == size
    ensures |Flat(s)| == Off(size, |s|)
  {
    if s != [] {
      FlatLength(size, s[..|s| - 1]);
      OffNext(size, |s| - 1);
    }
  }

  lemma {:induction false} ByteMoved(size: nat, end: nat, src: seq<Sector>, dst: seq<Sector>, encStart: nat, key: Key, x: nat)
    requires |src| == |dst| && (forall k :: 0 <= k < |src| ==> |src[k]| == size && |dst[k]| == size)
    requires forall k :: 0 <= k < |src| ==> Moved(src[k], dst[k], Off(size, k), Bytes(size, end, k), encStart, key)
    requires x < end && x < Off(size, |src|)
    ensures |Flat(src)| == |Flat(dst)| == Off(size, |src|)
    ensures Flat(dst)[x] == MoveByte(encStart, key, x, Flat(src)[x])
  {
    hide MoveByte, Moved, Off;
    FlatLength(size, src);
    FlatLength(size, dst);
    OffZero(size);
    var n := |src| - 1;
    assert Moved(src[n], dst[n], Off(size, n), Bytes(size, end, n), encStart, key);
    OffNext(size, n);
    FlatLength(size, src[..n]);
    FlatLength(size, dst[..n]);
    if x < Off(size, n) {
      forall k | 0 <= k < n ensures Moved(src[..n][k], dst[..n][k], Off(size, k), Bytes(size, end, k), encStart, key) {
        assert Moved(src[k], dst[k], Off(size, k), Bytes(size, end, k), encStart, key);
      }
      ByteMoved(size, end, src[..n], dst[..n], encStart, key, x);
    } else {
      MovedAt(src[n], dst[n], Off(size, n), Bytes(size, end, n), encStart, key, x - Off(size, n));
    }
  }

  lemma MovedSize(src: Sector, dst: Sector, offset: nat, n: nat, encStart: nat, key: Key)
    requires Moved(src, dst, offset, n, encStart, key)
    ensures |src| == |dst|
  {
  }

  lemma MovedAt(src: Sector, dst: Sector, offset: nat, n: nat, encStart: nat, key: Key, i: nat)
    requires Moved(src, dst, offset, n, encStart, key) && i < n
    ensures i < |src| == |dst| && dst[i] == MoveByte(encStart, key, offset + i, src[i])
  {
  }

  /** After a swap with the right key the run slot holds the new image decrypted in one pass,
      up to its end, and the upgrade slot the old one encrypted in one pass. */
  lemma ImagesAreOnePass(job: Job, c: Chip)
    requires JobOk(job) && KeysRight(job) && Arrived(job, c)
    ensures var img := job.img;
      && |Flat(job.upg0)| == |Flat(c.phys[..job.l.count])| == Off(job.l.size, job.l.count) >= img.end
      && Flat(c.phys[..job.l.count])[..img.end] == OnePass(Flat(job.upg0)[..img.end], EncStart(img), KeyOf(img))
    ensures var prev := job.prev;
      && |Flat(job.run0)| == |Flat(c.upg)| == Off(job.l.size, job.l.count) >= prev.end
      && (!job.l.inPlace ==> Flat(c.upg)[..prev.end] == OnePass(Flat(job.run0)[..prev.end], EncStart(prev), KeyOf(prev)))
  {
    hide ParseOk, Bytes, Off, Moved, InvNoOld, Flat;
    var n, size := job.l.count, job.l.size;
    FlatLength(size, job.run0);
    FlatLength(size, c.upg);
    forall k | 0 <= k < n
      ensures Moved(job.upg0[k], c.phys[..n][k], Off(size, k), Bytes(size, job.img.end, k), EncStart(job.img), KeyOf(job.img))
      ensures !job.l.inPlace ==>
        Moved(job.run0[k], c.upg[k], Off(size, k), Bytes(size, job.prev.end, k), EncStart(job.prev), KeyOf(job.prev))
    {
      assert SectorInv(job, LastCmd(c.log).cmd, c, k);
    }
    SectorsAreOnePass(size, job.img.end, job.upg0, c.phys[..n], EncStart(job.img), KeyOf(job.img));
    if !job.l.inPlace {
      SectorsAreOnePass(size, job.prev.end, job.run0, c.upg, EncStart(job.prev), KeyOf(job.prev));
    }
  }

  // The outcome on flash

  /** Byte `x` of an image, `a` before and `b` after: as it was in the header, or without a key;
      otherwise exclusive-or with the block cipher of the counter, which is the nonce plus the
      number of 16 byte blocks before the byte. */
  ghost predicate ByteInCounterMode(info: Info, a: byte, b: byte, x: nat) {
    match info.key
    case None => b == a
    case Some(key) =>
      if x < info.start then b == a
      else XorOfBlock(key, (x - info.start) / 16, (x - info.start) % 16, a, b)
  }

  ghost predicate XorOfBlock(key: Key, q: nat, r: nat, a: byte, b: byte) {
    exists c: seq<octet> :: IsCounter(c, key.nonce, q) && b == a ^ key.block(c, r)
  }

  ghost predicate IsCounter(c: seq<octet>, nonce: seq<octet>, q: nat) {
    |c| == |nonce| && Num(c) == (Num(nonce) + q) % Pow256(|nonce|)
  }

  /** The image was de- or encrypted on its way from sectors to sectors. */
  ghost predicate InCounterMode(info: Info, size: nat, from: seq<Sector>, to: seq<Sector>) {
    |from| == |to| && forall k: nat, i: nat :: k < |from| && i < size ==> AtInCounterMode(info, size, from, to, k, i)
  }

  ghost predicate AtInCounterMode(info: Info, size: nat, from: seq<Sector>, to: seq<Sector>, k: nat, i: nat)
    requires k < |from| == |to|
  {
    i < |from[k]| == |to[k]| && (k * size + i < info.end ==> ByteInCounterMode(info, from[k][i], to[k][i], k * size + i))
  }

  /** The new image went from the upgrade slot, in place from the sectors behind those of the
      run slot, to the run slot; the old one from there to the upgrade slot. */
  ghost predicate Exchanged(job: Job, c0: Chip, c: Chip) {
    && |c0.phys| == |c.phys| == job.l.count + 1
    && InCounterMode(job.img, job.l.size, if job.l.inPlace then c0.phys[1..] else c0.upg, c.phys[..job.l.count])
    && (!job.l.inPlace ==> InCounterMode(job.prev, job.l.size, c0.phys[..job.l.count], c.upg))
  }

  /** What a swap does to flash, without the plan, from its first state to its last. */
  lemma SwapExchanges(job: Job, c0: Chip, c: Chip)
    requires JobOk(job) && KeysRight(job) && Inv(job, Cmd(Empty, 0), c0) && Arrived(job, c)
    ensures Exchanged(job, c0, c)
  {
    hide ParseOk, Bytes, Off, Moved, Agree, InvNoOld, ByteInCounterMode, EncStart, KeyOf;
    var n, size := job.l.count, job.l.size;
    var from, to := if job.l.inPlace then c0.phys[1..] else c0.upg, c.phys[..n];
    var cmd := LastCmd(c.log).cmd;
    forall k: nat, i: nat | k < n && i < size ensures AtInCounterMode(job.img, size, from, to, k, i) {
      assert SectorInv(job, Cmd(Empty, 0), c0, k) && SectorInv(job, cmd, c, k);
      SectorExchanged(job.img, size, job.upg0[k], from[k], to[k], k, i);
    }
    if !job.l.inPlace {
      forall k: nat, i: nat | k < n && i < size ensures AtInCounterMode(job.prev, size, c0.phys[..n], c.upg, k, i) {
        assert SectorInv(job, Cmd(Empty, 0), c0, k) && SectorInv(job, cmd, c, k);
        SectorExchanged(job.prev, size, job.run0[k], c0.phys[k], c.upg[k], k, i);
      }
    }
  }

  lemma SectorExchanged(info: Info, size: nat, first: Sector, src: Sector, dst: Sector, k: nat, i: nat)
    requires |src| == |dst| == size && i < size && Agree(src, first, Bytes(size, info.end, k))
    requires Moved(first, dst, Off(size, k), Bytes(size, info.end, k), EncStart(info), KeyOf(info))
    requires info.start <= info.end
    ensures k * size + i < info.end ==> ByteInCounterMode(info, src[i], dst[i], k * size + i)
  {
    hide MoveByte, ByteInCounterMode, EncStart, KeyOf;
    OffIs(size, k);
    if k * size + i < info.end {
      MovedAt(first, dst, Off(size, k), Bytes(size, info.end, k), EncStart(info), KeyOf(info), i);
      MovedInCounterMode(info, src[i], k * size + i);
    }
  }

  lemma MovedInCounterMode(info: Info, a: byte, x: nat)
    requires x < info.end && info.start <= info.end
    ensures ByteInCounterMode(info, a, MoveByte(EncStart(info), KeyOf(info), x, a), x)
  {
    if info.key.Some? && info.start <= x {
      var nonce, q := info.key.value.nonce, (x - info.start) / 16;
      IncByIsAddition(nonce, q);
      assert IsCounter(IncBy(nonce, q), nonce, q);
    }
  }

  // Two swaps

  /** The swap back: what the first swap left is what the second one starts with. */
  ghost function SwapBack(job: Job, c: Chip): Job
    requires Shaped(job.l, c)
  {
    Job(job.l, job.parse, job.prev, job.img, c.upg, c.phys[..job.l.count], seq(job.l.count, _ => RightCipher(job.prev)))
  }

  lemma SwapBackIsReady(job: Job, c: Chip)
    requires JobOk(job) && !job.l.inPlace && job.prev != NO_IMAGE && Arrived(job, c)
    ensures JobOk(SwapBack(job, c)) && KeysRight(SwapBack(job, c)) && Inv(SwapBack(job, c), Cmd(Empty, 0), c)
  {
    hide Bytes, Off, Moved, ParseOk;
    var back := SwapBack(job, c);
    var cmd := LastCmd(c.log).cmd;
    assert SectorInv(job, cmd, c, 0);
    NewHeader(job, c);
    OldHeader(job, c);
    assert back.run0[0] == c.phys[0];
    ImageIsNone(job.img);
    forall j | 0 <= j < back.l.count ensures SectorInv(back, Cmd(Empty, 0), c, j) {
      assert back.run0[j] == c.phys[j] && back.upg0[j] == c.upg[j];
    }
  }

  lemma ImageIsNone(info: Info)
    ensures info.start > 0 ==> info != NO_IMAGE
  {
  }

  lemma MovedTwice(a: Sector, b: Sector, c: Sector, offset: nat, n: nat, encStart: nat, key: Key)
    requires Moved(a, b, offset, n, encStart, key) && Moved(b, c, offset, n, encStart, key)
    ensures Agree(c, a, n)
  {
    hide KeyByte;
    forall i | 0 <= i < n ensures c[i] == a[i] {
      assert b[i] == MoveByte(encStart, key, offset + i, a[i]);
      assert c[i] == MoveByte(encStart, key, offset + i, b[i]);
      if encStart <= offset + i {
        XorTwice(a[i], KeyByte(key, offset + i - encStart));
      }
    }
  }

  /** Two swaps bring both images back, byte for byte up to their ends. */
  lemma TwoSwapsRestore(job: Job, c1: Chip, c2: Chip)
    requires JobOk(job) && KeysRight(job) && !job.l.inPlace && job.prev != NO_IMAGE && Arrived(job, c1)
    requires Arrived(SwapBack(job, c1), c2)
    ensures forall j :: 0 <= j < job.l.count ==>
      && Agree(c2.phys[j], job.run0[j], OldBytes(job, j))
      && Agree(c2.upg[j], job.upg0[j], NewBytes(job, j))
  {
    hide Bytes, Off, Moved, ParseOk, Agree, InvNoOld;
    var back := SwapBack(job, c1);
    forall j | 0 <= j < job.l.count
      ensures Agree(c2.phys[j], job.run0[j], OldBytes(job, j)) && Agree(c2.upg[j], job.upg0[j], NewBytes(job, j))
    {
      assert SectorInv(job, LastCmd(c1.log).cmd, c1, j);
      assert SectorInv(back, LastCmd(c2.log).cmd, c2, j);
      assert back.run0[j] == c1.phys[j] && back.upg0[j] == c1.upg[j];
      MovedTwice(job.run0[j], c1.upg[j], c2.phys[j], Off(job.l.size, j), OldBytes(job, j), EncStart(job.prev), KeyOf(job.prev));
      MovedTwice(job.upg0[j], c1.phys[j], c2.upg[j], Off(job.l.size, j), NewBytes(job, j), EncStart(job.img), KeyOf(job.img));
    }
  }

  /** The swap in the other direction, as far as its length goes. */
  ghost function Turned(job: Job): Job {
    job.(img := job.prev, prev := job.img)
  }

  lemma BackLimits(job: Job, done: Job, c: Chip, slots: nat, n: nat)
    requires Shaped(job.l, c) && job.l.size > 0 && done == job.(plan := done.plan)
    ensures LogHolds(SwapBack(done, c), slots, n) == LogHolds(Turned(job), slots, n)
  {
    hide Sectors;
  }

  lemma BackNeeds(job: Job, done: Job, c: Chip, chips: seq<Chip>)
    requires Shaped(job.l, c) && done == job.(plan := done.plan)
    ensures NeverLosesKey(SwapBack(done, c), chips) == NeverLosesKey(Turned(job), chips)
  {
    hide NeedsKey;
    forall x: Chip ensures LosesKey(SwapBack(done, c), x) == LosesKey(Turned(job), x) {
    }
  }

  /** Two swaps in a row, each with any number of power cuts in any states of the flash, bring
      both images back, if the key can be loaded after a reset or none of the cuts in the first
      swap, `first`, nor in the second, `second`, is in a state from which it has to be. The
      image swapped in first is not confirmed, so that its run slot is not valid. */
  method SwapTwice(flash: Flash, parse: Sector -> Option<Info>, loads: bool, junk: seq<Key>, cuts: seq<nat>, junk2: seq<Key>,
      cuts2: seq<nat>, valid2: seq<bool>, ghost job: Job, ghost used0: nat) returns (ghost first: seq<Chip>, ghost second: seq<Chip>)
    requires flash.Valid() && flash.l == job.l && parse == job.parse && JobOk(job) && KeysRight(job) && job.l.size > 0
    requires !job.l.inPlace && job.prev != NO_IMAGE
    requires LogOk(flash.chip.log, used0) && NothingToResume(flash.chip.log) && Inv(job, Cmd(Empty, 0), flash.chip)
    requires |junk| == |cuts| + 1 && |junk2| == |cuts2| + 1 && |valid2| == |cuts2|
    requires LogHolds(job, |flash.chip.log|, |cuts|) && LogHolds(Turned(job), |flash.chip.log|, |cuts2|)
    modifies flash
    ensures flash.Valid() && flash.cuts == old(flash.cuts) + first + second
    ensures CutsTaken(first, seq(|cuts|, _ => false)) && CutsTaken(second, valid2)
    ensures loads || (NeverLosesKey(job, first) && NeverLosesKey(Turned(job), second)) ==>
      forall j :: 0 <= j < job.l.count ==>
        && Agree(flash.chip.phys[j], job.run0[j], OldBytes(job, j))
        && Agree(flash.chip.upg[j], job.upg0[j], NewBytes(job, j))
  {
    hide JobOk, ParseOk, Inv, LogOk, KeysRight, LogHolds, Agree, SwapBack, Turned, AfterCuts, NeverLosesKey, NeverBack;
    ghost var used;
    used, first := SwapWithCuts(flash, parse, loads, junk, cuts, seq(|cuts|, _ => false), job, used0);
    ghost var c, done := flash.chip, AfterCuts(job, first, loads, junk);
    SwapBackIsReady(done, c);
    BackLimits(job, done, c, |c.log|, |cuts2|);
    BackShape(done, c);
    used, second := SwapWithCuts(flash, parse, loads, junk2, cuts2, valid2, SwapBack(done, c), used);
    BackNeeds(job, done, c, second);
    if loads || (NeverLosesKey(job, first) && NeverLosesKey(Turned(job), second)) {
      AfterCutsRight(job, first, loads, junk);
      TwoSwapsRestore(job, c, flash.chip);
    }
  }

  lemma BackShape(job: Job, c: Chip)
    requires Shaped(job.l, c)
    ensures SwapBack(job, c).l == job.l && SwapBack(job, c).parse == job.parse
  {
  }

  // A swap that was not logged as ended

  /** The swap of which the image in the run slot is the outcome. */
  ghost function Outcome(l: Layout, parse: Sector -> Option<Info>, c: Chip): (job: Job)
    requires Shaped(l, c) && l.count > 0 && parse(c.phys[0]).Some?
    ensures job.l == l && job.parse == parse
  {
    var img := parse(c.phys[0]).value;
    Job(l, parse, img, NO_IMAGE, seq(l.count, k requires 0 <= k < l.count => MovedBy(c.phys[k], Off(l.size, k), EncStart(img), KeyOf(img))),
        seq(l.count, _ => Ones(l.size)), seq(l.count, _ => RightCipher(img)))
  }

  /** At FINALISE nothing is asked of the upgrade slot: any image in the run slot is the outcome
      of some swap, whatever was uploaded since. */
  lemma FinaliseAnywhere(l: Layout, parse: Sector -> Option<Info>, c: Chip, k: nat)
    requires l.Valid() && Shaped(l, c) && ParseOk(l, parse) && parse(c.phys[0]).Some? && InfoOk(l, parse(c.phys[0]).value)
    ensures JobOk(Outcome(l, parse, c)) && KeysRight(Outcome(l, parse, c)) && Inv(Outcome(l, parse, c), Cmd(Finalise, k), c)
  {
    hide ParseOk, Bytes, Off, MoveByte;
    var job := Outcome(l, parse, c);
    forall j | 0 <= j < l.count ensures SectorInv(job, Cmd(Finalise, k), c, j) {
      MovedFrom(c.phys[j], job.upg0[j], Off(l.size, j), NewBytes(job, j), EncStart(job.img), KeyOf(job.img));
      NoOldBytes(job, j);
    }
    OffZero(l.size);
    BytesFit(job, 0);
    HeaderCopied(l, parse, job.img, c.phys[0], job.upg0[0]);
    OnesHaveNoImage(l, parse);
  }

  lemma OnesHaveNoImage(l: Layout, parse: Sector -> Option<Info>)
    requires ParseOk(l, parse)
    ensures parse(Ones(l.size)) == None
  {
  }

  lemma NoOldBytes(job: Job, j: nat)
    ensures job.prev == NO_IMAGE ==> OldBytes(job, j) == 0
  {
  }

  /** Encrypting what was decrypted. */
  lemma MovedFrom(a: Sector, b: Sector, offset: nat, n: nat, encStart: nat, key: Key)
    requires |a| == |b| && n <= |a|
    requires forall i :: 0 <= i < |a| ==> b[i] == MoveByte(encStart, key, offset + i, a[i])
    ensures Moved(b, a, offset, n, encStart, key)
  {
    hide KeyByte;
    forall i | 0 <= i < n ensures a[i] == MoveByte(encStart, key, offset + i, b[i]) {
      if encStart <= offset + i {
        XorTwice(a[i], KeyByte(key, offset + i - encStart));
      }
    }
  }

  lemma NothingPlanned(job: Job, cipher: Cipher)
    requires JobOk(job)
    ensures PlannedFrom(job, job.l.count, cipher)
  {
  }

  /** When power failed at FINALISE after the image in the run slot was confirmed, boots leave
      the log as it is. An image that is then uploaded, after which the run slot is not valid,
      is not installed: the boot logs the end of the old swap and changes neither slot. */
  method UploadNotInstalled(flash: Flash, parse: Sector -> Option<Info>, loads: bool, junk: Key, ghost used0: nat)
      returns (ghost used: nat)
    requires flash.Valid() && ParseOk(flash.l, parse) && LogOk(flash.chip.log, used0) && used0 < |flash.chip.log|
    requires Asked(flash.chip.log).step == Finalise && Asked(flash.chip.log).sector < 0x100
    requires parse(flash.chip.phys[0]).Some? && InfoOk(flash.l, parse(flash.chip.phys[0]).value)
    modifies flash`chip, flash`trace
    ensures flash.Valid() && LogOk(flash.chip.log, used) && used == used0 + 1
    ensures flash.chip.phys == old(flash.chip).phys && flash.chip.upg == old(flash.chip).upg
    ensures LastCmd(flash.chip.log).Good? && LastCmd(flash.chip.log).cmd.step == SwpEnd
  {
    hide JobOk, ParseOk, Inv, LogOk, LastCmd, CrashSafe, PlannedFrom, Outcome, KeysRight;
    ghost var job, k := Outcome(flash.l, parse, flash.chip), Asked(flash.chip.log).sector;
    FinaliseAnywhere(flash.l, parse, flash.chip, k);
    var swapper := new Swapper(flash, parse, loads, junk, job);
    NothingPlanned(job, swapper.CipherFrom(job.l.count));
    ghost var lost;
    used, lost := swapper.ImgSwap(false, Limits(|flash.chip.log|, used0 + 4, 0x100, true), used0);
  }
}
