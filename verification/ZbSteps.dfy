/** What each completed step of a swap achieves, and what the headers say on the way. */
module ZbSteps {
  import opened FlashBytes
  import opened ZbCtr
  import opened ZbFlash
  import opened ZbMove
  import opened ZbImages

  // Sectors

  /** A sector without image bytes is right whatever it holds. */
  lemma NoBytesAreRight(job: Job, c: Chip, j: nat)
    requires JobOk(job) && Shaped(job.l, c) && j < job.l.count
    ensures NewBytes(job, j) == 0 ==> NewInUpg(job, c, j) && NewInRun(job, c, j)
    ensures OldBytes(job, j) == 0 ==> OldInRun(job, c, j) && OldInMove(job, c, j) && OldInUpg(job, c, j)
  {
    hide Bytes, Off;
  }

  lemma CopyOfAgreeing(src: Sector, first: Sector, dst: Sector, offset: nat, n: nat, encStart: nat, key: Key)
    requires Agree(src, first, n) && Moved(src, dst, offset, n, encStart, key)
    ensures Moved(first, dst, offset, n, encStart, key)
  {
    hide MoveByte;
  }

  lemma PlainCopy(src: Sector, first: Sector, dst: Sector, offset: nat, len: nat, end: nat, n: nat, key: Key)
    requires Agree(src, first, n) && Moved(src, dst, offset, len, end, key)
    requires n <= len && offset + n <= end
    ensures Agree(dst, first, n)
  {
  }

  lemma BytesInside(size: nat, end: nat, k: nat)
    ensures Bytes(size, end, k) > 0 ==> Off(size, k) + Bytes(size, end, k) <= end
  {
  }

  /** `k` sectors further, the image has ended. */
  lemma EndedBefore(size: nat, end: nat, k: nat, j: nat)
    requires end <= Off(size, k) && k <= j
    ensures Bytes(size, end, j) == 0
  {
    OffMonotone(size, k, j);
  }

  // Steps

  /** Starting with an old image: its last sector is moved first. */
  lemma StartMove(job: Job, c: Chip, k: nat)
    requires JobOk(job) && !job.l.inPlace && Inv(job, Cmd(Empty, 0), c) && job.prev != NO_IMAGE
    requires Off(job.l.size, k) < job.prev.end <= Off(job.l.size, k + 1)
    ensures Inv(job, Cmd(Run2Mov, k), c)
  {
    hide NewInUpg, NewInRun, OldInRun, OldInMove, OldInUpg, Bytes, Off;
    InsideSlot(job.l, job.prev, k);
    forall j | 0 <= j < job.l.count ensures SectorInv(job, Cmd(Run2Mov, k), c, j) {
      assert SectorInv(job, Cmd(Empty, 0), c, j);
      NoBytesAreRight(job, c, j);
      if j > k {
        EndedBefore(job.l.size, job.prev.end, k + 1, j);
      }
    }
  }

  lemma InsideSlot(l: Layout, info: Info, k: nat)
    requires InfoOk(l, info) && Off(l.size, k) < info.end
    ensures k < l.count
  {
    if k >= l.count {
      OffMonotone(l.size, l.count, k);
    }
  }

  /** Starting without anything to move. */
  lemma StartCopy(job: Job, c: Chip)
    requires JobOk(job) && Inv(job, Cmd(Empty, 0), c) && (job.l.inPlace || job.prev == NO_IMAGE)
    ensures Inv(job, Cmd(Upg2Run, 0), c)
  {
    hide NewInUpg, NewInRun, OldInRun, OldInMove, OldInUpg;
    forall j | 0 <= j < job.l.count ensures SectorInv(job, Cmd(Upg2Run, 0), c, j) {
      assert SectorInv(job, Cmd(Empty, 0), c, j);
      NoBytesAreRight(job, c, j);
    }
  }

  lemma AfterRun2Mov(job: Job, c: Chip, k: nat, x: Chip, key: Key)
    requires JobOk(job) && Inv(job, Cmd(Run2Mov, k), c)
    requires DiffersAt(job.l, c, Phys(k + 1), x)
    requires Moved(c.phys[k], x.phys[k + 1], Off(job.l.size, k), job.l.size, job.prev.end, key)
    ensures Inv(job, if k == 0 then Cmd(Upg2Run, 0) else Cmd(Run2Mov, k - 1), x)
  {
    hide NewInUpg, NewInRun, OldInUpg, Bytes, Off, Moved, Agree;
    var cmd := Cmd(Run2Mov, k);
    var next := if k == 0 then Cmd(Upg2Run, 0) else Cmd(Run2Mov, k - 1);
    StepIsRestartable(job, cmd, c, x);
    if k > 0 {
      OffMonotone(job.l.size, k - 1, k);
    }
    BytesInside(job.l.size, job.prev.end, k);
    forall j | 0 <= j < job.l.count ensures SectorInv(job, next, x, j) {
      assert SectorInv(job, cmd, c, j) && SectorInv(job, cmd, x, j);
      if j == k {
        PlainCopy(c.phys[k], job.run0[k], x.phys[k + 1], Off(job.l.size, k), job.l.size, job.prev.end, OldBytes(job, k), key);
      }
    }
  }

  /** Sector `k` of the new image is in place, or there is none. */
  lemma AfterUpg2Run(job: Job, c: Chip, k: nat, x: Chip)
    requires JobOk(job) && Inv(job, Cmd(Upg2Run, k), c)
    requires x == c || DiffersAt(job.l, c, Phys(k), x)
    requires Off(job.l.size, k) < job.img.end ==>
      var p := PlaceOf(job.l, Upgrade, k);
      && Has(c, p) && k < |x.phys| && k < |job.plan|
      && Moved(At(c, p), x.phys[k], Off(job.l.size, k), NewBytes(job, k), job.plan[k].start, job.plan[k].key)
    ensures Inv(job, if job.l.inPlace then Cmd(Upg2Run, k + 1) else Cmd(Mov2Upg, k), x)
  {
    hide OldInRun, OldInMove, OldInUpg, Bytes, Off, Moved, Agree;
    var cmd := Cmd(Upg2Run, k);
    var next := if job.l.inPlace then Cmd(Upg2Run, k + 1) else Cmd(Mov2Upg, k);
    if x != c {
      StepIsRestartable(job, cmd, c, x);
    }
    forall j | 0 <= j < job.l.count ensures SectorInv(job, next, x, j) {
      assert SectorInv(job, cmd, c, j) && SectorInv(job, cmd, x, j);
      if j == k {
        NoBytesAreRight(job, x, k);
        if Off(job.l.size, k) < job.img.end {
          CopyOfAgreeing(At(c, PlaceOf(job.l, Upgrade, k)), job.upg0[k], x.phys[k], Off(job.l.size, k),
                         NewBytes(job, k), job.plan[k].start, job.plan[k].key);
        } else {
          EndedBefore(job.l.size, job.img.end, k, k);
        }
      }
    }
  }

  lemma AfterMov2Upg(job: Job, c: Chip, k: nat, x: Chip)
    requires JobOk(job) && !job.l.inPlace && Inv(job, Cmd(Mov2Upg, k), c)
    requires x == c || DiffersAt(job.l, c, Upg(k), x)
    requires Off(job.l.size, k) < job.prev.end ==>
      && k + 1 < |c.phys| && k < |x.upg|
      && Moved(c.phys[k + 1], x.upg[k], Off(job.l.size, k), OldBytes(job, k), EncStart(job.prev), KeyOf(job.prev))
    requires job.prev == NO_IMAGE && k == 0 ==> |x.upg| > 0 && job.parse(x.upg[0]) == None
    ensures Inv(job, Cmd(Upg2Run, k + 1), x)
  {
    hide NewInUpg, NewInRun, OldInRun, Bytes, Off, Moved, Agree;
    var cmd, next := Cmd(Mov2Upg, k), Cmd(Upg2Run, k + 1);
    if x != c {
      StepIsRestartable(job, cmd, c, x);
    }
    forall j | 0 <= j < job.l.count ensures SectorInv(job, next, x, j) {
      assert SectorInv(job, cmd, c, j) && SectorInv(job, cmd, x, j);
      if j == k {
        NoBytesAreRight(job, x, k);
        if Off(job.l.size, k) < job.prev.end {
          CopyOfAgreeing(c.phys[k + 1], job.run0[k], x.upg[k], Off(job.l.size, k),
                         OldBytes(job, k), EncStart(job.prev), KeyOf(job.prev));
        } else {
          EndedBefore(job.l.size, job.prev.end, k, k);
        }
      }
    }
  }

  /** When both images have ended, everything is where it belongs. */
  lemma Finished(job: Job, cmd: Cmd, c: Chip, step: Step)
    requires JobOk(job) && Inv(job, cmd, c) && (step == Finalise || step == SwpEnd)
    requires match cmd.step
      case Upg2Run => job.l.inPlace && job.img.end <= Off(job.l.size, cmd.sector)
      case Mov2Upg => job.img.end <= Off(job.l.size, cmd.sector) && job.prev.end <= Off(job.l.size, cmd.sector)
      case Finalise => true
      case _ => false
    ensures Inv(job, Cmd(step, cmd.sector), c)
  {
    hide NewInUpg, NewInRun, OldInRun, OldInMove, OldInUpg, Bytes, Off;
    forall j | 0 <= j < job.l.count ensures SectorInv(job, Cmd(step, cmd.sector), c, j) {
      assert SectorInv(job, cmd, c, j);
      NoBytesAreRight(job, c, j);
      if cmd.step != Finalise && j >= cmd.sector {
        EndedBefore(job.l.size, job.img.end, cmd.sector, j);
        if cmd.step == Mov2Upg {
          EndedBefore(job.l.size, job.prev.end, cmd.sector, j);
        }
      }
    }
  }

  // Headers

  lemma HeaderCopied(l: Layout, parse: Sector -> Option<Info>, info: Info, a: Sector, b: Sector)
    requires l.Valid() && ParseOk(l, parse) && InfoOk(l, info) && |a| == |b| == l.size && parse(a) == Some(info)
    requires Agree(a, b, Bytes(l.size, info.end, 0)) || Moved(a, b, 0, Bytes(l.size, info.end, 0), EncStart(info), KeyOf(info))
    ensures parse(b) == Some(info)
  {
    HeaderInFirst(l, info);
    assert Agree(a, b, info.start);
  }

  lemma HeaderInFirst(l: Layout, info: Info)
    requires l.Valid() && InfoOk(l, info)
    ensures info.start <= Bytes(l.size, info.end, 0) && info.start <= EncStart(info) && Off(l.size, 0) == 0
  {
  }

  /** The header of the new image, in the upgrade slot and once its first sector was copied
      in the run slot. */
  lemma NewHeader(job: Job, c: Chip)
    requires JobOk(job) && Shaped(job.l, c)
    ensures NewInUpg(job, c, 0) ==> job.parse(At(c, PlaceOf(job.l, Upgrade, 0))) == Some(job.img)
    ensures NewInRun(job, c, 0) ==> job.parse(c.phys[0]) == Some(job.img)
  {
    hide Bytes, ParseOk;
    HeaderInFirst(job.l, job.img);
    if NewInUpg(job, c, 0) {
      HeaderCopied(job.l, job.parse, job.img, job.upg0[0], At(c, PlaceOf(job.l, Upgrade, 0)));
    }
    if NewInRun(job, c, 0) {
      HeaderCopied(job.l, job.parse, job.img, job.upg0[0], c.phys[0]);
    }
  }

  /** The header of the old image in the run slot, the move slot and the upgrade slot. */
  lemma OldHeader(job: Job, c: Chip)
    requires JobOk(job) && Shaped(job.l, c) && job.prev != NO_IMAGE
    ensures OldInRun(job, c, 0) ==> job.parse(c.phys[0]) == Some(job.prev)
    ensures OldInMove(job, c, 0) ==> job.parse(c.phys[1]) == Some(job.prev)
    ensures OldInUpg(job, c, 0) ==> job.parse(c.upg[0]) == Some(job.prev)
  {
    hide Bytes, ParseOk;
    HeaderInFirst(job.l, job.prev);
    if OldInRun(job, c, 0) {
      HeaderCopied(job.l, job.parse, job.prev, job.run0[0], c.phys[0]);
    }
    if OldInMove(job, c, 0) {
      HeaderCopied(job.l, job.parse, job.prev, job.run0[0], c.phys[1]);
    }
    if OldInUpg(job, c, 0) {
      HeaderCopied(job.l, job.parse, job.prev, job.run0[0], c.upg[0]);
    }
  }
}
