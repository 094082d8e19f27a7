/** Where the two images of a swap are at each logged step, and why a step that is cut short
    can be taken again. */
module ZbImages {
  import opened FlashBytes
  import opened ZbCtr
  import opened ZbFlash
  import opened ZbMove

  /** zb_img_info as far as a swap needs it: header size, end of the image, and the key of
      an encrypted image. */
  datatype Info = Info(start: nat, end: nat, key: Option<Key>)

  const NO_IMAGE := Info(0, 0, None)
  const NO_KEY := Key((c: seq<octet>, j: nat) => 0, [])

  function EncStart(info: Info): nat {
    if info.key.Some? then info.start else info.end
  }

  function KeyOf(info: Info): Key {
    if info.key.Some? then info.key.value else NO_KEY
  }

  /** Image offset of sector `k`. */
  function Off(size: nat, k: nat): nat {
    k * size
  }

  /** How many bytes of an image that ends at `end` are in sector `k`. */
  function Bytes(size: nat, end: nat, k: nat): (n: nat)
    ensures n <= size
    ensures n == 0 <==> size == 0 || end <= Off(size, k)
  {
    if end <= Off(size, k) then 0
    else if end - Off(size, k) < size then end - Off(size, k) else size
  }

  /** Number of sectors with bytes of an image that ends at `end`. */
  ghost function Sectors(size: nat, end: nat): nat
    requires size > 0
  {
    (end + size - 1) / size
  }

  lemma SectorsBound(size: nat, end: nat, k: nat)
    requires size > 0
    ensures Off(size, k) < end <==> k < Sectors(size, end)
  {
    var n := Sectors(size, end);
    var r := (end + size - 1) % size;
    assert size * n + r == end + size - 1;
    if k < n {
      LargerMultiple(size, k, n);
    } else {
      MulMono(size, n, k);
    }
  }

  lemma OffMonotone(size: nat, j: nat, k: nat)
    requires j <= k
    ensures Off(size, j) <= Off(size, k)
  {
  }

  lemma OffNext(size: nat, k: nat)
    ensures Off(size, k + 1) == Off(size, k) + size
  {
  }

  /** How a sector of the new image is decrypted: from which byte of the image on, and with
      what in the key buffers. */
  datatype Cipher = Cipher(start: nat, key: Key)

  function RightCipher(img: Info): Cipher {
    Cipher(EncStart(img), KeyOf(img))
  }

  /** A swap: the layout, how headers are read, both slots as they are at the start, and what
      each sector is decrypted with. */
  datatype Job = Job(l: Layout, parse: Sector -> Option<Info>, img: Info, prev: Info, upg0: seq<Sector>, run0: seq<Sector>,
                     plan: seq<Cipher>)

  ghost predicate InfoOk(l: Layout, info: Info) {
    0 < info.start <= info.end <= Off(l.size, l.count) && info.start <= l.size && info.start % BLOCK == 0
  }

  /** A header is read from the bytes in front of the image only, and not from erased flash. */
  ghost predicate ParseOk(l: Layout, parse: Sector -> Option<Info>) {
    && parse(Ones(l.size)) == None
    && forall a: Sector, b: Sector :: |a| == |b| == l.size && parse(a).Some? && Agree(a, b, parse(a).value.start)
         ==> parse(b) == parse(a)
  }

  ghost predicate JobOk(job: Job) {
    && job.l.Valid()
    && |job.upg0| == |job.run0| == job.l.count
    && (forall k :: 0 <= k < job.l.count ==> |job.upg0[k]| == |job.run0[k]| == job.l.size)
    && ParseOk(job.l, job.parse)
    && InfoOk(job.l, job.img) && job.parse(job.upg0[0]) == Some(job.img)
    && (if job.prev == NO_IMAGE then job.parse(job.run0[0]) == None
        else InfoOk(job.l, job.prev) && job.parse(job.run0[0]) == Some(job.prev))
    && PlanOk(job)
  }

  /** The first sector is always decrypted with the right key. For others the code knows at
      least where the encrypted part starts. */
  ghost predicate PlanOk(job: Job) {
    && |job.plan| == job.l.count && job.l.count > 0 && job.plan[0] == RightCipher(job.img)
    && forall k :: 0 <= k < |job.plan| ==> job.plan[k] == RightCipher(job.img) || job.plan[k].start == job.img.start
  }

  ghost predicate KeysRight(job: Job) {
    forall k :: 0 <= k < |job.plan| ==> job.plan[k] == RightCipher(job.img)
  }

  ghost predicate Agree(a: Sector, b: Sector, n: nat) {
    |a| == |b| && forall i :: 0 <= i < n && i < |a| ==> a[i] == b[i]
  }

  function NewBytes(job: Job, k: nat): nat {
    Bytes(job.l.size, job.img.end, k)
  }

  function OldBytes(job: Job, k: nat): nat {
    Bytes(job.l.size, job.prev.end, k)
  }

  /** Sector `k` of the new image as received. */
  ghost predicate NewInUpg(job: Job, c: Chip, k: nat) {
    var p := PlaceOf(job.l, Upgrade, k);
    k < |job.upg0| && Has(c, p) && Agree(At(c, p), job.upg0[k], NewBytes(job, k))
  }

  /** Sector `k` of the new image, decrypted, in the run slot. */
  ghost predicate NewInRun(job: Job, c: Chip, k: nat) {
    k < |job.upg0| && k < |c.phys| && k < |job.plan| &&
    Moved(job.upg0[k], c.phys[k], Off(job.l.size, k), NewBytes(job, k), job.plan[k].start, job.plan[k].key)
  }

  ghost predicate OldInRun(job: Job, c: Chip, k: nat) {
    k < |job.run0| && k < |c.phys| && Agree(c.phys[k], job.run0[k], OldBytes(job, k))
  }

  ghost predicate OldInMove(job: Job, c: Chip, k: nat) {
    k < |job.run0| && k + 1 < |c.phys| && Agree(c.phys[k + 1], job.run0[k], OldBytes(job, k))
  }

  /** Sector `k` of the old image, encrypted, in the upgrade slot. */
  ghost predicate OldInUpg(job: Job, c: Chip, k: nat) {
    k < |job.run0| && k < |c.upg| &&
    Moved(job.run0[k], c.upg[k], Off(job.l.size, k), OldBytes(job, k), EncStart(job.prev), KeyOf(job.prev))
  }

  /** Where the images are when `cmd` is about to be executed. */
  ghost predicate Inv(job: Job, cmd: Cmd, c: Chip) {
    && Shaped(job.l, c)
    && (forall j :: 0 <= j < job.l.count ==> SectorInv(job, cmd, c, j))
    && (!job.l.inPlace ==> InvNoOld(job, cmd, c))
    && (cmd.step == Run2Mov ==> cmd.sector < job.l.count && Off(job.l.size, cmd.sector) < job.prev.end)
    && (job.l.inPlace ==> cmd.step != Run2Mov && cmd.step != Mov2Upg)
  }

  /** Where sector `j` of both images is; in place there is no old image to keep. */
  ghost predicate SectorInv(job: Job, cmd: Cmd, c: Chip, j: nat) {
    var k := cmd.sector;
    var oldToo := !job.l.inPlace;
    match cmd.step
    case Empty => NewInUpg(job, c, j) && (oldToo ==> OldInRun(job, c, j))
    case Run2Mov => NewInUpg(job, c, j) && if j <= k then OldInRun(job, c, j) else OldInMove(job, c, j)
    case Upg2Run =>
      if j < k then NewInRun(job, c, j) && (oldToo ==> OldInUpg(job, c, j))
      else NewInUpg(job, c, j) && (oldToo ==> OldInMove(job, c, j))
    case Mov2Upg =>
      && (if j <= k then NewInRun(job, c, j) else NewInUpg(job, c, j))
      && (if j < k then OldInUpg(job, c, j) else OldInMove(job, c, j))
    case _ => NewInRun(job, c, j) && (oldToo ==> OldInUpg(job, c, j))
  }

  /** When there is no old image, none is found where its header would be looked for. */
  ghost predicate InvNoOld(job: Job, cmd: Cmd, c: Chip) {
    job.prev == NO_IMAGE ==>
      match cmd.step
      case Empty => |c.phys| > 1 && job.parse(c.phys[0]) == None && job.parse(c.phys[1]) == None
      case Upg2Run => if cmd.sector == 0 then |c.phys| > 1 && job.parse(c.phys[1]) == None else |c.upg| > 0 && job.parse(c.upg[0]) == None
      case Mov2Upg => if cmd.sector == 0 then |c.phys| > 1 && job.parse(c.phys[1]) == None else |c.upg| > 0 && job.parse(c.upg[0]) == None
      case _ => true
  }

  /** The sector that `cmd` erases and writes. */
  function Target(cmd: Cmd): Place {
    match cmd.step
    case Run2Mov => Phys(cmd.sector + 1)
    case Upg2Run => Phys(cmd.sector)
    case Mov2Upg => Upg(cmd.sector)
    case _ => Phys(0)
  }

  predicate Writes(step: Step) {
    step == Run2Mov || step == Upg2Run || step == Mov2Upg
  }

  /** A step needs nothing of the sector it writes: whatever an interrupted step leaves
      there, the step can be taken again. */
  lemma StepIsRestartable(job: Job, cmd: Cmd, c: Chip, x: Chip)
    requires Inv(job, cmd, c) && Writes(cmd.step) && DiffersAt(job.l, c, Target(cmd), x)
    ensures Inv(job, cmd, x)
  {
    hide NewInUpg, NewInRun, OldInRun, OldInMove, OldInUpg;
    StaysShaped(job.l, c, Target(cmd), x);
    if !job.l.inPlace {
      NoOldRestartable(job, cmd, c, x);
    }
    forall j | 0 <= j < job.l.count ensures SectorInv(job, cmd, x, j) {
      assert SectorInv(job, cmd, c, j);
      SectorsApart(job, c, Target(cmd), x, j);
    }
  }

  /** Writing one place leaves what is elsewhere. */
  lemma SectorsApart(job: Job, c: Chip, p: Place, x: Chip, j: nat)
    requires DiffersAt(job.l, c, p, x)
    ensures NewInUpg(job, c, j) && p != PlaceOf(job.l, Upgrade, j) ==> NewInUpg(job, x, j)
    ensures NewInRun(job, c, j) && p != Phys(j) ==> NewInRun(job, x, j)
    ensures OldInRun(job, c, j) && p != Phys(j) ==> OldInRun(job, x, j)
    ensures OldInMove(job, c, j) && p != Phys(j + 1) ==> OldInMove(job, x, j)
    ensures OldInUpg(job, c, j) && p != Upg(j) ==> OldInUpg(job, x, j)
  {
    hide Moved, Agree, Bytes, Off;
  }

  lemma NoOldRestartable(job: Job, cmd: Cmd, c: Chip, x: Chip)
    requires InvNoOld(job, cmd, c) && Writes(cmd.step) && DiffersAt(job.l, c, Target(cmd), x)
    ensures InvNoOld(job, cmd, x)
  {
  }

  lemma StaysShaped(l: Layout, c: Chip, p: Place, x: Chip)
    requires Shaped(l, c) && DiffersAt(l, c, p, x)
    ensures Shaped(l, x)
  {
  }

  /** The log is not looked at. */
  lemma LogIsApart(job: Job, cmd: Cmd, c: Chip, log: seq<LogSlot>)
    requires Inv(job, cmd, c)
    ensures Inv(job, cmd, c.(log := log))
  {
    var x := c.(log := log);
    hide NewInUpg, NewInRun, OldInRun, OldInMove, OldInUpg;
    forall j | 0 <= j < job.l.count ensures SectorInv(job, cmd, x, j) {
      assert SectorInv(job, cmd, c, j);
      LogApart(job, c, log, j);
    }
  }

  lemma LogApart(job: Job, c: Chip, log: seq<LogSlot>, j: nat)
    ensures var x := c.(log := log);
      && NewInUpg(job, x, j) == NewInUpg(job, c, j) && NewInRun(job, x, j) == NewInRun(job, c, j)
      && OldInRun(job, x, j) == OldInRun(job, c, j) && OldInMove(job, x, j) == OldInMove(job, c, j)
      && OldInUpg(job, x, j) == OldInUpg(job, c, j)
  {
    hide Moved, Agree, Bytes, Off;
  }
}
