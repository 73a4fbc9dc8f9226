/** Disk access through the BIOS (stage2/bios.c): the geometry of a drive, the choice between linear (LBA) and
    cylinder/head/sector (CHS) addressing, and the one-way fallback from the first to the second. What the BIOS
    answers is a parameter of every call. */
module Bios {
  import opened Seqs

  type Word32 = x: int | 0 <= x < 0x1_0000_0000

  const BIOSDISK_ERROR_GEOMETRY: nat := 0x100
  const SECTOR_SIZE: nat := 0x200
  const MAXINT: nat := 0x7FFF_FFFF

  /** Conversion to a 32-bit unsigned long. */
  function Unsigned(x: int): Word32 {
    x % 0x1_0000_0000
  }

  /** biosdisk's arguments; `sector` is an int. */
  datatype Request = Request(read: nat, drive: nat, sector: int, nsec: nat, segment: nat)

  /** The calls to the disk service: the extensions take a 64-bit block number, the standard service a position. */
  datatype Call =
    | Extended(ax: nat, drive: nat, block: nat, blocks: nat, segment: nat)
    | Standard(ah: nat, drive: nat, cylinder: nat, head: nat, sector: nat, nsec: nat, segment: nat)

  /** The error numbers both services would return for a request. */
  datatype Answer = Answer(extended: Byte, standard: Byte)

  // ---------------------------------------------------------------- positions

  datatype Chs = Chs(cylinder: nat, head: nat, sector: nat)

  /** Heads and cylinders are counted from zero, sectors from one. */
  predicate OnDisk(p: Chs, cylinders: nat, heads: nat, sectors: nat) {
    p.cylinder < cylinders && p.head < heads && 1 <= p.sector <= sectors
  }

  /** The number of sectors before position `p`. */
  function Linear(p: Chs, heads: nat, sectors: nat): int {
    (p.cylinder * heads + p.head) * sectors + p.sector - 1
  }

  /** The arithmetic of the CHS branch. */
  function Split(sector: nat, heads: nat, sectors: nat): Chs
    requires heads > 0 && sectors > 0
  {
    Chs(sector / sectors / heads, sector / sectors % heads, sector % sectors + 1)
  }

  lemma QuotientBound(x: nat, d: nat, n: nat)
    requires d > 0
    ensures x / d < n <==> x < n * d
  {
    var q, r := x / d, x % d;
    assert x == q * d + r;
    if q < n {
      assert (q + 1) * d <= n * d;
    } else {
      assert q * d >= n * d;
    }
  }

  lemma DivModUnique(d: nat, q: nat, r: nat)
    requires r < d
    ensures (q * d + r) / d == q && (q * d + r) % d == r
  {
    var x := q * d + r;
    QuotientBound(x, d, q);
    QuotientBound(x, d, q + 1);
  }

  /** The split inverts back to the sector, its head and sector are always on the disk, and its cylinder is
      exactly when the sector is. */
  lemma SplitInverts(sector: nat, cylinders: nat, heads: nat, sectors: nat)
    requires heads > 0 && sectors > 0
    ensures var p := Split(sector, heads, sectors);
            && Linear(p, heads, sectors) == sector
            && (OnDisk(p, cylinders, heads, sectors) <==> sector < cylinders * heads * sectors)
            && (p.cylinder < cylinders <==> sector < cylinders * heads * sectors)
  {
    var track := sector / sectors;
    QuotientBound(sector, sectors, cylinders * heads);
    QuotientBound(track, heads, cylinders);
    assert track / heads * heads + track % heads == track;
    assert track * sectors + sector % sectors == sector;
  }

  /** Every position on the disk is the split of its sector number, so the split is one to one and onto. */
  lemma LinearSplits(p: Chs, cylinders: nat, heads: nat, sectors: nat)
    requires OnDisk(p, cylinders, heads, sectors)
    ensures 0 <= Linear(p, heads, sectors) < cylinders * heads * sectors
    ensures Split(Linear(p, heads, sectors), heads, sectors) == p
  {
    var track := p.cylinder * heads + p.head;
    DivModUnique(sectors, track, p.sector - 1);
    DivModUnique(heads, p.cylinder, p.head);
    SplitInverts(Linear(p, heads, sectors), cylinders, heads, sectors);
  }

  // ---------------------------------------------------------------- the BIOS's answers about a drive

  /** The registers INT 13 AH=8 returns, and what get_diskinfo_standard makes of them. */
  datatype Registers = Registers(ah: Byte, ch: Byte, cl: Byte, dh: Byte)
  {
    function Error(): nat {
      if ah != 0 then ah else if cl % 64 == 0 then 0x60 else 0
    }
    function Cylinders(): nat {
      256 * (cl / 64) + ch + 1
    }
    function Heads(): nat {
      dh + 1
    }
    function Sectors(): nat {
      cl % 64
    }
  }

  /** The answer about bootable CD-ROM emulation. */
  datatype CdAnswer = CdAnswer(err: nat, mediaType: Byte, driveNo: Byte, cylinders: Byte, sectors: Byte, heads: Byte)
  {
    /** The two high bits of the cylinder number stand above the sector number. */
    function Cylinders(): nat {
      cylinders + 256 * (sectors / 64)
    }
  }

  /** The answer about the drive parameters. */
  datatype Parameters = Parameters(err: nat, cylinders: Word32, heads: Word32, sectors: Word32, total: nat)
  {
    /** The total as it fits an unsigned long, computed from the geometry when the BIOS reports zero. */
    function Total(): Word32 {
      Unsigned(if total != 0 then total else cylinders * heads * sectors)
    }
  }

  datatype Disk = Disk(version: nat, cd: CdAnswer, parameters: Parameters, registers: Registers)
  {
    /** The drive is checked for CD-ROM emulation and is the emulated one. */
    predicate Emulated(drive: nat) {
      drive / 0x80 % 2 == 1 && (drive >= 0x88 || version != 0) && cd.err == 0 && cd.driveNo == drive
    }

    predicate NoEmulationCd(drive: nat) {
      Emulated(drive) && cd.mediaType % 16 == 0
    }

    /** The BIOS answers with a geometry that cannot be divided by. */
    predicate ZeroGeometry(drive: nat) {
      Emulated(drive) && !NoEmulationCd(drive) && (cd.heads == 0 || cd.sectors % 64 == 0)
    }
  }

  lemma ProductBound(c: nat, h: nat, s: nat)
    requires c <= 1024 && h <= 256 && s <= 63
    ensures 0 <= c * h * s < 0x1_0000_0000
  {
    ProductMono(c, h, 1024, 256);
    ProductMono(c * h, s, 1024 * 256, 63);
  }

  /** The total the drive parameters report, as far as 32 bits hold it: the number itself, or the product of their
      geometry when it is zero, or `capacity` when that is zero as well. */
  ghost predicate Reported(q: Parameters, total: int, capacity: int) {
    var t := if q.total == 0 then q.cylinders * q.heads * q.sectors % 0x1_0000_0000 else q.total % 0x1_0000_0000;
    && total == (if t == 0 then capacity else t)
    && (0 < q.total < 0x1_0000_0000 ==> total == q.total)
  }

  lemma TotalIsReported(q: Parameters, capacity: int)
    ensures Reported(q, if q.Total() == 0 then capacity else q.Total(), capacity)
  {
  }

  lemma ProductMono(a: nat, b: nat, m: nat, n: nat)
    requires a <= m && b <= n
    ensures 0 <= a * b <= m * n
  {
    assert m * n == a * b + (m - a) * b + m * (n - b);
  }

  // ---------------------------------------------------------------- the geometry of a drive

  class Geometry {
    var cylinders: Word32
    var heads: Word32
    var sectors: Word32
    var totalSectors: Word32
    var sectorSize: Word32
    var lba: bool               // BIOSDISK_FLAG_LBA_EXTENSION
    var cdrom: bool             // BIOSDISK_FLAG_CDROM
    ghost var calls: seq<Call>  // the transfers asked of the BIOS

    /** The sizes fit the fields of the standard service. */
    ghost predicate Sized()
      reads `cylinders, `heads, `sectors
    {
      cylinders <= 1024 && heads <= 256 && sectors <= 63
    }

    ghost function Capacity(): int
      reads `cylinders, `heads, `sectors
    {
      cylinders * heads * sectors
    }

    /** What every transfer keeps: a CD-ROM is addressed linearly, anything else has a geometry to divide by, and
        without linear addressing the total is the product of the geometry. */
    ghost predicate Valid()
      reads `cylinders, `heads, `sectors, `totalSectors, `lba, `cdrom
    {
      && Sized()
      && (cdrom ==> lba)
      && (!cdrom ==> heads > 0 && sectors > 0)
      && (!lba ==> totalSectors == Capacity())
    }

    constructor ()
      ensures calls == []
    {
      cylinders, heads, sectors, totalSectors, sectorSize := 0, 0, 0, 0, 0;
      lba, cdrom, calls := false, false, [];
    }

    /** get_cdinfo: 1 for a CD-ROM without emulation, -1 for an emulated disk, 0 otherwise. */
    method GetCdinfo(drive: nat, cd: CdAnswer) returns (ret: int)
      modifies `cylinders, `heads, `sectors, `totalSectors, `sectorSize, `lba, `cdrom
      ensures ret == if cd.err != 0 || cd.driveNo != drive then 0 else if cd.mediaType % 16 == 0 then 1 else -1
      ensures ret == 0 ==> unchanged(this)
      ensures ret == 1 ==>
        && lba && cdrom && Sized() && sectorSize == 2048
        && cylinders == 0 && heads == 1 && sectors == 15 && totalSectors == MAXINT
      ensures ret == -1 ==>
        && lba == old(lba) && cdrom == old(cdrom) && Sized() && totalSectors == Capacity() && sectorSize == SECTOR_SIZE
        && cylinders == cd.Cylinders() && heads == cd.heads && sectors == cd.sectors % 64
    {
      if cd.err == 0 && cd.driveNo == drive {
        if cd.mediaType % 16 == 0 {
          lba, cdrom := true, true;
          cylinders, heads, sectors := 0, 1, 15;
          sectorSize, totalSectors := 2048, MAXINT;
          return 1;
        }
        cylinders := cd.cylinders + 4 * (cd.sectors - cd.sectors % 64);
        heads := cd.heads;
        sectors := cd.sectors % 64;
        sectorSize := SECTOR_SIZE;
        ProductBound(cylinders, heads, sectors);
        totalSectors := cylinders * heads * sectors;
        return -1;
      }
      return 0;
    }

    /** What the standard service reports, whether it succeeds or not: the last cylinder and head and the number of
        sectors, packed into the registers, are the bytes the BIOS returned. */
    method GetDiskinfoStandard(r: Registers) returns (err: nat)
      modifies `cylinders, `heads, `sectors
      ensures err == r.Error() && Sized() && heads > 0 && (err == 0 ==> sectors > 0)
      ensures cylinders == r.Cylinders() && heads == r.Heads() && sectors == r.Sectors()
      ensures heads - 1 == r.dh && (cylinders - 1) % 256 == r.ch && (cylinders - 1) / 256 * 64 + sectors == r.cl
    {
      cylinders, heads, sectors := r.Cylinders(), r.Heads(), r.Sectors();
      err := r.Error();
    }

    /** get_diskinfo: when it succeeds the geometry is fit for biosdisk, except exactly when an emulated disk
        reports no heads or no sectors. */
    method GetDiskinfo(drive: nat, disk: Disk) returns (err: nat)
      requires drive < 256
      modifies `cylinders, `heads, `sectors, `totalSectors, `sectorSize, `lba, `cdrom
      ensures err == if disk.Emulated(drive) then 0 else disk.registers.Error()
      ensures err == 0 ==> (Valid() <==> !disk.ZeroGeometry(drive))
      ensures err == 0 ==> Sized() && (cdrom <==> disk.NoEmulationCd(drive))
      ensures err == 0 ==>
        (lba <==> cdrom || (drive >= 0x80 && !disk.Emulated(drive) && disk.version != 0 && disk.parameters.err == 0))
      ensures err == 0 && !lba ==> totalSectors == Capacity()
      ensures err == 0 && cdrom ==> totalSectors == 0x7FFF_FFFF
      ensures err == 0 && lba && !cdrom ==> Reported(disk.parameters, totalSectors, Capacity())
      ensures err == 0 ==> sectorSize == if cdrom then 2048 else SECTOR_SIZE
      ensures err == 0 && !cdrom ==>
        (cylinders, heads, sectors) ==
          if disk.Emulated(drive) then (disk.cd.Cylinders(), disk.cd.heads, disk.cd.sectors % 64)
          else (disk.registers.Cylinders(), disk.registers.Heads(), disk.registers.Sectors())
    {
      hide Capacity;
      hide Reported;
      hide Unsigned;
      lba, cdrom := false, false;
      var total: Word32 := 0;
      if drive / 0x80 % 2 == 1 {
        if drive >= 0x88 || disk.version != 0 {
          var cd := GetCdinfo(drive, disk.cd);
          if cd != 0 {
            return 0;
          }
        }
        if disk.version != 0 && disk.parameters.err == 0 {
          lba := true;
          total := disk.parameters.Total();
        }
      }
      err := GetSizes(disk.registers, total);
      TotalIsReported(disk.parameters, Capacity());
    }

    /** The end of get_diskinfo: the geometry of the standard service, and a total of it where there is none yet. */
    method GetSizes(r: Registers, total: Word32) returns (err: nat)
      modifies `cylinders, `heads, `sectors, `totalSectors, `sectorSize
      ensures err == r.Error()
      ensures err == 0 ==>
        && Sized() && heads > 0 && sectors > 0 && sectorSize == SECTOR_SIZE
        && cylinders == r.Cylinders() && heads == r.Heads() && sectors == r.Sectors()
        && totalSectors == if total == 0 then Capacity() else total
    {
      err := GetDiskinfoStandard(r);
      if err != 0 {
        return;
      }
      ProductBound(cylinders, heads, sectors);
      totalSectors := if total == 0 then cylinders * heads * sectors else total;
      sectorSize := SECTOR_SIZE;
    }

    /** biosdisk. With linear addressing the request goes to the extensions; if they fail on anything but a CD-ROM,
        linear addressing is given up and the request is made again by position. A request by position is refused
        exactly when its sector lies beyond the geometry. */
    method Biosdisk(r: Request, answer: Answer) returns (err: nat)
      requires Valid()
      modifies `totalSectors, `lba, `calls
      ensures Valid()
      ensures lba == StaysLinear(old(lba), cdrom, answer)
      ensures lba ==> totalSectors == old(totalSectors)
      ensures err == Outcome(lba, r, answer, Capacity())
      ensures calls == old(calls) + CallsFor(old(lba), lba, r, cylinders, heads, sectors)
      decreases lba
    {
      if lba {
        calls := calls + [ExtendedCall(r)];
        err := answer.extended;
        if err != 0 {
          if cdrom {
            return;
          }
          lba := false;
          ProductBound(cylinders, heads, sectors);
          totalSectors := cylinders * heads * sectors;
          err := Biosdisk(r, answer);
        }
      } else {
        var sector := Unsigned(r.sector);
        SplitInverts(sector, cylinders, heads, sectors);
        var sectorOffset := sector % sectors + 1;
        var head := sector / sectors;
        var headOffset := head % heads;
        var cylinderOffset := head / heads;
        if cylinderOffset >= cylinders {
          return BIOSDISK_ERROR_GEOMETRY;
        }
        calls := calls
          + [Standard(r.read + 0x02, r.drive, cylinderOffset, headOffset, sectorOffset, r.nsec, r.segment)];
        err := answer.standard;
      }
    }
  }

  // ---------------------------------------------------------------- what a run of transfers does

  predicate StaysLinear(lba: bool, cdrom: bool, answer: Answer) {
    lba && (cdrom || answer.extended == 0)
  }

  function Outcome(lba: bool, r: Request, answer: Answer, capacity: int): (err: nat) {
    if lba then answer.extended
    else if Unsigned(r.sector) >= capacity then BIOSDISK_ERROR_GEOMETRY
    else answer.standard
  }

  /** The block number is the int sector sign-extended to 64 bits, the count a 16-bit field. */
  function ExtendedCall(r: Request): Call {
    Extended((r.read + 0x42) * 0x100, r.drive, r.sector % 0x1_0000_0000_0000_0000, r.nsec % 0x1_0000, r.segment)
  }

  /** Reading is function 0x42 of the extensions and 2 of the standard service, writing 0x43 and 3. */
  lemma CallNumbers(r: Request, heads: nat, sectors: nat)
    requires r.read in {0, 1} && heads > 0 && sectors > 0
    ensures ExtendedCall(r).ax == (if r.read == 0 then 0x4200 else 0x4300)
    ensures StandardCall(r, heads, sectors).ah == (if r.read == 0 then 2 else 3)
    ensures 0 <= r.sector < 0x8000_0000 && r.nsec < 0x1_0000 ==>
      ExtendedCall(r) == Extended(ExtendedCall(r).ax, r.drive, r.sector, r.nsec, r.segment)
    ensures -0x8000_0000 <= r.sector < 0 ==> ExtendedCall(r).block == r.sector + 0x1_0000_0000_0000_0000
  {
  }

  ghost function StandardCall(r: Request, heads: nat, sectors: nat): Call
    requires heads > 0 && sectors > 0
  {
    var p := Split(Unsigned(r.sector), heads, sectors);
    Standard(r.read + 0x02, r.drive, p.cylinder, p.head, p.sector, r.nsec, r.segment)
  }

  /** The calls one request makes, given linear addressing before and after it. */
  ghost function CallsFor(before: bool, after: bool, r: Request, cylinders: nat, heads: nat, sectors: nat): seq<Call>
    requires !after ==> heads > 0 && sectors > 0
  {
    (if before then [ExtendedCall(r)] else [])
    + if !after && Unsigned(r.sector) < cylinders * heads * sectors then [StandardCall(r, heads, sectors)] else []
  }

  /** Linear addressing lasts until the extensions fail, and for ever on a CD-ROM. */
  predicate LinearAfter(lba: bool, cdrom: bool, answers: seq<Answer>) {
    lba && (cdrom || forall i :: 0 <= i < |answers| ==> answers[i].extended == 0)
  }

  /** A call by position, on the disk. */
  ghost predicate Placed(c: Call, cylinders: nat, heads: nat, sectors: nat) {
    c.Standard? ==> OnDisk(Chs(c.cylinder, c.head, c.sector), cylinders, heads, sectors)
  }

  /** The fallback is one-way, and no call leaves the disk. */
  ghost predicate WellBehaved(calls: seq<Call>, cylinders: nat, heads: nat, sectors: nat) {
    && (forall i, j :: 0 <= i < j < |calls| && calls[i].Standard? ==> calls[j].Standard?)
    && forall i :: 0 <= i < |calls| ==> Placed(calls[i], cylinders, heads, sectors)
  }

  lemma WellBehavedStep(calls: seq<Call>, before: bool, after: bool, r: Request, c: nat, h: nat, s: nat)
    requires WellBehaved(calls, c, h, s) && (after ==> before) && (!after ==> h > 0 && s > 0)
    requires before ==> AllExtended(calls)
    ensures WellBehaved(calls + CallsFor(before, after, r, c, h, s), c, h, s)
    ensures after ==> AllExtended(calls + CallsFor(before, after, r, c, h, s))
  {
    if !after {
      SplitInverts(Unsigned(r.sector), c, h, s);
    }
  }

  /** The call asks for the request's first sector. */
  ghost predicate Targets(c: Call, r: Request, heads: nat, sectors: nat) {
    if c.Standard? then Linear(Chs(c.cylinder, c.head, c.sector), heads, sectors) == Unsigned(r.sector)
    else Unsigned(c.block) == Unsigned(r.sector)
  }

  lemma CallsTarget(before: bool, after: bool, r: Request, c: nat, h: nat, s: nat)
    requires (after ==> before) && (!after ==> h > 0 && s > 0)
    ensures CallsFor(before, after, r, c, h, s) == [] ==> !before && !after && Unsigned(r.sector) >= c * h * s
    ensures forall x :: x in CallsFor(before, after, r, c, h, s) ==> Targets(x, r, h, s)
  {
    if !after {
      SplitInverts(Unsigned(r.sector), c, h, s);
    }
  }

  /** `of` says for every call which request it serves: in order, and none of the accepted requests unserved. */
  ghost predicate Serves(calls: seq<Call>, of: seq<nat>, requests: seq<Request>, errs: seq<nat>,
                         heads: nat, sectors: nat)
  {
    && |of| == |calls| && |errs| <= |requests|
    && (forall k :: 0 <= k < |of| ==> of[k] < |errs| && Targets(calls[k], requests[of[k]], heads, sectors))
    && (forall j, k :: 0 <= j < k < |of| ==> of[j] <= of[k])
    && forall i :: 0 <= i < |errs| && errs[i] != BIOSDISK_ERROR_GEOMETRY ==> i in of
  }

  lemma ServesStep(calls: seq<Call>, of: seq<nat>, requests: seq<Request>, errs: seq<nat>, h: nat, s: nat,
                   more: seq<Call>, err: nat) returns (of': seq<nat>)
    requires Serves(calls, of, requests, errs, h, s) && |errs| < |requests|
    requires forall x :: x in more ==> Targets(x, requests[|errs|], h, s)
    requires more == [] ==> err == BIOSDISK_ERROR_GEOMETRY
    ensures Serves(calls + more, of', requests, errs + [err], h, s)
  {
    var n: nat := |errs|;
    of' := of + seq(|more|, _ => n);
    assert more != [] ==> of'[|of|] == n;
    forall i | 0 <= i <= n && (errs + [err])[i] != BIOSDISK_ERROR_GEOMETRY
      ensures i in of'
    {
      assert i < n ==> (errs + [err])[i] == errs[i] && i in of;
    }
  }

  /** Every request was answered by the service in force, linear addressing being on at first if `lba`. */
  ghost predicate Answered(lba: bool, cdrom: bool, requests: seq<Request>, answers: seq<Answer>, errs: seq<nat>,
                           capacity: int)
  {
    && |errs| <= |requests| == |answers|
    && forall i :: 0 <= i < |errs| ==>
         errs[i] == Outcome(LinearAfter(lba, cdrom, answers[..i + 1]), requests[i], answers[i], capacity)
  }

  ghost predicate AllExtended(calls: seq<Call>) {
    forall i :: 0 <= i < |calls| ==> calls[i].Extended?
  }

  /** The state of a run after `|errs|` requests. */
  ghost predicate Ran(g: Geometry, lba: bool, requests: seq<Request>, answers: seq<Answer>, errs: seq<nat>,
                      of: seq<nat>)
    reads g
  {
    && g.Valid()
    && Answered(lba, g.cdrom, requests, answers, errs, g.Capacity())
    && g.lba == LinearAfter(lba, g.cdrom, answers[..|errs|])
    && WellBehaved(g.calls, g.cylinders, g.heads, g.sectors)
    && Serves(g.calls, of, requests, errs, g.heads, g.sectors)
    && (g.lba ==> AllExtended(g.calls))
  }

  lemma LinearStep(lba: bool, cdrom: bool, answers: seq<Answer>, n: nat)
    requires n < |answers|
    ensures LinearAfter(lba, cdrom, answers[..n + 1])
         == StaysLinear(LinearAfter(lba, cdrom, answers[..n]), cdrom, answers[n])
  {
    assert answers[..n + 1] == answers[..n] + [answers[n]];
  }

  /** One request of a run. */
  method Transfer(g: Geometry, ghost lba: bool, requests: seq<Request>, answers: seq<Answer>, errs: seq<nat>,
                  ghost of: seq<nat>) returns (err: nat, ghost of': seq<nat>)
    requires Ran(g, lba, requests, answers, errs, of) && |errs| < |requests|
    modifies g`totalSectors, g`lba, g`calls
    ensures Ran(g, lba, requests, answers, errs + [err], of')
  {
    hide Serves;
    hide WellBehaved;
    hide LinearAfter;
    hide CallsFor;
    var n := |errs|;
    ghost var before, calls := g.lba, g.calls;
    LinearStep(lba, g.cdrom, answers, n);
    err := g.Biosdisk(requests[n], answers[n]);
    ghost var more := CallsFor(before, g.lba, requests[n], g.cylinders, g.heads, g.sectors);
    WellBehavedStep(calls, before, g.lba, requests[n], g.cylinders, g.heads, g.sectors);
    CallsTarget(before, g.lba, requests[n], g.cylinders, g.heads, g.sectors);
    of' := ServesStep(calls, of, requests, errs, g.heads, g.sectors, more, err);
  }

  /** Any sequence of transfers on a geometry fit for it: the fallback happens once, at the first failure of the
      extensions; every request is answered by the service in force and reaches its own sector; no call by
      position leaves the disk. */
  method RunRequests(g: Geometry, requests: seq<Request>, answers: seq<Answer>)
    returns (errs: seq<nat>, ghost of: seq<nat>)
    requires g.Valid() && g.calls == [] && |answers| == |requests|
    modifies g`totalSectors, g`lba, g`calls
    ensures g.Valid() && g.lba == LinearAfter(old(g.lba), g.cdrom, answers)
    ensures !g.lba ==> g.totalSectors == g.Capacity()
    ensures |errs| == |requests| && Answered(old(g.lba), g.cdrom, requests, answers, errs, g.Capacity())
    ensures WellBehaved(g.calls, g.cylinders, g.heads, g.sectors)
    ensures Serves(g.calls, of, requests, errs, g.heads, g.sectors)
  {
    errs, of := [], [];
    while |errs| < |requests|
      invariant |errs| <= |requests| && Ran(g, old(g.lba), requests, answers, errs, of)
    {
      hide Ran;
      var err;
      err, of := Transfer(g, old(g.lba), requests, answers, errs, of);
      errs := errs + [err];
    }
    assert answers[..|answers|] == answers;
  }

  /** A success of get_diskinfo after which biosdisk would divide by zero: an emulated floppy without heads. */
  method UnfitGeometry() returns (err: nat, divisor: int)
    ensures err == 0 && divisor == 0
  {
    var g := new Geometry();
    var floppy := CdAnswer(0, 2, 0x80, 79, 18, 0);
    err := g.GetDiskinfo(0x80, Disk(1, floppy, Parameters(1, 0, 0, 0, 0), Registers(1, 0, 0, 0)));
    divisor := g.heads * g.sectors;
  }
}
