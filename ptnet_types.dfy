/*
 * Values exchanged between the ptnet guest driver and the device: the
 * per-ring records of the Communication Status Block (CSB), the guest's
 * local krings, the per-ring queue records, and the register writes the
 * driver issues. Everything here is a value; the objects that hold them
 * live in module Ptnet.
 */
module PtnetTypes {

  /** A C `uint32_t`. */
  type u32 = x: int | 0 <= x < 0x1_0000_0000

  datatype Option<T> = None | Some(value: T)

  // FreeBSD errno values returned by attach and the interrupt set-up.
  const ENXIO: int := 6
  const ENOMEM: int := 12
  const ENOSPC: int := 28

  /** NET_PTN_FEATURES_BASE: the feature bit the host must acknowledge. */
  const FEATURES_BASE: bv32 := 1

  /** PTNET_IO_KICK_BASE: I/O offset of ring 0's kick register. Its value
      lives in netmap_virt.h, which is not part of this model. */
  const KICK_BASE: nat

  /** Number of ring records in `struct ptnet_csb`. Its size is fixed in
      netmap_virt.h, which is not part of this model. */
  const CSB_MAX_RINGS: u32

  /** PTCTL opcodes (NET_PARAVIRT_PTCTL_REGIF / _UNREGIF). */
  datatype Ptctl = Regif | Unregif

  /** CTRL opcodes (PTNET_CTRL_IRQINIT / _IRQFINI). */
  datatype CtrlCmd = IrqInit | IrqFini

  /** What the driver does to the device or to netmap, in the order it happens. */
  datatype Event =
    | WriteFeat(feat: bv32)            // PTFEAT write
    | WriteCsbBah(bah: bv32)           // CSBBAH write
    | WriteCsbBal(bal: bv32)           // CSBBAL write
    | WritePtctl(cmd: Ptctl)           // PTCTL write (followed by the PTSTS read)
    | WriteCtrl(op: CtrlCmd)           // CTRL write
    | WriteKick(addr: nat, v: bv32)    // a write to a ring's kick register
    | PullFromCsb                      // ptnet_sync_from_csb ran
    | SetNativeFlags                   // nm_set_native_flags
    | ClearNativeFlags                 // nm_clear_native_flags

  /** One CSB ring record (`struct ptnet_ring`). */
  datatype CsbRing = CsbRing(head: u32, cur: u32, hwcur: u32, hwtail: u32,
                             hostNeedKick: bool, guestNeedKick: bool)

  /** A CSB ring record as `malloc(..., M_ZERO)` leaves it. */
  const ZeroRing := CsbRing(0, 0, 0, 0, false, false)

  datatype Flag = HostNeedKick | GuestNeedKick

  /** A ring direction (NR_TX / NR_RX). */
  datatype Dir = Tx | Rx

  function FlagOf(r: CsbRing, f: Flag): bool
  {
    match f
    case HostNeedKick => r.hostNeedKick
    case GuestNeedKick => r.guestNeedKick
  }

  /** `ptring->fld = v` for one notification flag. */
  function SetFlag(r: CsbRing, f: Flag, v: bool): (r': CsbRing)
    ensures FlagOf(r', f) == v
    ensures f == HostNeedKick ==> r'.guestNeedKick == r.guestNeedKick
    ensures f == GuestNeedKick ==> r'.hostNeedKick == r.hostNeedKick
    ensures r'.head == r.head && r'.cur == r.cur && r'.hwcur == r.hwcur && r'.hwtail == r.hwtail
  {
    match f
    case HostNeedKick => r.(hostNeedKick := v)
    case GuestNeedKick => r.(guestNeedKick := v)
  }

  /** Ring index i of a device with `ntx` TX rings and `n` rings in all
      belongs to direction t. */
  predicate InDir(i: nat, t: Dir, ntx: nat, n: nat)
  {
    if t == Tx then i < ntx else ntx <= i < n
  }

  /** kring nr_mode / nr_pending_mode values (NKR_NETMAP_OFF / _ON). */
  datatype Mode = Off | On

  /** The fields of a `struct netmap_kring` this driver reads or writes;
      ringHead, ringCur and ringTail are `kring->ring->head/cur/tail`. */
  datatype Kring = Kring(rhead: u32, rcur: u32, rtail: u32,
                         nrHwcur: u32, nrHwtail: u32,
                         ringHead: u32, ringCur: u32, ringTail: u32,
                         nrMode: Mode, nrPendingMode: Mode)

  /** A kring as netmap_hw_krings_create leaves it (zeroed, netmap mode off). */
  const ZeroKring := Kring(0, 0, 0, 0, 0, 0, 0, 0, Off, Off)

  /** nm_kring_pending_on (netmap_kern.h). */
  predicate PendingOn(k: Kring)
  {
    k.nrPendingMode == On && k.nrMode == Off
  }

  /** nm_kring_pending_off (netmap_kern.h). */
  predicate PendingOff(k: Kring)
  {
    k.nrPendingMode == Off && k.nrMode == On
  }

  /** The kring's cursors all agree with the CSB record. */
  ghost predicate Mirrors(k: Kring, r: CsbRing)
  {
    && k.rhead == r.head && k.ringHead == r.head
    && k.rcur == r.cur && k.ringCur == r.cur
    && k.nrHwcur == r.hwcur
    && k.nrHwtail == r.hwtail && k.rtail == r.hwtail && k.ringTail == r.hwtail
  }

  /** The body of the loop in ptnet_sync_from_csb for one ring. */
  function Pull(k: Kring, r: CsbRing): (k': Kring)
    ensures Mirrors(k', r)
    ensures k'.nrMode == k.nrMode && k'.nrPendingMode == k.nrPendingMode
  {
    k.(rhead := r.head, ringHead := r.head,
       rcur := r.cur, ringCur := r.cur,
       nrHwcur := r.hwcur,
       nrHwtail := r.hwtail, rtail := r.hwtail, ringTail := r.hwtail)
  }

  /** The nr_mode step of ptnet_nm_register for one kring: a register
      (`on`) completes a pending switch on, an unregister a pending switch off. */
  function ModeStep(k: Kring, on: bool): (k': Kring)
    ensures k'.nrPendingMode == k.nrPendingMode
    ensures (on && PendingOn(k)) || (!on && PendingOff(k)) ==> k'.nrMode == k.nrPendingMode
    ensures !((on && PendingOn(k)) || (!on && PendingOff(k))) ==> k' == k
    ensures k'.(nrMode := k.nrMode) == k
  {
    if on && PendingOn(k) then k.(nrMode := On)
    else if !on && PendingOff(k) then k.(nrMode := Off)
    else k
  }

  /** Interrupt handlers a queue can be wired to. */
  datatype Intr = TxIntr | RxIntr

  /** A `struct ptnet_queue`: `irq` stands for a non-NULL `pq->irq`,
      `handler` for a non-NULL `pq->cookie` and the handler it runs. */
  datatype Queue = Queue(kringId: int, kick: nat, ptring: nat,
                         irq: bool, handler: Option<Intr>)

  /** A queue record as `malloc(..., M_ZERO)` leaves it. */
  const ZeroQueue := Queue(0, 0, 0, false, None)

  /** What the queue loop of ptnet_attach stores in queue i. */
  ghost predicate QueueEntryOk(q: Queue, i: nat, ntx: nat)
  {
    && q.kick == KICK_BASE + 4 * i
    && q.ptring == i
    && q.kringId == (if i < ntx then i else i - ntx)
  }

  /** The whole queue table of a device with `ntx` TX rings. */
  ghost predicate QueueTable(qs: seq<Queue>, ntx: nat)
  {
    forall i :: 0 <= i < |qs| ==> QueueEntryOk(qs[i], i, ntx)
  }

  /** The six MAC bytes ptnet_attach reads out of MAC_HI and MAC_LO:
      packed back big-endian they give the low 16 bits of MAC_HI and all
      of MAC_LO. */
  function MacBytes(hi: bv32, lo: bv32): (mac: seq<bv8>)
    ensures |mac| == 6
    ensures ((mac[0] as bv32) << 8) | (mac[1] as bv32) == hi & 0xffff
    ensures ((mac[2] as bv32) << 24) | ((mac[3] as bv32) << 16)
            | ((mac[4] as bv32) << 8) | (mac[5] as bv32) == lo
  {
    [((hi >> 8) & 0xff) as bv8, (hi & 0xff) as bv8,
     ((lo >> 24) & 0xff) as bv8, ((lo >> 16) & 0xff) as bv8,
     ((lo >> 8) & 0xff) as bv8, (lo & 0xff) as bv8]
  }

  /** The two MAC_HI bytes read only the low 16 bits of the register. */
  lemma MacHiBytes(hi: bv32, hi': bv32)
    requires hi & 0xffff == hi' & 0xffff
    ensures ((hi >> 8) & 0xff) as bv8 == ((hi' >> 8) & 0xff) as bv8
    ensures (hi & 0xff) as bv8 == (hi' & 0xff) as bv8
  {
    assert (hi >> 8) & 0xff == ((hi & 0xffff) >> 8) & 0xff;
    assert (hi' >> 8) & 0xff == ((hi' & 0xffff) >> 8) & 0xff;
    assert hi & 0xff == (hi & 0xffff) & 0xff;
    assert hi' & 0xff == (hi' & 0xffff) & 0xff;
  }

  /** The MAC address depends on exactly the low half of MAC_HI and all of MAC_LO. */
  lemma MacBytesDetermined(hi: bv32, lo: bv32, hi': bv32, lo': bv32)
    ensures MacBytes(hi, lo) == MacBytes(hi', lo') <==> (hi & 0xffff == hi' & 0xffff && lo == lo')
  {
    if hi & 0xffff == hi' & 0xffff && lo == lo' {
      MacHiBytes(hi, hi');
    } else if MacBytes(hi, lo) == MacBytes(hi', lo') {
      assert false;
    }
  }

  /** The CSBBAH and CSBBAL words written for a CSB at physical address
      `paddr`: the high and the low 32 bits, which put back together give
      the whole address. */
  function SplitPaddr(paddr: bv64): (halves: (bv32, bv32))
    ensures ((halves.0 as bv64) << 32) | (halves.1 as bv64) == paddr
  {
    (((paddr >> 32) & 0xffffffff) as bv32, (paddr & 0xffffffff) as bv32)
  }

  /** The `uint32_t` PTSTS value stored in the driver's `int ret`
      (two's complement): zero exactly when PTSTS is zero. */
  function AsCInt(u: u32): (r: int)
    ensures -0x8000_0000 <= r < 0x8000_0000
    ensures r == 0 <==> u == 0
  {
    if u < 0x8000_0000 then u else u - 0x1_0000_0000
  }

  /** AsCInt keeps the value modulo 2^32 and is one-to-one. */
  lemma AsCIntWraps(u: u32, v: u32)
    ensures AsCInt(u) % 0x1_0000_0000 == u
    ensures AsCInt(u) == AsCInt(v) ==> u == v
  {
    if u >= 0x8000_0000 {
      assert AsCInt(u) + 0x1_0000_0000 * 1 == u;
    }
  }

  /** The feature check of ptnet_attach on the acknowledged PTFEAT value. */
  function FeatureStatus(acked: bv32): (err: int)
    ensures err == 0 <==> acked & FEATURES_BASE != 0
    ensures err == 0 || err == ENXIO
  {
    if acked & FEATURES_BASE == 0 then ENXIO else 0
  }
}
