/*
 * The ptnet guest driver's state (`struct ptnet_softc`) and the netmap
 * adapters it drives, with the operations of if_ptnet.c that change them.
 * Register writes, CSB pulls and the netmap native-flag calls are recorded
 * in a ghost trace, in order.
 */
module Ptnet {
  import opened PtnetTypes
  import opened PtnetProtocol
  import opened PtnetSync
  import opened PtnetIrq
  import opened PtnetAttach

  /** What the device and netmap see the driver do. */
  class Trace {
    ghost var events: seq<Event>

    constructor ()
      ensures events == []
    {
      events := [];
    }
  }

  /** The fields of a `struct netmap_adapter` this driver uses. */
  class Adapter {
    var numTxRings: nat
    var numRxRings: nat
    var txRings: array?<Kring>
    var rxRings: array?<Kring>
    var csb: array?<CsbRing>
    /** Open file descriptors in netmap mode, kept by the netmap core. */
    var activeFds: nat

    /** An adapter with the given ring counts and no krings yet. */
    constructor (ntx: nat, nrx: nat, csb: array?<CsbRing>)
      ensures Blank(ntx, nrx, csb)
    {
      numTxRings, numRxRings := ntx, nrx;
      txRings, rxRings := null, null;
      this.csb := csb;
      activeFds := 0;
    }

    /** `memset(adapter, 0, ...)`. */
    method Clear()
      modifies this
      ensures Blank(0, 0, null)
    {
      numTxRings, numRxRings := 0, 0;
      txRings, rxRings := null, null;
      csb := null;
      activeFds := 0;
    }

    /** The given ring counts and CSB, no krings and no client. */
    ghost predicate Blank(ntx: nat, nrx: nat, csb: array?<CsbRing>)
      reads this
    {
      && numTxRings == ntx && numRxRings == nrx
      && txRings == null && rxRings == null && this.csb == csb && activeFds == 0
    }

    /** Both kring arrays exist, are distinct and have one kring per ring. */
    ghost predicate HasRings()
      reads this
    {
      && txRings != null && rxRings != null && txRings != rxRings
      && txRings.Length == numTxRings && rxRings.Length == numRxRings
    }
  }

  class Softc {
    var iomem: bool                 // the I/O BAR is mapped
    var msixMem: bool               // the MSI-X BAR is mapped
    var ifp: bool                   // the ifnet is allocated and attached
    var lockInit: bool              // the core lock has been initialised
    var ptfeatures: bv32
    var hwaddr: seq<bv8>
    var backendRegifs: int
    var numRings: u32
    var queues: array?<Queue>
    /** `sc->rxqueues` as an offset into `queues`. */
    var rxqueues: nat
    var csb: array?<CsbRing>
    var ptnaNm: Adapter?
    /** The adapter private to the driver (`sc->ptna_dr`). */
    const ptnaDr: Adapter
    const trace: Trace

    /** ptnet_irqs_fini was entered with no queue array but a non-zero
        ring count: the unguarded loop would read through a NULL pointer. */
    ghost var finiSawNullQueues: bool
    /** PTNET_CORE_LOCK_FINI was reached on a lock never initialised. */
    ghost var lockFiniUninit: bool

    /** The zero-filled softc the bus hands to ptnet_attach. */
    ghost predicate Zeroed()
      reads this, ptnaDr
    {
      && !iomem && !msixMem && !ifp && !lockInit
      && ptfeatures == 0 && backendRegifs == 0 && numRings == 0
      && queues == null && rxqueues == 0 && csb == null && ptnaNm == null
      && ptnaDr.Blank(0, 0, null)
      && !finiSawNullQueues && !lockFiniUninit
    }

    constructor ()
      ensures Zeroed() && trace.events == [] && fresh(ptnaDr) && fresh(trace)
    {
      iomem, msixMem, ifp, lockInit := false, false, false, false;
      ptfeatures := 0;
      hwaddr := [];
      backendRegifs := 0;
      numRings := 0;
      queues := null;
      rxqueues := 0;
      csb := null;
      ptnaNm := null;
      ptnaDr := new Adapter(0, 0, null);
      trace := new Trace();
      finiSawNullQueues, lockFiniUninit := false, false;
    }

    /** The queue array is allocated, one record per ring, and holds the
        table the attach loop builds (`rxqueues` is the TX ring count). */
    ghost predicate QueuesReady()
      reads this, queues
    {
      queues != null && queues.Length == numRings && QueueTable(queues[..], rxqueues)
    }

    /** `na` can be registered and synced: its krings exist, its ring
        counts are the device's, and every queue's CSB record exists. */
    ghost predicate ReadyFor(na: Adapter)
      reads this, queues, na
    {
      && QueuesReady() && csb != null && numRings <= csb.Length
      && na.HasRings()
      && rxqueues == na.numTxRings && numRings == na.numTxRings + na.numRxRings
    }

    /** csb_notification_enable_all: flag f of the CSB record of every
        ring of direction t of `na` set to v. */
    method EnableAll(na: Adapter, t: Dir, f: Flag, v: bool)
      requires ReadyFor(na)
      modifies csb
      ensures csb[..] == if t == Tx then FlagRange(old(csb[..]), 0, na.numTxRings, f, v)
                         else FlagRange(old(csb[..]), rxqueues, rxqueues + na.numRxRings, f, v)
    {
      var base := if t == Tx then 0 else rxqueues;
      var n := if t == Tx then na.numTxRings else na.numRxRings;
      var i := 0;
      while i < n
        invariant 0 <= i <= n
        invariant csb[..] == FlagRange(old(csb[..]), base, base + i, f, v)
      {
        assert QueueEntryOk(queues[..][base + i], base + i, rxqueues);
        var j := queues[base + i].ptring;
        csb[j] := SetFlag(csb[j], f, v);
        i := i + 1;
      }
    }

    /** ptnet_sync_from_csb: every kring of `na` takes the cursors of its
        ring's CSB record (TX ring i: record i; RX ring k: record ntx + k). */
    method SyncFromCsb(na: Adapter)
      requires ReadyFor(na)
      modifies na.txRings, na.rxRings, trace
      ensures na.txRings[..] == PullAll(old(na.txRings[..]), csb[..], 0)
      ensures na.rxRings[..] == PullAll(old(na.rxRings[..]), csb[..], na.numTxRings)
      ensures trace.events == old(trace.events) + [PullFromCsb]
    {
      var tx, rx := na.txRings, na.rxRings;
      var ntx := na.numTxRings;
      var i: nat := 0;
      while i < numRings
        invariant i <= numRings
        invariant forall k :: 0 <= k < tx.Length ==>
          tx[k] == if k < i then Pull(old(tx[k]), csb[k]) else old(tx[k])
        invariant forall k :: 0 <= k < rx.Length ==>
          rx[k] == if ntx + k < i then Pull(old(rx[k]), csb[ntx + k]) else old(rx[k])
        invariant trace.events == old(trace.events)
      {
        assert QueueEntryOk(queues[..][i], i, rxqueues);
        var j := queues[i].ptring;
        if i < ntx {
          tx[i] := Pull(tx[i], csb[j]);
        } else {
          rx[i - ntx] := Pull(rx[i - ntx], csb[j]);
        }
        i := i + 1;
      }
      trace.events := trace.events + [PullFromCsb];
    }

    /** The nr_mode loops of ptnet_nm_register, TX krings then RX krings. */
    method SetKringModes(na: Adapter, on: bool)
      requires na.HasRings()
      modifies na.txRings, na.rxRings
      ensures na.txRings[..] == StepAll(old(na.txRings[..]), on)
      ensures na.rxRings[..] == StepAll(old(na.rxRings[..]), on)
    {
      var tx, rx := na.txRings, na.rxRings;
      var i := 0;
      while i < tx.Length
        invariant 0 <= i <= tx.Length
        invariant forall k :: 0 <= k < tx.Length ==>
          tx[k] == if k < i then ModeStep(old(tx[k]), on) else old(tx[k])
        invariant rx[..] == old(rx[..])
      {
        tx[i] := ModeStep(tx[i], on);
        i := i + 1;
      }
      i := 0;
      while i < rx.Length
        invariant 0 <= i <= rx.Length
        invariant forall k :: 0 <= k < rx.Length ==>
          rx[k] == if k < i then ModeStep(old(rx[k]), on) else old(rx[k])
        invariant tx[..] == StepAll(old(tx[..]), on)
      {
        rx[i] := ModeStep(rx[i], on);
        i := i + 1;
      }
    }

    /** ptnet_nm_ptctl: write the command to PTCTL and return what the
        host leaves in PTSTS (`sts`). */
    method NmPtctl(cmd: Ptctl, sts: u32) returns (r: u32)
      modifies trace
      ensures r == sts
      ensures trace.events == old(trace.events) + [WritePtctl(cmd)]
    {
      trace.events := trace.events + [WritePtctl(cmd)];
      r := sts;
    }

    /** ptnet_nm_register(na, onoff), with `sts` the host's answer to the
        PTCTL command if one is issued. The counter, the return value and
        the trace follow RegisterSpec; the CSB follows RegisterCsb; the
        krings of `na` follow RegisterKrings. */
    method Register(na: Adapter, onoff: bool, sts: u32) returns (ret: int)
      requires ReadyFor(na)
      modifies this, csb, na.txRings, na.rxRings, trace
      ensures Kept() && ReadyFor(na)
      ensures var o := RegisterSpec(old(backendRegifs), onoff, na == ptnaNm, na.activeFds, sts);
        backendRegifs == o.regifs && ret == o.ret && trace.events == old(trace.events) + o.events
      ensures csb[..] == RegisterCsb(old(csb[..]), old(backendRegifs), onoff, na == ptnaNm,
                                     na.activeFds, na.numTxRings, na.numRxRings)
      ensures var pull := PullOccurs(old(backendRegifs), onoff, na == ptnaNm, na.activeFds, sts);
              var step := na == ptnaNm && !(onoff && old(backendRegifs) == 0 && sts != 0);
        && na.txRings[..] == RegisterKrings(old(na.txRings[..]), csb[..], 0, pull, step, onoff)
        && na.rxRings[..] == RegisterKrings(old(na.rxRings[..]), csb[..], na.numTxRings, pull, step, onoff)
    {
      if onoff {
        ret := RegisterOn(na, sts);
      } else {
        ret := RegisterOff(na, sts);
      }
    }

    /** The `onoff` half of ptnet_nm_register. */
    method RegisterOn(na: Adapter, sts: u32) returns (ret: int)
      requires ReadyFor(na)
      modifies this, csb, na.txRings, na.rxRings, trace
      ensures Kept() && ReadyFor(na)
      ensures var o := RegisterSpec(old(backendRegifs), true, na == ptnaNm, na.activeFds, sts);
        backendRegifs == o.regifs && ret == o.ret && trace.events == old(trace.events) + o.events
      ensures csb[..] == RegisterCsb(old(csb[..]), old(backendRegifs), true, na == ptnaNm,
                                     na.activeFds, na.numTxRings, na.numRxRings)
      ensures var pull := PullOccurs(old(backendRegifs), true, na == ptnaNm, na.activeFds, sts);
              var step := na == ptnaNm && !(old(backendRegifs) == 0 && sts != 0);
        && na.txRings[..] == RegisterKrings(old(na.txRings[..]), csb[..], 0, pull, step, true)
        && na.rxRings[..] == RegisterKrings(old(na.rxRings[..]), csb[..], na.numTxRings, pull, step, true)
    {
      var native := na == ptnaNm;
      ghost var c, fds, ntx, nrx := backendRegifs, na.activeFds, na.numTxRings, na.numRxRings;
      ghost var e0, tx0, rx0 := trace.events, na.txRings[..], na.rxRings[..];
      ghost var pull := PullOccurs(c, true, native, fds, sts);
      ret := 0;
      if backendRegifs == 0 {
        InitNotifications(na);
        var r := NmPtctl(Regif, sts);
        ret := AsCInt(r);
        if ret != 0 {
          assert na.txRings[..] == RegisterKrings(tx0, csb[..], 0, false, false, true);
          assert na.rxRings[..] == RegisterKrings(rx0, csb[..], ntx, false, false, true);
          return;
        }
      }
      assert trace.events == e0 + (if c == 0 then [WritePtctl(Regif)] else []);
      assert csb[..] == RegisterCsb(old(csb[..]), c, true, native, fds, ntx, nrx);
      var sync := (!native && backendRegifs == 0) || (native && na.activeFds == 0);
      assert sync == pull;
      SyncAndSetModes(na, sync);
      backendRegifs := backendRegifs + 1;
    }

    /** The tail of a successful register: the krings pull the CSB when
        `sync` holds, and a native register then completes the krings'
        pending mode switches and sets the native flags. */
    method SyncAndSetModes(na: Adapter, sync: bool)
      requires ReadyFor(na)
      modifies na.txRings, na.rxRings, trace
      ensures var native := na == ptnaNm;
        && na.txRings[..] == RegisterKrings(old(na.txRings[..]), csb[..], 0, sync, native, true)
        && na.rxRings[..] == RegisterKrings(old(na.rxRings[..]), csb[..], na.numTxRings, sync, native, true)
        && trace.events == old(trace.events) + (if sync then [PullFromCsb] else [])
                           + (if native then [SetNativeFlags] else [])
    {
      ghost var tx0, rx0, e0 := na.txRings[..], na.rxRings[..], trace.events;
      if sync {
        SyncFromCsb(na);
      }
      assert na.txRings[..] == (if sync then PullAll(tx0, csb[..], 0) else tx0);
      assert na.rxRings[..] == (if sync then PullAll(rx0, csb[..], na.numTxRings) else rx0);
      if na == ptnaNm {
        SetKringModes(na, true);
        trace.events := trace.events + [SetNativeFlags];
      }
    }

    /** The notification flags a register from counter 0 sets before
        REGIF: the host is asked to kick on every ring; guest kicks are
        suppressed on TX rings and enabled on RX rings. */
    method InitNotifications(na: Adapter)
      requires ReadyFor(na)
      modifies csb
      ensures csb[..] == RegisterCsb(old(csb[..]), 0, true, na == ptnaNm, na.activeFds,
                                     na.numTxRings, na.numRxRings)
    {
      EnableAll(na, Tx, HostNeedKick, true);
      EnableAll(na, Tx, GuestNeedKick, false);
      EnableAll(na, Rx, HostNeedKick, true);
      EnableAll(na, Rx, GuestNeedKick, true);
    }

    /** The `!onoff` half of ptnet_nm_register. */
    method RegisterOff(na: Adapter, sts: u32) returns (ret: int)
      requires ReadyFor(na)
      modifies this, csb, na.txRings, na.rxRings, trace
      ensures Kept() && ReadyFor(na)
      ensures var o := RegisterSpec(old(backendRegifs), false, na == ptnaNm, na.activeFds, sts);
        backendRegifs == o.regifs && ret == o.ret && trace.events == old(trace.events) + o.events
      ensures csb[..] == RegisterCsb(old(csb[..]), old(backendRegifs), false, na == ptnaNm,
                                     na.activeFds, na.numTxRings, na.numRxRings)
      ensures var pull := PullOccurs(old(backendRegifs), false, na == ptnaNm, na.activeFds, sts);
        && na.txRings[..] == RegisterKrings(old(na.txRings[..]), csb[..], 0, pull, na == ptnaNm, false)
        && na.rxRings[..] == RegisterKrings(old(na.rxRings[..]), csb[..], na.numTxRings, pull, na == ptnaNm, false)
    {
      var native := na == ptnaNm;
      ghost var c, fds, ntx, nrx := backendRegifs, na.activeFds, na.numTxRings, na.numRxRings;
      ghost var e0, tx0, rx0, cs0 := trace.events, na.txRings[..], na.rxRings[..], csb[..];
      ghost var pull := PullOccurs(c, false, native, fds, sts);
      ret := 0;
      backendRegifs := backendRegifs - 1;
      if native && na.activeFds == 0 {
        ReenableGuestKicks(na);
      }
      ghost var rings := csb[..];
      assert rings == RegisterCsb(cs0, c, false, native, fds, ntx, nrx);
      if native {
        trace.events := trace.events + [ClearNativeFlags];
        SetKringModes(na, false);
      }
      assert na.txRings[..] == (if native then StepAll(tx0, false) else tx0);
      assert na.rxRings[..] == (if native then StepAll(rx0, false) else rx0);
      ghost var e1 := trace.events;
      assert e1 == e0 + (if native then [ClearNativeFlags] else []);
      if native && na.activeFds == 0 {
        SyncFromCsb(na);
      }
      assert na.txRings[..] == RegisterKrings(tx0, rings, 0, pull, native, false);
      assert na.rxRings[..] == RegisterKrings(rx0, rings, ntx, pull, native, false);
      ghost var e2 := trace.events;
      assert e2 == e1 + (if pull then [PullFromCsb] else []);
      if backendRegifs == 0 {
        var r := NmPtctl(Unregif, sts);
        ret := AsCInt(r);
      }
      assert trace.events == e2 + (if c - 1 == 0 then [WritePtctl(Unregif)] else []);
    }

    /** The notification flags the last native unregister restores: guest
        kicks enabled on every ring. */
    method ReenableGuestKicks(na: Adapter)
      requires ReadyFor(na)
      modifies csb
      ensures csb[..] == FlagRange(FlagRange(old(csb[..]), 0, na.numTxRings, GuestNeedKick, true),
                                   na.numTxRings, na.numTxRings + na.numRxRings, GuestNeedKick, true)
    {
      EnableAll(na, Tx, GuestNeedKick, true);
      EnableAll(na, Rx, GuestNeedKick, true);
    }

    /** ptnet_nm_txsync for TX kring `ringId`; `notify` is what
        netmap_pt_guest_txsync answers. The host is kicked through the
        kick register of queue `ringId`, and only when asked to. */
    method NmTxsync(ringId: nat, notify: bool) returns (ret: int)
      requires QueuesReady() && ringId < rxqueues && ringId < numRings
      modifies trace
      ensures ret == 0
      ensures trace.events == old(trace.events)
                + (if notify then [WriteKick(KICK_BASE + 4 * ringId, 0)] else [])
    {
      assert QueueEntryOk(queues[..][ringId], ringId, rxqueues);
      var pq := queues[ringId];
      if notify {
        trace.events := trace.events + [WriteKick(pq.kick, 0)];
      }
      ret := 0;
    }

    /** ptnet_nm_rxsync for RX kring `ringId`: the queue used is
        `rxqueues + ringId`, so the kick goes to the register after the
        last TX ring's. */
    method NmRxsync(ringId: nat, notify: bool) returns (ret: int)
      requires QueuesReady() && rxqueues + ringId < numRings
      modifies trace
      ensures ret == 0
      ensures trace.events == old(trace.events)
                + (if notify then [WriteKick(KICK_BASE + 4 * (rxqueues + ringId), 0)] else [])
    {
      assert QueueEntryOk(queues[..][rxqueues + ringId], rxqueues + ringId, rxqueues);
      var pq := queues[rxqueues + ringId];
      if notify {
        trace.events := trace.events + [WriteKick(pq.kick, 0)];
      }
      ret := 0;
    }

    /** ptnet_nm_krings_create; `hwRet` is what netmap_hw_krings_create
        returns. While a client is registered nothing happens; otherwise
        the public adapter gets fresh krings and the driver's private
        adapter shares them. */
    method NmKringsCreate(hwRet: int) returns (ret: int)
      requires ptnaNm != null && ptnaNm != ptnaDr
      modifies ptnaNm, ptnaDr
      ensures ret == (if backendRegifs != 0 then 0 else hwRet)
      ensures backendRegifs != 0 || hwRet != 0 ==> unchanged(ptnaNm, ptnaDr)
      ensures backendRegifs == 0 && hwRet == 0 ==>
        && fresh(ptnaNm.txRings) && fresh(ptnaNm.rxRings) && ptnaNm.HasRings()
        && (forall k :: 0 <= k < ptnaNm.txRings.Length ==> ptnaNm.txRings[k] == ZeroKring)
        && (forall k :: 0 <= k < ptnaNm.rxRings.Length ==> ptnaNm.rxRings[k] == ZeroKring)
        && ptnaDr.txRings == ptnaNm.txRings && ptnaDr.rxRings == ptnaNm.rxRings
      ensures ptnaNm.numTxRings == old(ptnaNm.numTxRings) && ptnaNm.numRxRings == old(ptnaNm.numRxRings)
      ensures ptnaNm.csb == old(ptnaNm.csb) && ptnaNm.activeFds == old(ptnaNm.activeFds)
      ensures ptnaDr.numTxRings == old(ptnaDr.numTxRings) && ptnaDr.numRxRings == old(ptnaDr.numRxRings)
      ensures ptnaDr.csb == old(ptnaDr.csb) && ptnaDr.activeFds == old(ptnaDr.activeFds)
    {
      if backendRegifs != 0 {
        return 0;
      }
      if hwRet != 0 {
        return hwRet;
      }
      ptnaNm.txRings := new Kring[ptnaNm.numTxRings](_ => ZeroKring);
      ptnaNm.rxRings := new Kring[ptnaNm.numRxRings](_ => ZeroKring);
      ptnaDr.txRings := ptnaNm.txRings;
      ptnaDr.rxRings := ptnaNm.rxRings;
      ret := 0;
    }

    /** ptnet_nm_krings_delete: while a client is registered nothing
        happens; otherwise both adapters lose their krings. */
    method NmKringsDelete()
      requires ptnaNm != null && ptnaNm != ptnaDr
      modifies ptnaNm, ptnaDr
      ensures backendRegifs != 0 ==> unchanged(ptnaNm, ptnaDr)
      ensures backendRegifs == 0 ==>
        && ptnaNm.txRings == null && ptnaNm.rxRings == null
        && ptnaDr.txRings == null && ptnaDr.rxRings == null
      ensures ptnaNm.numTxRings == old(ptnaNm.numTxRings) && ptnaNm.numRxRings == old(ptnaNm.numRxRings)
      ensures ptnaNm.csb == old(ptnaNm.csb) && ptnaNm.activeFds == old(ptnaNm.activeFds)
      ensures ptnaDr.numTxRings == old(ptnaDr.numTxRings) && ptnaDr.numRxRings == old(ptnaDr.numRxRings)
      ensures ptnaDr.csb == old(ptnaDr.csb) && ptnaDr.activeFds == old(ptnaDr.activeFds)
    {
      if backendRegifs != 0 {
        return;
      }
      ptnaDr.txRings, ptnaDr.rxRings := null, null;
      ptnaNm.txRings, ptnaNm.rxRings := null, null;
    }

    /** The queue loop of ptnet_attach over a zero-filled queue array:
        queue i gets kick register i, CSB record i, and kring i of its
        direction. */
    method InitQueues(ntx: nat)
      requires queues != null && queues.Length == numRings
      modifies queues
      ensures QueueTable(queues[..], ntx)
      ensures forall i :: 0 <= i < queues.Length ==>
        queues[i].irq == old(queues[i].irq) && queues[i].handler == old(queues[i].handler)
    {
      var i: nat := 0;
      while i < numRings
        invariant i <= numRings
        invariant forall k :: 0 <= k < i ==> QueueEntryOk(queues[k], k, ntx)
        invariant forall k :: 0 <= k < queues.Length ==>
          queues[k].irq == old(queues[k].irq) && queues[k].handler == old(queues[k].handler)
      {
        var pq := queues[i].(kringId := i, kick := KICK_BASE + 4 * i, ptring := i);
        if i >= ntx {
          pq := pq.(kringId := pq.kringId - ntx);
        }
        queues[i] := pq;
        i := i + 1;
      }
    }

    /** ptnet_irqs_fini, with its queue loop guarded by `queues != null`:
        tell the host with IRQFINI, release every queue's interrupt and the
        MSI-X BAR. */
    method IrqsFini()
      requires queues != null ==> queues.Length == numRings
      modifies this, queues, trace
      ensures queues == old(queues) && rxqueues == old(rxqueues) && csb == old(csb)
      ensures trace.events == old(trace.events) + [WriteCtrl(IrqFini)]
      ensures !msixMem
      ensures finiSawNullQueues == (old(finiSawNullQueues) || (queues == null && numRings > 0))
      ensures queues != null ==> forall k :: 0 <= k < queues.Length ==>
        queues[k] == old(queues[k]).(irq := false, handler := None)
      ensures iomem == old(iomem) && ifp == old(ifp) && lockInit == old(lockInit)
      ensures ptfeatures == old(ptfeatures) && hwaddr == old(hwaddr)
      ensures backendRegifs == old(backendRegifs) && numRings == old(numRings)
      ensures ptnaNm == old(ptnaNm) && lockFiniUninit == old(lockFiniUninit)
    {
      trace.events := trace.events + [WriteCtrl(IrqFini)];
      finiSawNullQueues := finiSawNullQueues || (queues == null && numRings > 0);
      if queues != null {
        var i: nat := 0;
        while i < numRings
          invariant i <= numRings
          invariant forall k :: 0 <= k < queues.Length ==>
            queues[k] == if k < i then old(queues[k]).(irq := false, handler := None) else old(queues[k])
          modifies queues
        {
          if queues[i].handler.Some? {
            queues[i] := queues[i].(handler := None);
          }
          if queues[i].irq {
            queues[i] := queues[i].(irq := false);
          }
          i := i + 1;
        }
      }
      msixMem := false;
    }

    /** ptnet_irqs_init for a device with `ntx` TX rings, the first
        failing bus call being `f`. On success every queue has its
        interrupt and the handler of its direction, and the host is told
        with IRQINIT; on failure after the BAR was mapped, ptnet_irqs_fini
        undoes everything. A failed IRQ allocation returns ENOSPC. */
    method IrqsInit(f: IrqFault, ntx: nat) returns (err: int)
      requires queues != null && queues.Length == numRings
      modifies this, queues, trace
      ensures queues == old(queues) && rxqueues == old(rxqueues) && csb == old(csb)
      ensures err == IrqsInitStatus(f, numRings)
      ensures trace.events == old(trace.events) + IrqInitEvents(f, numRings)
      ensures err == 0 ==> msixMem && forall k :: 0 <= k < queues.Length ==>
        queues[k] == old(queues[k]).(irq := true, handler := Some(Handler(k, ntx)))
      ensures err != 0 && f != BarFault ==> !msixMem && forall k :: 0 <= k < queues.Length ==>
        queues[k] == old(queues[k]).(irq := false, handler := None)
      ensures f == BarFault ==> msixMem == old(msixMem) && queues[..] == old(queues[..])
      ensures iomem == old(iomem) && ifp == old(ifp) && lockInit == old(lockInit)
      ensures ptfeatures == old(ptfeatures) && hwaddr == old(hwaddr)
      ensures backendRegifs == old(backendRegifs) && numRings == old(numRings)
      ensures ptnaNm == old(ptnaNm)
      ensures finiSawNullQueues == old(finiSawNullQueues) && lockFiniUninit == old(lockFiniUninit)
    {
      if f == BarFault {
        return ENXIO;
      }
      msixMem := true;
      if f == FewVectors {
        err := ENOSPC;
        IrqsFini();
        return;
      }
      if f.MsixFault? && f.err != 0 {
        err := f.err;
        IrqsFini();
        return;
      }
      var i: nat := 0;
      while i < numRings
        invariant i <= numRings && msixMem
        invariant !(f.IrqAllocFault? && f.q < i) && !(f.SetupFault? && f.q < i && f.err != 0)
        invariant trace.events == old(trace.events)
        invariant iomem == old(iomem) && ifp == old(ifp) && lockInit == old(lockInit)
        invariant ptfeatures == old(ptfeatures) && hwaddr == old(hwaddr)
        invariant backendRegifs == old(backendRegifs) && numRings == old(numRings)
        invariant queues == old(queues) && rxqueues == old(rxqueues) && csb == old(csb)
        invariant ptnaNm == old(ptnaNm)
        invariant finiSawNullQueues == old(finiSawNullQueues) && lockFiniUninit == old(lockFiniUninit)
        invariant forall k :: 0 <= k < queues.Length ==>
          queues[k] == if k < i then old(queues[k]).(irq := true, handler := Some(Handler(k, ntx)))
                       else old(queues[k])
      {
        var handler := Handler(i, ntx);
        if f == IrqAllocFault(i) {
          err := ENOSPC;
          IrqsFini();
          return;
        }
        queues[i] := queues[i].(irq := true);
        if f.SetupFault? && f.q == i && f.err != 0 {
          err := f.err;
          IrqsFini();
          return;
        }
        queues[i] := queues[i].(handler := Some(handler));
        i := i + 1;
      }
      trace.events := trace.events + [WriteCtrl(IrqInit)];
      err := 0;
    }

    /** PTNET_CORE_LOCK_FINI, destroying the lock only if it was
        initialised. */
    method LockFini()
      modifies this
      ensures !lockInit
      ensures lockFiniUninit == (old(lockFiniUninit) || !old(lockInit))
      ensures iomem == old(iomem) && msixMem == old(msixMem) && ifp == old(ifp)
      ensures ptfeatures == old(ptfeatures) && hwaddr == old(hwaddr)
      ensures backendRegifs == old(backendRegifs) && numRings == old(numRings)
      ensures queues == old(queues) && rxqueues == old(rxqueues) && csb == old(csb)
      ensures ptnaNm == old(ptnaNm) && finiSawNullQueues == old(finiSawNullQueues)
    {
      lockFiniUninit := lockFiniUninit || !lockInit;
      if lockInit {
        lockInit := false;
      }
    }

    /** ptnet_detach: detach the interface and the netmap adapters, free
        the interrupts, clear the CSB address the host holds and free the
        CSB, free the queues, unmap the I/O BAR and destroy the lock. */
    method Detach() returns (ret: int)
      requires iomem
      requires queues != null ==> queues.Length == numRings
      modifies this, queues, trace, ptnaDr
      ensures ret == 0
      ensures trace.events == old(trace.events) + [WriteCtrl(IrqFini)]
                + (if old(csb) != null then [WriteCsbBah(0), WriteCsbBal(0)] else [])
      ensures !iomem && !msixMem && !ifp && !lockInit
      ensures csb == null && queues == null
      ensures old(ifp) ==> ptnaNm == null
      ensures old(ifp) ==> ptnaDr.Blank(0, 0, null)
      ensures !old(ifp) ==> ptnaNm == old(ptnaNm) && unchanged(ptnaDr)
      ensures finiSawNullQueues == (old(finiSawNullQueues) || (old(queues) == null && numRings > 0))
      ensures lockFiniUninit == (old(lockFiniUninit) || !old(lockInit))
      ensures ptfeatures == old(ptfeatures) && hwaddr == old(hwaddr)
      ensures backendRegifs == old(backendRegifs) && numRings == old(numRings) && rxqueues == old(rxqueues)
    {
      if ifp {
        ptnaDr.Clear();
        ptnaNm := null;
        ifp := false;
      }
      IrqsFini();
      if csb != null {
        trace.events := trace.events + [WriteCsbBah(0), WriteCsbBal(0)];
        csb := null;
      }
      if queues != null {
        queues := null;
      }
      if iomem {
        iomem := false;
      }
      LockFini();
      ret := 0;
    }

    /** ptnet_attach on a zero-filled softc. The arguments stand for what
        the bus, the allocator and the device answer: whether the I/O BAR
        maps, the PTFEAT value the host acknowledges, whether the CSB can
        be allocated and its physical address, the TX and RX ring counts,
        whether the queue array can be allocated, the first failing call
        of the interrupt set-up, whether the ifnet can be allocated, and
        the MAC_HI and MAC_LO registers. */
    method Attach(barOk: bool, acked: bv32, csbOk: bool, paddr: bv64, ntx: u32, nrx: u32,
                  queuesOk: bool, irq: IrqFault, ifpOk: bool, macHi: bv32, macLo: bv32)
      returns (err: int)
      requires Zeroed()
      modifies this, trace, ptnaDr
      ensures var n := (ntx + nrx) % 0x1_0000_0000;
        && err == AttachStatus(barOk, acked, csbOk, queuesOk, irq, n, ifpOk)
        && trace.events == old(trace.events) + AttachEvents(barOk, acked, csbOk, paddr, queuesOk, irq, n, ifpOk)
        && (finiSawNullQueues <==> CsbInstalled(barOk, acked, csbOk) && !queuesOk && n > 0)
      ensures lockFiniUninit <==> barOk && err != 0
      ensures err != 0 ==>
        && !iomem && !msixMem && !ifp && !lockInit
        && csb == null && queues == null && ptnaNm == null
      ensures err == 0 ==>
        && iomem && msixMem && ifp && lockInit
        && ptfeatures == acked && hwaddr == MacBytes(macHi, macLo) && backendRegifs == 0
        && csb != null && fresh(csb) && csb.Length == CSB_MAX_RINGS
        && (forall k :: 0 <= k < csb.Length ==> csb[k] == ZeroRing)
        && numRings == (ntx + nrx) % 0x1_0000_0000 && rxqueues == ntx
        && QueuesReady() && fresh(queues)
        && (forall i :: 0 <= i < queues.Length ==> queues[i].irq && queues[i].handler == Some(Handler(i, ntx)))
        && ptnaNm != null && fresh(ptnaNm) && ptnaNm.Blank(ntx, nrx, csb)
        && ptnaDr.Blank(0, 0, csb)
    {
      err := AttachSteps(barOk, acked, csbOk, paddr, ntx, nrx, queuesOk, irq, ifpOk);
      if err != 0 {
        if barOk {
          var _ := Detach();
        }
        return;
      }
      SetupInterface(ntx, nrx, macHi, macLo);
    }

    /** ptnet_attach up to the point where it either fails (and runs
        ptnet_detach) or sets up the interface. */
    method AttachSteps(barOk: bool, acked: bv32, csbOk: bool, paddr: bv64, ntx: u32, nrx: u32,
                       queuesOk: bool, irq: IrqFault, ifpOk: bool)
      returns (err: int)
      requires Zeroed()
      modifies this, trace
      ensures var n := (ntx + nrx) % 0x1_0000_0000;
        && err == AttachStatus(barOk, acked, csbOk, queuesOk, irq, n, ifpOk)
        && trace.events == old(trace.events) + AttachSetupEvents(barOk, acked, csbOk, paddr, queuesOk, irq, n)
        && numRings == (if CsbInstalled(barOk, acked, csbOk) then n else 0)
      ensures iomem == barOk && !ifp && !lockInit && ptnaNm == null && backendRegifs == 0
      ensures !finiSawNullQueues && !lockFiniUninit
      ensures !barOk ==> Zeroed()
      ensures (csb != null <==> CsbInstalled(barOk, acked, csbOk))
      ensures csb != null ==>
        && fresh(csb) && csb.Length == CSB_MAX_RINGS
        && forall k :: 0 <= k < csb.Length ==> csb[k] == ZeroRing
      ensures (queues != null <==> CsbInstalled(barOk, acked, csbOk) && queuesOk)
      ensures queues != null ==> fresh(queues) && queues.Length == numRings
      ensures err == 0 ==>
        && msixMem && ptfeatures == acked && rxqueues == ntx && QueuesReady()
        && (forall i :: 0 <= i < queues.Length ==> queues[i].irq && queues[i].handler == Some(Handler(i, ntx)))
    {
      if !barOk {
        return ENXIO;
      }
      iomem := true;
      trace.events := trace.events + [WriteFeat(FEATURES_BASE)];
      var features := acked;
      if features & FEATURES_BASE == 0 {
        err := ENXIO;
      } else {
        ptfeatures := features;
        if !csbOk {
          err := ENOMEM;
        } else {
          err := InstallCsb(paddr, ntx, nrx, queuesOk, irq, ifpOk);
        }
      }
    }

    /** The part of ptnet_attach from the CSB allocation on: the CSB, its
        address handed to the host as CSBBAH then CSBBAL, the queues and
        their interrupts, and the ifnet allocation. */
    method InstallCsb(paddr: bv64, ntx: u32, nrx: u32, queuesOk: bool, irq: IrqFault, ifpOk: bool)
      returns (err: int)
      requires queues == null && !msixMem
      modifies this, trace
      ensures var n := (ntx + nrx) % 0x1_0000_0000;
              var h := SplitPaddr(paddr);
        && numRings == n
        && err == AttachStatus(true, FEATURES_BASE, true, queuesOk, irq, n, ifpOk)
        && trace.events == old(trace.events) + [WriteCsbBah(h.0), WriteCsbBal(h.1)]
                           + (if queuesOk then IrqInitEvents(irq, n) else [])
      ensures csb != null && fresh(csb) && csb.Length == CSB_MAX_RINGS
      ensures forall k :: 0 <= k < csb.Length ==> csb[k] == ZeroRing
      ensures (queues != null <==> queuesOk)
      ensures queues != null ==> fresh(queues) && queues.Length == numRings
      ensures err == 0 ==>
        && msixMem && rxqueues == ntx && QueuesReady()
        && (forall i :: 0 <= i < queues.Length ==> queues[i].irq && queues[i].handler == Some(Handler(i, ntx)))
      ensures iomem == old(iomem) && ifp == old(ifp) && lockInit == old(lockInit)
      ensures ptfeatures == old(ptfeatures) && backendRegifs == old(backendRegifs) && ptnaNm == old(ptnaNm)
      ensures finiSawNullQueues == old(finiSawNullQueues) && lockFiniUninit == old(lockFiniUninit)
    {
      csb := new CsbRing[CSB_MAX_RINGS](_ => ZeroRing);
      var h := SplitPaddr(paddr);
      trace.events := trace.events + [WriteCsbBah(h.0), WriteCsbBal(h.1)];
      err := SetupQueues(ntx, nrx, queuesOk, irq);
      if err == 0 && !ifpOk {
        err := ENOMEM;
      }
    }

    /** The queue part of ptnet_attach: ring count, queue array, queue
        loop and ptnet_irqs_init. */
    method SetupQueues(ntx: u32, nrx: u32, queuesOk: bool, irq: IrqFault) returns (err: int)
      requires queues == null && !msixMem
      modifies this, trace
      ensures var n := (ntx + nrx) % 0x1_0000_0000;
        && numRings == n
        && err == (if !queuesOk then ENOMEM else IrqsInitStatus(irq, n))
        && trace.events == old(trace.events) + (if queuesOk then IrqInitEvents(irq, n) else [])
      ensures !queuesOk ==> queues == null
      ensures queuesOk ==> queues != null && fresh(queues) && queues.Length == numRings
      ensures err != 0 ==> !msixMem
      ensures err == 0 ==>
        && msixMem && QueuesReady() && rxqueues == ntx
        && (forall i :: 0 <= i < queues.Length ==> queues[i].irq && queues[i].handler == Some(Handler(i, ntx)))
      ensures iomem == old(iomem) && ifp == old(ifp) && lockInit == old(lockInit)
      ensures ptfeatures == old(ptfeatures) && hwaddr == old(hwaddr) && backendRegifs == old(backendRegifs)
      ensures csb == old(csb) && ptnaNm == old(ptnaNm)
      ensures finiSawNullQueues == old(finiSawNullQueues) && lockFiniUninit == old(lockFiniUninit)
    {
      numRings := (ntx + nrx) % 0x1_0000_0000;
      if !queuesOk {
        return ENOMEM;
      }
      queues := new Queue[numRings](_ => ZeroQueue);
      rxqueues := ntx;
      InitQueues(ntx);
      label Queued:
      err := IrqsInit(irq, ntx);
      if err == 0 {
        forall i | 0 <= i < queues.Length
          ensures QueueEntryOk(queues[..][i], i, rxqueues)
        {
          assert QueueEntryOk(old@Queued(queues[..])[i], i, rxqueues);
        }
      }
    }

    /** The tail of a successful ptnet_attach: the interface and its MAC
        address, the core lock, the counter and both netmap adapters. */
    method SetupInterface(ntx: u32, nrx: u32, macHi: bv32, macLo: bv32)
      modifies this, ptnaDr
      ensures ifp && lockInit && hwaddr == MacBytes(macHi, macLo) && backendRegifs == 0
      ensures ptnaNm != null && fresh(ptnaNm) && ptnaNm.Blank(ntx, nrx, csb)
      ensures ptnaDr.Blank(0, 0, csb)
      ensures iomem == old(iomem) && msixMem == old(msixMem) && ptfeatures == old(ptfeatures)
      ensures numRings == old(numRings) && queues == old(queues) && rxqueues == old(rxqueues)
      ensures csb == old(csb)
      ensures finiSawNullQueues == old(finiSawNullQueues) && lockFiniUninit == old(lockFiniUninit)
    {
      ifp := true;
      hwaddr := MacBytes(macHi, macLo);
      lockInit := true;
      backendRegifs := 0;
      ptnaNm := new Adapter(ntx, nrx, csb);
      ptnaDr.Clear();
      ptnaDr.csb := csb;
    }

    /** Every field but the registration counter is as it was. */
    twostate predicate Kept()
      reads this
    {
      && iomem == old(iomem) && msixMem == old(msixMem) && ifp == old(ifp)
      && lockInit == old(lockInit) && ptfeatures == old(ptfeatures) && hwaddr == old(hwaddr)
      && numRings == old(numRings) && queues == old(queues) && rxqueues == old(rxqueues)
      && csb == old(csb) && ptnaNm == old(ptnaNm)
      && finiSawNullQueues == old(finiSawNullQueues) && lockFiniUninit == old(lockFiniUninit)
    }
  }
}
