/*
 * Four places where if_ptnet.c does something its authors evidently did
 * not intend. Each has a member that models the code as written, with the
 * input that shows the discrepancy; the rest of the model uses the
 * corrected behaviour (PtnetIrq.Handler, PtnetIrq.IrqsInitStatus,
 * Ptnet.Softc.IrqsFini, Ptnet.Softc.LockFini).
 */
module PtnetFindings {
  import opened PtnetTypes
  import opened PtnetIrq
  import opened PtnetAttach
  import opened Ptnet

  /** The handler choice of ptnet_irqs_init as written: RX only past
      queue `ntx`. */
  function HandlerAsWritten(i: nat, ntx: nat): (h: Intr)
    ensures h == RxIntr <==> i > ntx
  {
    if i > ntx then RxIntr else TxIntr
  }

  /** The written comparison and the intended one disagree on exactly one
      queue, the first RX queue, which gets the TX handler. */
  lemma HandlerOffByOne(i: nat, ntx: nat)
    ensures HandlerAsWritten(i, ntx) != Handler(i, ntx) <==> i == ntx
    ensures i == ntx ==> HandlerAsWritten(i, ntx) == TxIntr && InDir(i, Rx, ntx, i + 1)
  {
  }

  /** The first RX queue of a device with one TX and one RX ring. */
  lemma FirstRxQueueGetsTxHandler()
    ensures InDir(1, Rx, 1, 2) && HandlerAsWritten(1, 1) == TxIntr && Handler(1, 1) == RxIntr
  {
  }

  /** The value ptnet_irqs_init returns as written: when no IRQ resource
      can be had for a queue, `err` still holds the 0 of the last
      successful call (pci_alloc_msix or bus_setup_intr), so the failure
      is reported as success after ptnet_irqs_fini has run. */
  function IrqsInitStatusAsWritten(f: IrqFault, n: nat): (err: int)
    ensures f.IrqAllocFault? ==> err == 0
    ensures !f.IrqAllocFault? ==> err == IrqsInitStatus(f, n)
  {
    match f
    case NoFault => 0
    case BarFault => ENXIO
    case FewVectors => ENOSPC
    case MsixFault(e) => e
    case IrqAllocFault(q) => 0
    case SetupFault(q, e) => if q < n then e else 0
  }

  /** The written status differs from the intended one exactly on a
      failed IRQ allocation, which it reports as success. */
  lemma IrqAllocFailureLost(f: IrqFault, n: nat)
    ensures IrqsInitStatusAsWritten(f, n) != IrqsInitStatus(f, n) <==> f.IrqAllocFault? && f.q < n
    ensures f.IrqAllocFault? && f.q < n ==> IrqsInitFails(f, n) && IrqsInitStatusAsWritten(f, n) == 0
  {
  }

  /** The value ptnet_attach returns with ptnet_irqs_init as written. */
  function AttachStatusAsWritten(barOk: bool, acked: bv32, csbOk: bool, queuesOk: bool,
                                 irq: IrqFault, n: nat, ifpOk: bool): (err: int)
    ensures err == 0 <==>
      barOk && acked & FEATURES_BASE != 0 && csbOk && queuesOk
      && IrqsInitStatusAsWritten(irq, n) == 0 && ifpOk
  {
    if !barOk then ENXIO
    else if FeatureStatus(acked) != 0 then FeatureStatus(acked)
    else if !csbOk then ENOMEM
    else if !queuesOk then ENOMEM
    else if IrqsInitStatusAsWritten(irq, n) != 0 then IrqsInitStatusAsWritten(irq, n)
    else if !ifpOk then ENOMEM
    else 0
  }

  /** With no IRQ resource for a queue, ptnet_attach as written succeeds
      although ptnet_irqs_fini has released every interrupt: the host saw
      IRQFINI and never IRQINIT. With the corrected ptnet_irqs_init attach
      fails with ENOSPC and undoes the CSB handshake. */
  lemma IrqLossAttaches(q: nat, n: nat, paddr: bv64)
    requires q < n
    ensures AttachStatusAsWritten(true, FEATURES_BASE, true, true, IrqAllocFault(q), n, true) == 0
    ensures var e := AttachSetupEvents(true, FEATURES_BASE, true, paddr, true, IrqAllocFault(q), n);
      && e[|e| - 1] == WriteCtrl(IrqFini) && WriteCtrl(IrqInit) !in e
    ensures AttachStatus(true, FEATURES_BASE, true, true, IrqAllocFault(q), n, true) == ENOSPC
  {
    var h := SplitPaddr(paddr);
    var e := AttachSetupEvents(true, FEATURES_BASE, true, paddr, true, IrqAllocFault(q), n);
    assert e == [WriteFeat(FEATURES_BASE), WriteCsbBah(h.0), WriteCsbBal(h.1), WriteCtrl(IrqFini)];
  }

  /** A device with one TX ring whose queue array cannot be allocated:
      ptnet_attach fails after setting the ring count, and the
      ptnet_irqs_fini of ptnet_detach is entered with no queue array and
      a non-zero ring count, so its unguarded loop reads through NULL. */
  method QueuesAllocFailure() returns (err: int, ghost sawNullQueues: bool)
    ensures err == ENOMEM && sawNullQueues
  {
    var sc := new Softc();
    err := sc.Attach(true, FEATURES_BASE, true, 0, 1, 0, false, NoFault, true, 0, 0);
    sawNullQueues := sc.finiSawNullQueues;
  }

  /** A host that does not acknowledge the base feature: ptnet_attach
      fails before PTNET_CORE_LOCK_INIT, and the ptnet_detach it runs
      reaches PTNET_CORE_LOCK_FINI on a lock never initialised. */
  method FeatureRefused() returns (err: int, ghost finiUninit: bool)
    ensures err == ENXIO && finiUninit
  {
    var sc := new Softc();
    err := sc.Attach(true, 0, true, 0, 1, 1, true, NoFault, true, 0, 0);
    finiUninit := sc.lockFiniUninit;
  }
}
