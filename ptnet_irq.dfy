/*
 * The interrupt set-up of ptnet_irqs_init: which handler each queue gets,
 * and what the function reports for each way the bus calls can fail. The
 * bus calls themselves are outside the model; an IrqFault names the first
 * one that fails.
 */
module PtnetIrq {
  import opened PtnetTypes

  /** The first bus call of ptnet_irqs_init that fails, if any. */
  datatype IrqFault =
    | NoFault
    | BarFault                          // the MSI-X BAR cannot be mapped
    | FewVectors                        // pci_msix_count is below one vector per ring
    | MsixFault(err: int)               // pci_alloc_msix returns err
    | IrqAllocFault(q: nat)             // no IRQ resource for queue q
    | SetupFault(q: nat, err: int)      // bus_setup_intr returns err for queue q

  /** The fault stops ptnet_irqs_init on a device with `n` rings (a zero
      error code, or a queue past the last one, is no fault). */
  predicate IrqsInitFails(f: IrqFault, n: nat)
  {
    match f
    case NoFault => false
    case BarFault => true
    case FewVectors => true
    case MsixFault(e) => e != 0
    case IrqAllocFault(q) => q < n
    case SetupFault(q, e) => q < n && e != 0
  }

  /** The handler of queue i: the TX handler for the first `ntx` queues,
      the RX handler for the rest. */
  function Handler(i: nat, ntx: nat): (h: Intr)
    ensures h == RxIntr <==> !InDir(i, Tx, ntx, i + 1)
  {
    if i >= ntx then RxIntr else TxIntr
  }

  /** The value ptnet_irqs_init returns, with the failed IRQ allocation
      reported as ENOSPC: it is zero exactly when nothing failed, ENXIO
      when the BAR is missing, and otherwise the error of the failing call. */
  function IrqsInitStatus(f: IrqFault, n: nat): (err: int)
    ensures err == 0 <==> !IrqsInitFails(f, n)
    ensures f == BarFault ==> err == ENXIO
    ensures f == FewVectors ==> err == ENOSPC
    ensures IrqsInitFails(f, n) && (f.MsixFault? || f.SetupFault?) ==> err == f.err
  {
    match f
    case NoFault => 0
    case BarFault => ENXIO
    case FewVectors => ENOSPC
    case MsixFault(e) => e
    case IrqAllocFault(q) => if q < n then ENOSPC else 0
    case SetupFault(q, e) => if q < n then e else 0
  }

  /** The CTRL writes of ptnet_irqs_init: IRQINIT on success, the IRQFINI
      of ptnet_irqs_fini on a failure after the BAR was mapped, nothing
      when the BAR is missing. */
  function IrqInitEvents(f: IrqFault, n: nat): (e: seq<Event>)
    ensures |e| <= 1
    ensures WriteCtrl(IrqInit) in e <==> !IrqsInitFails(f, n)
  {
    if f == BarFault then []
    else if IrqsInitStatus(f, n) == 0 then [WriteCtrl(IrqInit)]
    else [WriteCtrl(IrqFini)]
  }
}
