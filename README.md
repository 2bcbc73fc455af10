# ptnet guest driver control plane, in Dafny

This project models the control plane of `sys/dev/netmap/if_ptnet.c`, the
FreeBSD guest driver of the ptnet paravirtualised NIC. The guest and the
host share a Communication Status Block (CSB) with one record per ring.
Each record holds the ring cursors (`head`, `cur`, `hwcur`, `hwtail`) and
the two notification flags (`host_need_kick`, `guest_need_kick`). The
driver talks to the host through I/O registers: PTFEAT, CSBBAH/CSBBAL,
PTCTL/PTSTS, CTRL and one kick register per queue.

The state is a class. `Ptnet.Softc` is `struct ptnet_softc`:
- the I/O BAR, the MSI-X BAR, the ifnet and the lock;
- the ring count;
- the queue array, with `rxqueues` as an offset into it;
- the CSB, an array of records;
- the public netmap adapter `ptna_nm` and the private adapter `ptna_dr`;
- the `backend_regifs` counter.

`Ptnet.Adapter` holds the fields of a netmap adapter the driver uses: the
ring counts, the TX and RX kring arrays, the CSB and `active_fds`. After
`ptnet_nm_krings_create`, the private adapter shares the public one's
kring arrays.

Each register write, CSB pull and call of `nm_set_native_flags` or
`nm_clear_native_flags` is appended to a ghost trace, so ordering can be
stated. What the host answers is a parameter of each method:
- the acknowledged features;
- PTSTS;
- the ring counts;
- the MAC registers;
- the CSB address;
- the outcome of each allocation and bus call.

The modules:
- `PtnetTypes`: CSB records, krings, queues and events. It also holds the
  pure calculations: the MAC bytes, the CSB address halves, the C `int`
  view of PTSTS and the feature check.
- `PtnetProtocol`: `ptnet_nm_register` seen from the counter, the return
  value and the trace (`RegisterSpec`). It also proves the REGIF/UNREGIF
  protocol over any sequence of calls.
- `PtnetSync`: what register does to the CSB and to the krings, as
  functions on sequences, with per-ring lemmas.
- `PtnetIrq` and `PtnetAttach`: the status codes and register writes of
  `ptnet_irqs_init` and `ptnet_attach`.
- `Ptnet`: the classes and the imperative operations. Each method is
  proved against the functions above.
- `PtnetFindings`: the code as written where it departs from what was
  evidently intended.

## Model

| member | source | states |
|---|---|---|
| Ptnet.Softc.InitQueues | sys/dev/netmap/if_ptnet.c:279-291 | queue i gets kick register KICK_BASE + 4*i and CSB record i; its kring id is i for TX queues and i - ntx for RX queues; interrupts untouched |
| Ptnet.Softc.EnableAll | sys/dev/netmap/if_ptnet.c:772-780 | the flag is set to v on exactly the CSB records of the rings of one direction (RX starting at `rxqueues`); every other record is unchanged |
| Ptnet.Softc.SyncFromCsb | sys/dev/netmap/if_ptnet.c:740-770 | TX kring i takes the cursors of CSB record i and RX kring k those of record ntx + k (PullAll); the CSB is not written |
| PtnetTypes.Pull | sys/dev/netmap/if_ptnet.c:756-760 | after the copy the kring mirrors the record: rhead, ring.head = head; rcur, ring.cur = cur; nr_hwcur = hwcur; nr_hwtail, rtail, ring.tail = hwtail; the mode is untouched |
| Ptnet.Softc.SetKringModes | sys/dev/netmap/if_ptnet.c:836-859 | each kring's mode is stepped (StepAll), TX krings then RX krings |
| PtnetTypes.ModeStep | sys/dev/netmap/if_ptnet.c:836-859 | a register switches exactly the krings pending on to ON, an unregister exactly those pending off to OFF; every other kring is unchanged, and the pending mode never is |
| Ptnet.Softc.NmPtctl | sys/dev/netmap/if_ptnet.c:660-671 | the command is written to PTCTL and the PTSTS value is returned |
| PtnetTypes.AsCInt | sys/dev/netmap/if_ptnet.c:663-666 | the unsigned PTSTS stored in a C `int` is in the 32-bit range and is zero exactly when PTSTS is zero |
| PtnetTypes.AsCIntWraps | sys/dev/netmap/if_ptnet.c:663-666 | the conversion keeps the value modulo 2^32 and is one-to-one |
| Ptnet.Softc.Register | sys/dev/netmap/if_ptnet.c:782-878 | the counter, return value and trace are RegisterSpec's; the CSB is RegisterCsb's; the krings are RegisterKrings'; no other field changes and the adapter stays ready |
| Ptnet.Softc.RegisterOn | sys/dev/netmap/if_ptnet.c:809-847 | the register half, against the same functions |
| Ptnet.Softc.InitNotifications | sys/dev/netmap/if_ptnet.c:810-815 | from counter 0: host kicks requested on every ring, guest kicks off on TX and on on RX (RegisterCsb from 0) |
| Ptnet.Softc.SyncAndSetModes | sys/dev/netmap/if_ptnet.c:828-846 | the pull, when it happens, comes before the mode step; the native flags are set last |
| Ptnet.Softc.RegisterOff | sys/dev/netmap/if_ptnet.c:793-871 | the unregister half, against the same functions; the counter is decremented first |
| Ptnet.Softc.ReenableGuestKicks | sys/dev/netmap/if_ptnet.c:803-806 | guest kicks turned back on for every TX then RX ring |
| PtnetProtocol.RegisterSpec | sys/dev/netmap/if_ptnet.c:782-878 | a register fails exactly when REGIF was issued from counter 0 and PTSTS is non-zero, returns PTSTS as a C `int` and leaves the counter alone; otherwise it returns 0 and the counter goes up by one; an unregister always brings the counter down by one, even when UNREGIF fails, and returns PTSTS only when it issued UNREGIF |
| PtnetProtocol.SingleCommand | sys/dev/netmap/if_ptnet.c:810-870 | REGIF is issued exactly when registering from counter 0; UNREGIF exactly when unregistering from 1; no other PTCTL |
| PtnetProtocol.RegisterOrdering | sys/dev/netmap/if_ptnet.c:809-847 | a register pulls the CSB exactly under the source's condition, at most once and after REGIF; a refused REGIF stops before the pull and before the native flags |
| PtnetProtocol.UnregisterOrdering | sys/dev/netmap/if_ptnet.c:848-871 | an unregister clears the native flags, then pulls (native, no open descriptor), then issues UNREGIF |
| PtnetProtocol.RunAppend | sys/dev/netmap/if_ptnet.c:782-878 | running two call sequences back to back is running their concatenation |
| PtnetProtocol.FirstRegisters | sys/dev/netmap/if_ptnet.c:810-822 | N registers from 0, the first REGIF accepted, issue exactly one REGIF and leave the counter at N |
| PtnetProtocol.Unregisters | sys/dev/netmap/if_ptnet.c:868-870 | unregisters from counter c issue UNREGIF only when they bring the counter to 0 |
| PtnetProtocol.SingleFire | sys/dev/netmap/if_ptnet.c:793-875 | N registers followed by N unregisters issue exactly REGIF then UNREGIF and bring the counter back to 0 |
| PtnetProtocol.BalancedAlternates | sys/dev/netmap/if_ptnet.c:793-875 | for any balanced interleaving of calls, REGIF and UNREGIF strictly alternate (REGIF first from 0), the counter stays non-negative, and it is 0 exactly when every REGIF is matched |
| PtnetSync.RegisterCsb | sys/dev/netmap/if_ptnet.c:803-815 | the CSB after register keeps its record count and never has a ring cursor changed |
| PtnetSync.RegisterCsbRing | sys/dev/netmap/if_ptnet.c:803-815 | per CSB record, register never touches a cursor; from 0 it sets host kick on every ring, guest kick off on TX and on on RX; the last native unregister turns guest kicks on; every other record is unchanged |
| PtnetSync.RegisterKrings | sys/dev/netmap/if_ptnet.c:828-866 | the krings after register keep their number and never have `nr_pending_mode` written |
| PtnetSync.RegisterKring | sys/dev/netmap/if_ptnet.c:828-866 | per kring, after a pull it mirrors its CSB record, otherwise only its mode may change; the pending mode is never written; a pending switch completes exactly when modes are stepped |
| Ptnet.Softc.NmTxsync | sys/dev/netmap/if_ptnet.c:880-893 | returns 0; the kick register of queue ring_id is written with 0 exactly when the sync asks for it |
| Ptnet.Softc.NmRxsync | sys/dev/netmap/if_ptnet.c:895-908 | returns 0; the queue used is rxqueues + ring_id, so the kick goes to register KICK_BASE + 4*(ntx + ring_id), exactly when asked |
| Ptnet.Softc.NmKringsCreate | sys/dev/netmap/if_ptnet.c:690-713 | nothing happens while a client is registered or when netmap_hw_krings_create fails; otherwise the public adapter gets fresh krings and the private adapter shares the same arrays |
| Ptnet.Softc.NmKringsDelete | sys/dev/netmap/if_ptnet.c:715-732 | nothing happens while a client is registered; otherwise both adapters lose their krings |
| PtnetTypes.FeatureStatus | sys/dev/netmap/if_ptnet.c:240-248 | attach goes on exactly when the acknowledged PTFEAT has the base bit; otherwise it fails with ENXIO |
| PtnetTypes.SplitPaddr | sys/dev/netmap/if_ptnet.c:263-265 | the CSBBAH and CSBBAL words put back together give the CSB's 64-bit address |
| PtnetTypes.MacBytes | sys/dev/netmap/if_ptnet.c:323-330 | six bytes, which packed back big-endian give the low 16 bits of MAC_HI and all of MAC_LO |
| PtnetTypes.MacBytesDetermined | sys/dev/netmap/if_ptnet.c:323-330 | two register pairs give the same MAC address exactly when they agree on the low half of MAC_HI and on MAC_LO |
| PtnetIrq.Handler | sys/dev/netmap/if_ptnet.c:492-497 | a queue gets the RX handler exactly when it is not a TX queue (corrected comparison) |
| PtnetIrq.IrqsInitStatus | sys/dev/netmap/if_ptnet.c:460-529 | ptnet_irqs_init returns 0 exactly when no bus call failed; ENXIO for a missing MSI-X BAR; ENOSPC for too few vectors; otherwise the failing call's error (a failed IRQ allocation: ENOSPC, corrected) |
| PtnetIrq.IrqInitEvents | sys/dev/netmap/if_ptnet.c:521-528 | CTRL is written IRQINIT exactly on success, and at most one CTRL write is made |
| Ptnet.Softc.IrqsInit | sys/dev/netmap/if_ptnet.c:460-529 | with the corrected status of a failed IRQ allocation (see Findings): the result is IrqsInitStatus and the trace IrqInitEvents; on success the MSI-X BAR is mapped and every queue has its interrupt and the handler of its direction; on a failure after the BAR is mapped, everything is released |
| Ptnet.Softc.IrqsFini | sys/dev/netmap/if_ptnet.c:531-563 | IRQFINI is written, then every queue loses its handler and interrupt and the MSI-X BAR is released; the loop is guarded by a non-NULL queue array (corrected) |
| Ptnet.Softc.LockFini | sys/dev/netmap/if_ptnet.c:423 | the lock is destroyed only if it was initialised (corrected) |
| Ptnet.Adapter.Clear | sys/dev/netmap/if_ptnet.c:395 | the `memset` of the private adapter: no rings, no krings, no CSB, no open descriptor (the same `memset` at line 369 precedes the CSB assignment in SetupInterface) |
| Ptnet.Softc.Detach | sys/dev/netmap/if_ptnet.c:383-426 | with the corrected ptnet_irqs_fini and lock teardown (see Findings): each resource is released only when present and nulled afterwards; the trace gets IRQFINI and, when a CSB exists, CSBBAH := 0 then CSBBAL := 0; with an ifnet, the private adapter is zeroed |
| PtnetAttach.AttachStatus | sys/dev/netmap/if_ptnet.c:230-381 | with the corrected ptnet_irqs_init (see Findings): attach returns 0 exactly when every step works; ENXIO for a missing I/O BAR or a refused feature; ENOMEM for a failed CSB or queue allocation |
| PtnetAttach.AttachEvents | sys/dev/netmap/if_ptnet.c:239-410 | attach writes a register exactly when the I/O BAR is mapped, and then the PTFEAT write comes first; the writes are those of the set-up followed, on failure, by those of ptnet_detach |
| PtnetAttach.AttachHandshake | sys/dev/netmap/if_ptnet.c:239-266 | the feature write comes first; a successful attach writes exactly PTFEAT, CSBBAH, CSBBAL, then IRQINIT, with halves that rebuild the address; a failure after the CSB was installed clears the address (CSBBAH 0 then CSBBAL 0) after IRQFINI; an earlier failure writes PTFEAT then IRQFINI |
| PtnetAttach.AttachHandshakeOk | sys/dev/netmap/if_ptnet.c:260-266 | the successful case of the handshake |
| PtnetAttach.AttachHandshakeUndone | sys/dev/netmap/if_ptnet.c:405-410 | the failed case after the CSB was installed |
| Ptnet.Softc.Attach | sys/dev/netmap/if_ptnet.c:209-381 | with the corrected ptnet_irqs_init, ptnet_irqs_fini and lock teardown (see Findings): the result is AttachStatus and the trace AttachEvents; on failure every resource is released; on success the full attached state: the queue table, interrupts, the zeroed CSB, MAC bytes, a fresh public adapter and a zeroed private adapter sharing the CSB |
| Ptnet.Softc.AttachSteps | sys/dev/netmap/if_ptnet.c:230-307 | attach up to the error decision, against AttachStatus and the setup writes |
| Ptnet.Softc.InstallCsb | sys/dev/netmap/if_ptnet.c:251-307 | a zeroed CSB of full capacity, its address sent high half first, then the queues and their interrupts |
| Ptnet.Softc.SetupQueues | sys/dev/netmap/if_ptnet.c:268-297 | the ring count is set before the allocation; on success the queue table and the interrupts are set up |
| Ptnet.Softc.SetupInterface | sys/dev/netmap/if_ptnet.c:300-374 | the ifnet, the MAC bytes, the lock and counter 0; the public adapter has the device's ring counts, no krings and the CSB; the private adapter is zeroed but for the CSB |
| PtnetFindings.HandlerAsWritten | sys/dev/netmap/if_ptnet.c:492-497 | as written, a queue gets the RX handler exactly when its index exceeds the TX ring count |
| PtnetFindings.IrqsInitStatusAsWritten | sys/dev/netmap/if_ptnet.c:498-504 | as written, a failed IRQ allocation returns 0; every other outcome is the intended one |
| PtnetFindings.AttachStatusAsWritten | sys/dev/netmap/if_ptnet.c:230-381 | as written, attach returns 0 exactly when every step works, counting a lost IRQ allocation as working |
| PtnetFindings.IrqLossAttaches | sys/dev/netmap/if_ptnet.c:498-504 | with no IRQ resource for a queue, attach as written returns 0 after the host saw IRQFINI and never IRQINIT; corrected, it returns ENOSPC |
| PtnetFindings.QueuesAllocFailure | sys/dev/netmap/if_ptnet.c:270-277 | one TX ring and a failed queue allocation: attach returns ENOMEM, and ptnet_irqs_fini is entered with no queue array and a ring count of 1 |
| PtnetFindings.FeatureRefused | sys/dev/netmap/if_ptnet.c:244-248 | a refused feature: attach returns ENXIO, and the lock is destroyed without ever having been initialised |

## Left out

- PCI, BAR, MSI-X and interrupt glue are not modelled. This covers `bus_alloc_resource_any`, `pci_msix_count`, `pci_alloc_msix`, `bus_setup_intr`, `bus_describe_intr`, the resource ids and `pci_release_msi`. Each call's success or failure is an input (`IrqFault`), and the interrupt of a queue is a flag.
- `pci_alloc_msix` granting fewer vectors than asked is not modelled. The loop of `ptnet_irqs_init` is modelled as running over every ring.
- ifnet, ifmedia and Ethernet set-up (`if_alloc` aside), `ptnet_ioctl`, `ptnet_init`, `ptnet_stop`, `ptnet_start` and the media callbacks are not modelled. They are network-stack glue.
- `ptnet_probe` is not modelled. It compares the PCI vendor and device ids and sets the device description with `device_set_desc`.
- `ptnet_suspend`, `ptnet_resume`, `ptnet_shutdown`, `ptnet_nm_config` and the interrupt handlers are not modelled. They only return constants, read registers or print.
- The netmap core is outside the model. `netmap_pt_guest_txsync` and `netmap_pt_guest_rxsync` are a boolean input. `netmap_hw_krings_create` is a status input plus fresh zeroed krings. `netmap_pt_guest_attach` is a fresh adapter with the device's ring counts. `netmap_detach` is the public adapter becoming NULL. `nm_set_native_flags` and `nm_clear_native_flags` are trace events. `netmap_mem_get` and `netmap_mem_put` are not modelled, nor is `ptnet_nm_dtor`, which only calls `netmap_mem_pt_guest_ifp_del`.
- Locks and concurrency are not modelled. Every call is sequential.
- Logging (`device_printf`, `D`, `ND`) is not modelled.
- The `struct netmap_ring` a kring points to is folded into the kring as the `ring*` fields. Host rings are not modelled.
- Register offsets are symbolic. `KICK_BASE` (`PTNET_IO_KICK_BASE`) and `CSB_MAX_RINGS` (the CSB's record count) come from netmap_virt.h, which is not part of this model. They are left as uninterpreted constants.
- Ptnet.Softc.Attach: it does not check that the ring count fits the CSB, and neither does the source. Register and sync therefore require `ReadyFor`, which includes `num_rings <= CSB_MAX_RINGS`.
- Ptnet.Softc.Attach: `num_rings` wraps modulo 2^32 as the `uint32_t` addition does. `rxqueues` is the TX ring count.
- Ptnet.Softc.Register: the private adapter keeps ring counts of 0 after `memset`, so only the public adapter meets `ReadyFor`. Registering it as written would set no notification flag (`nma_get_nrings` is 0, line 777) and the pull of ptnet_sync_from_csb would reach every kring as `rx_rings + i` (line 754), past its zero rings. Nothing in if_ptnet.c registers the private adapter, so this is not listed as a finding.
- PtnetProtocol.RegisterSpec: the counter stays decremented when UNREGIF fails. This is modelled as written. Whether the authors meant it cannot be told from the source, so it is not listed as a finding.
- C integer widths are modelled only where they change a value: PTSTS as a C `int` (AsCInt), `num_rings` as a `uint32_t`, and the 32-bit and 64-bit register values as bit vectors. The queue's `kick` (an `unsigned int`, KICK_BASE + 4*i) is a `nat`, and the `int` copies of the ring count (`nvecs`, the `int i` loop counters) and `backend_regifs` are unbounded integers. For a device whose rings fit the CSB these values are bounded by the CSB's record count. That count and KICK_BASE are uninterpreted here, so the model does not prove that they stay in range.
- Ptnet.Softc.IrqsInit: it takes the TX ring count attach read, while ptnet_irqs_init reads PTNET_IO_NUM_TX_RINGS again (line 470). The host is assumed to give the same answer both times.
- `malloc`, `vtophys` and physical addresses are not modelled. Allocation success is an input and the CSB address is any 64-bit value.

## Findings

| source | as written | input that shows it | evidently intended | confidence | as-written member | corrected member |
|---|---|---|---|---|---|---|
| sys/dev/netmap/if_ptnet.c:495 | `i > num_tx_rings` picks the RX handler | one TX and one RX ring: queue 1 is the first RX queue and gets the TX handler | `>=`, as in the queue loop at line 288 | high, not executed | PtnetFindings.HandlerAsWritten | PtnetIrq.Handler |
| sys/dev/netmap/if_ptnet.c:498-504 | a failed IRQ allocation jumps to the error path with `err` still 0 | the IRQ resource for queue 0 cannot be allocated: ptnet_irqs_init returns 0 after releasing everything, so ptnet_attach goes on and returns 0 with no interrupt, the MSI-X BAR released, and IRQFINI but no IRQINIT written (PtnetFindings.IrqLossAttaches) | report a failure, e.g. ENOSPC | high, not executed | PtnetFindings.IrqsInitStatusAsWritten | PtnetIrq.IrqsInitStatus |
| sys/dev/netmap/if_ptnet.c:270-277 | `num_rings` is set before the queue array is allocated, and ptnet_irqs_fini walks `queues` without a NULL check | one TX ring and a failed queue allocation (PtnetFindings.QueuesAllocFailure) | skip the loop when `queues` is NULL | high, not executed | PtnetFindings.QueuesAllocFailure | Ptnet.Softc.IrqsFini |
| sys/dev/netmap/if_ptnet.c:423 | PTNET_CORE_LOCK_FINI runs on every detach, including failed attaches before PTNET_CORE_LOCK_INIT | the host refuses the base feature (PtnetFindings.FeatureRefused) | destroy the lock only after it was initialised | high, not executed | PtnetFindings.FeatureRefused | Ptnet.Softc.LockFini |
