/*
 * What ptnet_attach reports and what the device sees it write, for each
 * way the steps of attach can fail. On a failure after the I/O BAR is
 * mapped, attach runs ptnet_detach, whose writes are part of the trace.
 */
module PtnetAttach {
  import opened PtnetTypes
  import opened PtnetIrq

  /** The value ptnet_attach returns: zero exactly when every step works;
      ENXIO for a missing I/O BAR or an unacknowledged feature bit, ENOMEM
      for a failed CSB, queue or ifnet allocation, and the error of
      ptnet_irqs_init when that fails. `n` is the ring count. */
  function AttachStatus(barOk: bool, acked: bv32, csbOk: bool, queuesOk: bool,
                        irq: IrqFault, n: nat, ifpOk: bool): (err: int)
    ensures err == 0 <==>
      barOk && acked & FEATURES_BASE != 0 && csbOk && queuesOk && !IrqsInitFails(irq, n) && ifpOk
    ensures !barOk || acked & FEATURES_BASE == 0 ==> err == ENXIO
    ensures barOk && acked & FEATURES_BASE != 0 && (!csbOk || !queuesOk) ==> err == ENOMEM
  {
    if !barOk then ENXIO
    else if FeatureStatus(acked) != 0 then FeatureStatus(acked)
    else if !csbOk then ENOMEM
    else if !queuesOk then ENOMEM
    else if IrqsInitStatus(irq, n) != 0 then IrqsInitStatus(irq, n)
    else if !ifpOk then ENOMEM
    else 0
  }

  /** The CSB is allocated and its address handed to the host. */
  predicate CsbInstalled(barOk: bool, acked: bv32, csbOk: bool)
  {
    barOk && acked & FEATURES_BASE != 0 && csbOk
  }

  /** The register writes of ptnet_attach before it either fails or sets
      up the interface. */
  function AttachSetupEvents(barOk: bool, acked: bv32, csbOk: bool, paddr: bv64, queuesOk: bool,
                             irq: IrqFault, n: nat): (e: seq<Event>)
    ensures barOk <==> |e| > 0
    ensures barOk ==> e[0] == WriteFeat(FEATURES_BASE)
  {
    if !barOk then []
    else if !CsbInstalled(barOk, acked, csbOk) then [WriteFeat(FEATURES_BASE)]
    else
      var h := SplitPaddr(paddr);
      [WriteFeat(FEATURES_BASE), WriteCsbBah(h.0), WriteCsbBal(h.1)]
      + (if queuesOk then IrqInitEvents(irq, n) else [])
  }

  /** The register writes of ptnet_attach, including those of the
      ptnet_detach it runs on failure: IRQFINI, then clearing the CSB
      address if it was handed over. */
  function AttachEvents(barOk: bool, acked: bv32, csbOk: bool, paddr: bv64, queuesOk: bool,
                        irq: IrqFault, n: nat, ifpOk: bool): (e: seq<Event>)
    ensures barOk <==> |e| > 0
    ensures barOk ==> e[0] == WriteFeat(FEATURES_BASE)
  {
    if !barOk then []
    else
      AttachSetupEvents(barOk, acked, csbOk, paddr, queuesOk, irq, n)
      + (if AttachStatus(barOk, acked, csbOk, queuesOk, irq, n, ifpOk) == 0 then []
         else [WriteCtrl(IrqFini)]
              + (if CsbInstalled(barOk, acked, csbOk) then [WriteCsbBah(0), WriteCsbBal(0)] else []))
  }

  /** The CSB address writes of an event sequence, in order. */
  function CsbWrites(e: seq<Event>): (w: seq<Event>)
    ensures |w| <= |e|
  {
    if e == [] then []
    else (if e[0].WriteCsbBah? || e[0].WriteCsbBal? then [e[0]] else []) + CsbWrites(e[1..])
  }

  lemma {:induction false} CsbWritesAppend(x: seq<Event>, y: seq<Event>)
    ensures CsbWrites(x + y) == CsbWrites(x) + CsbWrites(y)
  {
    if x == [] {
      assert x + y == y;
    } else {
      var h := if x[0].WriteCsbBah? || x[0].WriteCsbBal? then [x[0]] else [];
      assert (x + y)[0] == x[0];
      assert (x + y)[1..] == x[1..] + y;
      CsbWritesAppend(x[1..], y);
      assert CsbWrites(x + y) == h + CsbWrites(x[1..] + y);
      assert CsbWrites(x) == h + CsbWrites(x[1..]);
    }
  }

  lemma CsbWritesOfCtrl(e: seq<Event>)
    requires |e| <= 1 && forall k :: 0 <= k < |e| ==> e[k].WriteCtrl?
    ensures CsbWrites(e) == []
  {
    if e != [] {
      assert e[1..] == [];
    }
  }

  lemma CsbWritesOfThree(x: Event, y: Event, z: Event)
    ensures CsbWrites([x, y, z]) ==
      (if x.WriteCsbBah? || x.WriteCsbBal? then [x] else [])
      + (if y.WriteCsbBah? || y.WriteCsbBal? then [y] else [])
      + (if z.WriteCsbBah? || z.WriteCsbBal? then [z] else [])
  {
    assert [z][1..] == [];
    assert CsbWrites([z]) == (if z.WriteCsbBah? || z.WriteCsbBal? then [z] else []) + CsbWrites([]);
    assert [y, z][1..] == [z];
    assert CsbWrites([y, z]) == (if y.WriteCsbBah? || y.WriteCsbBal? then [y] else []) + CsbWrites([z]);
    assert [x, y, z][1..] == [y, z];
  }

  /** A successful attach hands the host exactly the CSB's address and
      then asks for interrupts. */
  lemma AttachHandshakeOk(barOk: bool, acked: bv32, csbOk: bool, paddr: bv64, queuesOk: bool,
                          irq: IrqFault, n: nat, ifpOk: bool)
    requires AttachStatus(barOk, acked, csbOk, queuesOk, irq, n, ifpOk) == 0
    ensures var h := SplitPaddr(paddr);
      && AttachEvents(barOk, acked, csbOk, paddr, queuesOk, irq, n, ifpOk)
         == [WriteFeat(FEATURES_BASE), WriteCsbBah(h.0), WriteCsbBal(h.1), WriteCtrl(IrqInit)]
      && ((h.0 as bv64) << 32) | (h.1 as bv64) == paddr
  {
    var h := SplitPaddr(paddr);
    assert IrqInitEvents(irq, n) == [WriteCtrl(IrqInit)];
  }

  /** The CSB writes of a failed attach that installed the CSB, for any
      CTRL write `b` ptnet_irqs_init may have made in between. */
  lemma UndoneShape(h0: bv32, h1: bv32, b: seq<Event>)
    requires |b| <= 1 && forall k :: 0 <= k < |b| ==> b[k].WriteCtrl?
    ensures var e := [WriteFeat(FEATURES_BASE), WriteCsbBah(h0), WriteCsbBal(h1)] + b
                     + [WriteCtrl(IrqFini), WriteCsbBah(0), WriteCsbBal(0)];
      && CsbWrites(e) == [WriteCsbBah(h0), WriteCsbBal(h1), WriteCsbBah(0), WriteCsbBal(0)]
      && |e| >= 6 && e[|e| - 3] == WriteCtrl(IrqFini)
  {
    var a := [WriteFeat(FEATURES_BASE), WriteCsbBah(h0), WriteCsbBal(h1)];
    var d := [WriteCtrl(IrqFini), WriteCsbBah(0), WriteCsbBal(0)];
    CsbWritesAppend(a, b);
    CsbWritesAppend(a + b, d);
    CsbWritesOfThree(a[0], a[1], a[2]);
    CsbWritesOfThree(d[0], d[1], d[2]);
    CsbWritesOfCtrl(b);
  }

  /** A failed attach that installed the CSB clears the address again,
      after the IRQFINI of ptnet_irqs_fini. */
  lemma AttachHandshakeUndone(barOk: bool, acked: bv32, csbOk: bool, paddr: bv64, queuesOk: bool,
                              irq: IrqFault, n: nat, ifpOk: bool)
    requires AttachStatus(barOk, acked, csbOk, queuesOk, irq, n, ifpOk) != 0
    requires CsbInstalled(barOk, acked, csbOk)
    ensures var e := AttachEvents(barOk, acked, csbOk, paddr, queuesOk, irq, n, ifpOk);
            var h := SplitPaddr(paddr);
      && CsbWrites(e) == [WriteCsbBah(h.0), WriteCsbBal(h.1), WriteCsbBah(0), WriteCsbBal(0)]
      && |e| >= 6 && e[|e| - 3] == WriteCtrl(IrqFini)
  {
    var h := SplitPaddr(paddr);
    var b := if queuesOk then IrqInitEvents(irq, n) else [];
    var d := [WriteCtrl(IrqFini), WriteCsbBah(0), WriteCsbBal(0)];
    assert [WriteCtrl(IrqFini)] + [WriteCsbBah(0), WriteCsbBal(0)] == d;
    UndoneShape(h.0, h.1, b);
  }

  /** The CSB handshake as the host sees it. The feature write comes
      first; the CSB address goes out as CSBBAH then CSBBAL; a successful
      attach hands over exactly the CSB's address, then IRQINIT; a failed
      one clears the address it handed over and ends with IRQFINI, before
      the address is cleared. */
  lemma AttachHandshake(barOk: bool, acked: bv32, csbOk: bool, paddr: bv64, queuesOk: bool,
                        irq: IrqFault, n: nat, ifpOk: bool)
    ensures var e := AttachEvents(barOk, acked, csbOk, paddr, queuesOk, irq, n, ifpOk);
      && (barOk <==> |e| > 0)
      && (barOk ==> e[0] == WriteFeat(FEATURES_BASE))
    ensures AttachStatus(barOk, acked, csbOk, queuesOk, irq, n, ifpOk) == 0 ==>
      var h := SplitPaddr(paddr);
      && AttachEvents(barOk, acked, csbOk, paddr, queuesOk, irq, n, ifpOk)
         == [WriteFeat(FEATURES_BASE), WriteCsbBah(h.0), WriteCsbBal(h.1), WriteCtrl(IrqInit)]
      && ((h.0 as bv64) << 32) | (h.1 as bv64) == paddr
    ensures AttachStatus(barOk, acked, csbOk, queuesOk, irq, n, ifpOk) != 0
            && CsbInstalled(barOk, acked, csbOk) ==>
      var e := AttachEvents(barOk, acked, csbOk, paddr, queuesOk, irq, n, ifpOk);
      var h := SplitPaddr(paddr);
      && CsbWrites(e) == [WriteCsbBah(h.0), WriteCsbBal(h.1), WriteCsbBah(0), WriteCsbBal(0)]
      && |e| >= 6 && e[|e| - 3] == WriteCtrl(IrqFini)
    ensures barOk && !CsbInstalled(barOk, acked, csbOk) ==>
      AttachEvents(barOk, acked, csbOk, paddr, queuesOk, irq, n, ifpOk)
      == [WriteFeat(FEATURES_BASE), WriteCtrl(IrqFini)]
  {
    if AttachStatus(barOk, acked, csbOk, queuesOk, irq, n, ifpOk) == 0 {
      AttachHandshakeOk(barOk, acked, csbOk, paddr, queuesOk, irq, n, ifpOk);
    } else if CsbInstalled(barOk, acked, csbOk) {
      AttachHandshakeUndone(barOk, acked, csbOk, paddr, queuesOk, irq, n, ifpOk);
    }
  }
}
