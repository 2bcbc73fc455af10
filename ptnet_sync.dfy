/*
 * What ptnet_nm_register does to the CSB records and to the krings of the
 * adapter it registers, as functions on sequences. Module Ptnet proves that
 * its loops over the arrays compute exactly these; the lemmas here say what
 * the results mean for each ring.
 */
module PtnetSync {
  import opened PtnetTypes

  /** csb_notification_enable_all: flag f set to v in the CSB records
      lo .. hi-1, every other record left as it was. */
  function FlagRange(rings: seq<CsbRing>, lo: nat, hi: nat, f: Flag, v: bool): (rs: seq<CsbRing>)
    ensures |rs| == |rings|
  {
    seq(|rings|, j requires 0 <= j < |rings| => if lo <= j < hi then SetFlag(rings[j], f, v) else rings[j])
  }

  /** The CSB after ptnet_nm_register, for counter `c` on entry, on an
      adapter with `ntx` TX and `nrx` RX rings. A register from counter 0
      initialises the notification flags of every ring (before REGIF, so
      also when the host refuses it); the unregister of the last native
      client re-enables guest kicks on every ring. */
  function RegisterCsb(rings: seq<CsbRing>, c: int, onoff: bool, native: bool, fds: nat,
                       ntx: nat, nrx: nat): (rs: seq<CsbRing>)
    ensures |rs| == |rings|
    ensures forall j :: 0 <= j < |rings| ==> SameCursors(rs[j], rings[j])
  {
    if onoff then
      if c == 0 then
        var r1 := FlagRange(rings, 0, ntx, HostNeedKick, true);
        var r2 := FlagRange(r1, 0, ntx, GuestNeedKick, false);
        var r3 := FlagRange(r2, ntx, ntx + nrx, HostNeedKick, true);
        FlagRange(r3, ntx, ntx + nrx, GuestNeedKick, true)
      else rings
    else if native && fds == 0 then
      FlagRange(FlagRange(rings, 0, ntx, GuestNeedKick, true), ntx, ntx + nrx, GuestNeedKick, true)
    else rings
  }

  /** Ring cursors of two CSB records agree. */
  predicate SameCursors(r: CsbRing, s: CsbRing)
  {
    r.head == s.head && r.cur == s.cur && r.hwcur == s.hwcur && r.hwtail == s.hwtail
  }

  /** Per ring, register never touches a cursor; from counter 0 it asks
      the host to kick on every ring and suppresses guest kicks on TX rings
      only; the last native unregister turns guest kicks back on; rings
      past the adapter's, and every ring in the other calls, are untouched. */
  lemma RegisterCsbRing(rings: seq<CsbRing>, c: int, onoff: bool, native: bool, fds: nat,
                        ntx: nat, nrx: nat, j: nat)
    requires j < |rings|
    ensures var r := RegisterCsb(rings, c, onoff, native, fds, ntx, nrx)[j];
      && SameCursors(r, rings[j])
      && (onoff && c == 0 && j < ntx ==> r.hostNeedKick && !r.guestNeedKick)
      && (onoff && c == 0 && ntx <= j < ntx + nrx ==> r.hostNeedKick && r.guestNeedKick)
      && (!onoff && native && fds == 0 && j < ntx + nrx ==>
            r.guestNeedKick && r.hostNeedKick == rings[j].hostNeedKick)
      && (j >= ntx + nrx || !((onoff && c == 0) || (!onoff && native && fds == 0)) ==> r == rings[j])
  {
    var r := RegisterCsb(rings, c, onoff, native, fds, ntx, nrx)[j];
    if onoff && c == 0 {
      var r1 := FlagRange(rings, 0, ntx, HostNeedKick, true);
      var r2 := FlagRange(r1, 0, ntx, GuestNeedKick, false);
      var r3 := FlagRange(r2, ntx, ntx + nrx, HostNeedKick, true);
      assert r == FlagRange(r3, ntx, ntx + nrx, GuestNeedKick, true)[j];
      if j < ntx {
        assert r == r2[j];
      } else if j < ntx + nrx {
        assert r2[j] == rings[j];
      } else {
        assert r == rings[j];
      }
    } else if !onoff && native && fds == 0 {
      var r1 := FlagRange(rings, 0, ntx, GuestNeedKick, true);
      assert r == FlagRange(r1, ntx, ntx + nrx, GuestNeedKick, true)[j];
    }
  }

  /** The loop of ptnet_sync_from_csb for the krings of one direction:
      kring k takes the cursors of CSB record off + k. */
  function PullAll(ks: seq<Kring>, rings: seq<CsbRing>, off: nat): (ks': seq<Kring>)
    requires off + |ks| <= |rings|
    ensures |ks'| == |ks|
  {
    seq(|ks|, k requires 0 <= k < |ks| => Pull(ks[k], rings[off + k]))
  }

  /** The nr_mode loop of ptnet_nm_register for the krings of one direction. */
  function StepAll(ks: seq<Kring>, on: bool): (ks': seq<Kring>)
    ensures |ks'| == |ks|
  {
    seq(|ks|, k requires 0 <= k < |ks| => ModeStep(ks[k], on))
  }

  /** The krings of one direction after ptnet_nm_register: a register
      pulls the cursors first and then completes pending mode switches, an
      unregister does it the other way round. */
  function RegisterKrings(ks: seq<Kring>, rings: seq<CsbRing>, off: nat,
                          pull: bool, step: bool, onoff: bool): (ks': seq<Kring>)
    requires off + |ks| <= |rings|
    ensures |ks'| == |ks|
    ensures forall k :: 0 <= k < |ks| ==> ks'[k].nrPendingMode == ks[k].nrPendingMode
  {
    if onoff then
      var k1 := if pull then PullAll(ks, rings, off) else ks;
      if step then StepAll(k1, true) else k1
    else
      var k1 := if step then StepAll(ks, false) else ks;
      if pull then PullAll(k1, rings, off) else k1
  }

  /** Per kring: after a pull it mirrors its CSB record; without one only
      its nr_mode may have changed; nr_pending_mode is never written; a
      pending switch is completed exactly when the modes are stepped. */
  lemma RegisterKring(ks: seq<Kring>, rings: seq<CsbRing>, off: nat,
                      pull: bool, step: bool, onoff: bool, k: nat)
    requires off + |ks| <= |rings| && k < |ks|
    ensures var k' := RegisterKrings(ks, rings, off, pull, step, onoff)[k];
      && (pull ==> Mirrors(k', rings[off + k]))
      && (!pull ==> k'.(nrMode := ks[k].nrMode) == ks[k])
      && k'.nrPendingMode == ks[k].nrPendingMode
      && (step && onoff && PendingOn(ks[k]) ==> k'.nrMode == On)
      && (step && !onoff && PendingOff(ks[k]) ==> k'.nrMode == Off)
      && (!step || (onoff && !PendingOn(ks[k])) || (!onoff && !PendingOff(ks[k])) ==>
            k'.nrMode == ks[k].nrMode)
  {
    var k0 := ks[k];
    var r := rings[off + k];
    var k' := RegisterKrings(ks, rings, off, pull, step, onoff)[k];
    if onoff {
      var k1 := if pull then Pull(k0, r) else k0;
      assert k1.nrMode == k0.nrMode && k1.nrPendingMode == k0.nrPendingMode;
      assert k' == if step then ModeStep(k1, true) else k1;
    } else {
      var k1 := if step then ModeStep(k0, false) else k0;
      assert k' == if pull then Pull(k1, r) else k1;
    }
  }
}
