/*
 * The register/unregister protocol of ptnet_nm_register as a function of
 * the state it reads: the backend_regifs counter, the direction of the
 * call, whether the adapter is the native one, its active_fds count and
 * the PTSTS value the host answers with. Module Ptnet proves that the
 * method updates the softc exactly as this module says; the lemmas here
 * state what follows over whole sequences of calls.
 */
module PtnetProtocol {
  import opened PtnetTypes

  /** The effect of one ptnet_nm_register call: the new counter, the
      returned value and the events, in order. */
  datatype RegOutcome = RegOutcome(regifs: int, ret: int, events: seq<Event>)

  /** The PTCTL commands of an event log, in order. */
  function Ptctls(e: seq<Event>): (p: seq<Ptctl>)
    ensures |p| <= |e|
  {
    if e == [] then []
    else (if e[0].WritePtctl? then [e[0].cmd] else []) + Ptctls(e[1..])
  }

  lemma {:induction false} PtctlsAppend(x: seq<Event>, y: seq<Event>)
    ensures Ptctls(x + y) == Ptctls(x) + Ptctls(y)
  {
    if x == [] {
      assert x + y == y;
    } else {
      var h := if x[0].WritePtctl? then [x[0].cmd] else [];
      assert (x + y)[0] == x[0];
      assert (x + y)[1..] == x[1..] + y;
      PtctlsAppend(x[1..], y);
      assert Ptctls(x + y) == h + Ptctls(x[1..] + y);
      assert Ptctls(x) == h + Ptctls(x[1..]);
    }
  }

  /** Every `a` in e comes before every `b` in e. */
  ghost predicate Precedes(e: seq<Event>, a: Event, b: Event)
  {
    forall i, j :: 0 <= i < |e| && 0 <= j < |e| && e[i] == a && e[j] == b ==> i < j
  }

  /** The CSB pull of register (`onoff`): after a successful or skipped
      REGIF, for the first non-native client or a native one with no open
      descriptor; of unregister: for a native adapter with no open descriptor. */
  predicate PullOccurs(c: int, onoff: bool, native: bool, fds: nat, sts: u32)
  {
    if onoff then (c != 0 || sts == 0) && ((!native && c == 0) || (native && fds == 0))
    else native && fds == 0
  }

  /** The events of a successful register: REGIF on the first client,
      then the CSB pull, then nm_set_native_flags. */
  function RegisterEvents(c: int, native: bool, fds: nat): seq<Event>
  {
    (if c == 0 then [WritePtctl(Regif)] else [])
    + (if (!native && c == 0) || (native && fds == 0) then [PullFromCsb] else [])
    + (if native then [SetNativeFlags] else [])
  }

  /** The events of an unregister: nm_clear_native_flags, then the CSB
      pull, then UNREGIF when the counter has reached 0. */
  function UnregisterEvents(c: int, native: bool, fds: nat): seq<Event>
  {
    (if native then [ClearNativeFlags] else [])
    + (if native && fds == 0 then [PullFromCsb] else [])
    + (if c - 1 == 0 then [WritePtctl(Unregif)] else [])
  }

  /** ptnet_nm_register as seen from the counter, the return value and the
      events, for counter `c` on entry and host answer `sts`. A register
      fails exactly when REGIF was issued and refused, and then leaves the
      counter alone; otherwise it counts one more client. An unregister
      always counts one client less, even when UNREGIF fails. */
  function RegisterSpec(c: int, onoff: bool, native: bool, fds: nat, sts: u32): (o: RegOutcome)
    ensures onoff ==> (o.ret != 0 <==> c == 0 && sts != 0)
    ensures onoff && o.ret != 0 ==> o.regifs == c && o.ret == AsCInt(sts)
    ensures onoff && o.ret == 0 ==> o.regifs == c + 1
    ensures !onoff ==> o.regifs == c - 1
    ensures !onoff ==> o.ret == (if c == 1 then AsCInt(sts) else 0)
  {
    if onoff then
      if c == 0 && sts != 0 then RegOutcome(c, AsCInt(sts), [WritePtctl(Regif)])
      else RegOutcome(c + 1, 0, RegisterEvents(c, native, fds))
    else
      RegOutcome(c - 1, if c - 1 == 0 then AsCInt(sts) else 0, UnregisterEvents(c, native, fds))
  }

  /** REGIF is issued only on the 0 -> 1 transition of the counter, UNREGIF
      only on 1 -> 0, and never both in one call. */
  lemma SingleCommand(c: int, onoff: bool, native: bool, fds: nat, sts: u32)
    ensures Ptctls(RegisterSpec(c, onoff, native, fds, sts).events) ==
      (if onoff && c == 0 then [Regif] else if !onoff && c == 1 then [Unregif] else [])
  {
    if onoff && c == 0 && sts != 0 {
      PtctlsOne(WritePtctl(Regif));
    } else if onoff {
      RegisterPtctls(c, native, fds);
    } else {
      UnregisterPtctls(c, native, fds);
    }
  }

  lemma PtctlsOne(e: Event)
    ensures Ptctls([e]) == if e.WritePtctl? then [e.cmd] else []
  {
    assert [e][1..] == [];
  }

  lemma RegisterPtctls(c: int, native: bool, fds: nat)
    ensures Ptctls(RegisterEvents(c, native, fds)) == if c == 0 then [Regif] else []
  {
    var a: seq<Event> := if c == 0 then [WritePtctl(Regif)] else [];
    var b: seq<Event> := if (!native && c == 0) || (native && fds == 0) then [PullFromCsb] else [];
    var d: seq<Event> := if native then [SetNativeFlags] else [];
    PtctlsAppend(a, b);
    PtctlsAppend(a + b, d);
    PtctlsOne(WritePtctl(Regif));
    PtctlsOne(PullFromCsb);
    PtctlsOne(SetNativeFlags);
  }

  lemma UnregisterPtctls(c: int, native: bool, fds: nat)
    ensures Ptctls(UnregisterEvents(c, native, fds)) == if c == 1 then [Unregif] else []
  {
    var a: seq<Event> := if native then [ClearNativeFlags] else [];
    var b: seq<Event> := if native && fds == 0 then [PullFromCsb] else [];
    var d: seq<Event> := if c - 1 == 0 then [WritePtctl(Unregif)] else [];
    PtctlsAppend(a, b);
    PtctlsAppend(a + b, d);
    PtctlsOne(WritePtctl(Unregif));
    PtctlsOne(PullFromCsb);
    PtctlsOne(ClearNativeFlags);
  }

  /** No event occurs twice in e. */
  ghost predicate AtMostOnce(e: seq<Event>, a: Event)
  {
    forall i, j :: 0 <= i < |e| && 0 <= j < |e| && e[i] == a && e[j] == a ==> i == j
  }

  lemma {:induction false} RegisterEventsOrder(c: int, native: bool, fds: nat)
    ensures var e := RegisterEvents(c, native, fds);
      && (PullFromCsb in e <==> (!native && c == 0) || (native && fds == 0))
      && AtMostOnce(e, PullFromCsb)
      && Precedes(e, WritePtctl(Regif), PullFromCsb)
      && (SetNativeFlags in e <==> native)
      && ClearNativeFlags !in e
  {
    var e := RegisterEvents(c, native, fds);
    var a: seq<Event> := if c == 0 then [WritePtctl(Regif)] else [];
    var b: seq<Event> := if (!native && c == 0) || (native && fds == 0) then [PullFromCsb] else [];
    var d: seq<Event> := if native then [SetNativeFlags] else [];
    assert e == a + b + d;
    assert PullFromCsb !in a && PullFromCsb !in d;
    assert SetNativeFlags !in a && SetNativeFlags !in b;
    forall i, j | 0 <= i < |e| && 0 <= j < |e| && e[i] == WritePtctl(Regif) && e[j] == PullFromCsb
      ensures i < j
    {
      assert i < |a|;
      assert |a| <= j < |a| + |b|;
    }
    forall i, j | 0 <= i < |e| && 0 <= j < |e| && e[i] == PullFromCsb && e[j] == PullFromCsb
      ensures i == j
    {
      assert |a| <= i < |a| + |b|;
      assert |a| <= j < |a| + |b|;
    }
  }

  /** A register pulls the CSB exactly when the source says, once at most
      and only after REGIF; a refused REGIF stops it before the pull and
      before nm_set_native_flags. */
  lemma {:induction false} RegisterOrdering(c: int, native: bool, fds: nat, sts: u32)
    ensures var e := RegisterSpec(c, true, native, fds, sts).events;
      && (PullFromCsb in e <==> PullOccurs(c, true, native, fds, sts))
      && AtMostOnce(e, PullFromCsb)
      && Precedes(e, WritePtctl(Regif), PullFromCsb)
      && (SetNativeFlags in e <==> native && !(c == 0 && sts != 0))
      && ClearNativeFlags !in e
  {
    if c == 0 && sts != 0 {
      var e := RegisterSpec(c, true, native, fds, sts).events;
      assert e == [WritePtctl(Regif)];
    } else {
      RegisterEventsOrder(c, native, fds);
    }
  }

  /** An unregister pulls the CSB (native, no open descriptor) before it
      issues UNREGIF, and issues it only when the counter reaches 0. */
  lemma {:induction false} UnregisterOrdering(c: int, native: bool, fds: nat, sts: u32)
    ensures var e := RegisterSpec(c, false, native, fds, sts).events;
      && (PullFromCsb in e <==> PullOccurs(c, false, native, fds, sts))
      && AtMostOnce(e, PullFromCsb)
      && Precedes(e, PullFromCsb, WritePtctl(Unregif))
      && Precedes(e, ClearNativeFlags, PullFromCsb)
      && (ClearNativeFlags in e <==> native)
      && SetNativeFlags !in e
  {
    var e := RegisterSpec(c, false, native, fds, sts).events;
    var a: seq<Event> := if native then [ClearNativeFlags] else [];
    var b: seq<Event> := if native && fds == 0 then [PullFromCsb] else [];
    var d: seq<Event> := if c - 1 == 0 then [WritePtctl(Unregif)] else [];
    assert e == a + b + d;
    forall i, j | 0 <= i < |e| && 0 <= j < |e| && e[i] == PullFromCsb && e[j] == WritePtctl(Unregif)
      ensures i < j
    {
      assert |a| <= i < |a| + |b|;
      assert |a| + |b| <= j;
    }
    forall i, j | 0 <= i < |e| && 0 <= j < |e| && e[i] == ClearNativeFlags && e[j] == PullFromCsb
      ensures i < j
    {
      assert i < |a|;
      assert |a| <= j < |a| + |b|;
    }
    forall i, j | 0 <= i < |e| && 0 <= j < |e| && e[i] == PullFromCsb && e[j] == PullFromCsb
      ensures i == j
    {
      assert |a| <= i < |a| + |b|;
      assert |a| <= j < |a| + |b|;
    }
  }

  /** One call of ptnet_nm_register as the netmap core makes it. */
  datatype RegCall = RegCall(onoff: bool, native: bool, activeFds: nat, ptsts: u32)

  function Step(c: int, call: RegCall): RegOutcome
  {
    RegisterSpec(c, call.onoff, call.native, call.activeFds, call.ptsts)
  }

  /** A sequence of calls from counter `c` under any step function: the
      final counter, the last return value and every event. */
  function Fold(step: (int, RegCall) -> RegOutcome, c: int, calls: seq<RegCall>): RegOutcome
    decreases |calls|
  {
    if calls == [] then RegOutcome(c, 0, [])
    else
      var s := step(c, calls[0]);
      var rest := Fold(step, s.regifs, calls[1..]);
      RegOutcome(rest.regifs, rest.ret, s.events + rest.events)
  }

  /** A sequence of ptnet_nm_register calls from counter `c`. */
  function Run(c: int, calls: seq<RegCall>): RegOutcome
  {
    Fold(Step, c, calls)
  }

  lemma {:induction false} FoldAppend(step: (int, RegCall) -> RegOutcome, c: int,
                                      a: seq<RegCall>, b: seq<RegCall>)
    ensures Fold(step, c, a + b).regifs == Fold(step, Fold(step, c, a).regifs, b).regifs
    ensures Fold(step, c, a + b).events == Fold(step, c, a).events + Fold(step, Fold(step, c, a).regifs, b).events
    decreases |a|
  {
    if a == [] {
      assert a + b == b;
    } else {
      var s := step(c, a[0]);
      assert (a + b)[0] == a[0] && (a + b)[1..] == a[1..] + b;
      FoldAppend(step, s.regifs, a[1..], b);
    }
  }

  /** Running a + b is running a, then b from where a left the counter. */
  lemma RunAppend(c: int, a: seq<RegCall>, b: seq<RegCall>)
    ensures Run(c, a + b).regifs == Run(Run(c, a).regifs, b).regifs
    ensures Run(c, a + b).events == Run(c, a).events + Run(Run(c, a).regifs, b).events
  {
    FoldAppend(Step, c, a, b);
  }

  /** Registers on a counter that is already positive issue no PTCTL. */
  lemma {:induction false} LaterRegisters(c: int, ons: seq<RegCall>)
    requires c >= 1
    requires forall k :: 0 <= k < |ons| ==> ons[k].onoff
    ensures Run(c, ons).regifs == c + |ons|
    ensures Ptctls(Run(c, ons).events) == []
    decreases |ons|
  {
    if ons != [] {
      LaterRegisters(c + 1, ons[1..]);
      SingleCommand(c, true, ons[0].native, ons[0].activeFds, ons[0].ptsts);
      PtctlsAppend(Step(c, ons[0]).events, Run(c + 1, ons[1..]).events);
    }
  }

  /** N registers from an unregistered backend whose first REGIF the host
      accepts issue exactly one REGIF and leave the counter at N. */
  lemma {:induction false} FirstRegisters(ons: seq<RegCall>)
    requires |ons| >= 1 && ons[0].ptsts == 0
    requires forall k :: 0 <= k < |ons| ==> ons[k].onoff
    ensures Run(0, ons).regifs == |ons|
    ensures Ptctls(Run(0, ons).events) == [Regif]
  {
    LaterRegisters(1, ons[1..]);
    SingleCommand(0, true, ons[0].native, ons[0].activeFds, ons[0].ptsts);
    PtctlsAppend(Step(0, ons[0]).events, Run(1, ons[1..]).events);
  }

  /** Unregisters from counter c issue UNREGIF only when they bring it to 0. */
  lemma {:induction false} Unregisters(c: int, offs: seq<RegCall>)
    requires c >= |offs|
    requires forall k :: 0 <= k < |offs| ==> !offs[k].onoff
    ensures Run(c, offs).regifs == c - |offs|
    ensures Ptctls(Run(c, offs).events) == (if c == |offs| && |offs| > 0 then [Unregif] else [])
    decreases |offs|
  {
    if offs != [] {
      Unregisters(c - 1, offs[1..]);
      SingleCommand(c, false, offs[0].native, offs[0].activeFds, offs[0].ptsts);
      PtctlsAppend(Step(c, offs[0]).events, Run(c - 1, offs[1..]).events);
    }
  }

  /** N successful registers followed by N unregisters issue exactly one
      REGIF and then exactly one UNREGIF, and bring the counter back to 0. */
  lemma {:induction false} SingleFire(ons: seq<RegCall>, offs: seq<RegCall>)
    requires |ons| == |offs| >= 1 && ons[0].ptsts == 0
    requires forall k :: 0 <= k < |ons| ==> ons[k].onoff
    requires forall k :: 0 <= k < |offs| ==> !offs[k].onoff
    ensures Ptctls(Run(0, ons + offs).events) == [Regif, Unregif]
    ensures Run(0, ons + offs).regifs == 0
  {
    RunAppend(0, ons, offs);
    FirstRegisters(ons);
    Unregisters(|ons|, offs);
    PtctlsAppend(Run(0, ons).events, Run(|ons|, offs).events);
  }

  /** Calls from counter c in which the host accepts every REGIF and no
      unregister comes without a matching register before it. */
  ghost predicate Balanced(c: int, calls: seq<RegCall>)
    decreases |calls|
  {
    calls == [] ||
    (&& (calls[0].onoff ==> calls[0].ptsts == 0)
     && (!calls[0].onoff ==> c >= 1)
     && Balanced(Step(c, calls[0]).regifs, calls[1..]))
  }

  function Other(p: Ptctl): Ptctl
  {
    if p == Regif then Unregif else Regif
  }

  /** p alternates between two commands, starting with `first`. */
  ghost predicate Alternates(p: seq<Ptctl>, first: Ptctl)
  {
    forall i :: 0 <= i < |p| ==> p[i] == (if i % 2 == 0 then first else Other(first))
  }

  lemma ConsAlternates(p: Ptctl, rest: seq<Ptctl>)
    requires Alternates(rest, Other(p))
    ensures Alternates([p] + rest, p)
  {
    var s := [p] + rest;
    forall i | 0 <= i < |s|
      ensures s[i] == (if i % 2 == 0 then p else Other(p))
    {
      if i > 0 {
        assert s[i] == rest[i - 1];
        assert Other(Other(p)) == p;
      }
    }
  }

  /** One balanced step in front of an alternating tail keeps the
      alternation and the parity of the counter. */
  lemma AlternatesStep(c: int, c': int, r: int, h: seq<Ptctl>, p: seq<Ptctl>)
    requires c >= 0 && c' >= 0 && (c' == c + 1 || c' == c - 1)
    requires h == (if c == 0 then [Regif] else if c' == 0 then [Unregif] else [])
    requires Alternates(p, if c' == 0 then Regif else Unregif)
    requires r == 0 <==> |p| % 2 == (if c' == 0 then 0 else 1)
    ensures Alternates(h + p, if c == 0 then Regif else Unregif)
    ensures r == 0 <==> |h + p| % 2 == (if c == 0 then 0 else 1)
  {
    if c == 0 {
      ConsAlternates(Regif, p);
    } else if c' == 0 {
      ConsAlternates(Unregif, p);
    } else {
      assert h + p == p;
    }
  }

  /** Whatever the interleaving of balanced register and unregister calls,
      the host sees REGIF and UNREGIF strictly alternating, REGIF first
      when starting unregistered; the counter never goes negative and it
      is back at 0 exactly when every REGIF has been matched. */
  lemma {:induction false} BalancedAlternates(c: int, calls: seq<RegCall>)
    requires c >= 0 && Balanced(c, calls)
    ensures Run(c, calls).regifs >= 0
    ensures Alternates(Ptctls(Run(c, calls).events), if c == 0 then Regif else Unregif)
    ensures Run(c, calls).regifs == 0 <==>
            |Ptctls(Run(c, calls).events)| % 2 == (if c == 0 then 0 else 1)
    decreases |calls|
  {
    if calls != [] {
      var call := calls[0];
      var s := Step(c, call);
      assert s.regifs == (if call.onoff then c + 1 else c - 1);
      var rest := Run(s.regifs, calls[1..]);
      BalancedAlternates(s.regifs, calls[1..]);
      SingleCommand(c, call.onoff, call.native, call.activeFds, call.ptsts);
      PtctlsAppend(s.events, rest.events);
      assert Run(c, calls) == RegOutcome(rest.regifs, rest.ret, s.events + rest.events);
      AlternatesStep(c, s.regifs, rest.regifs, Ptctls(s.events), Ptctls(rest.events));
    }
  }
}
