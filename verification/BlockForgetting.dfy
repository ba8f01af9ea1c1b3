/**
 * Why the safety of the block step needs accepted assurances: a run of blocks without them, after which
 * the history has forgotten a package that still sits on a core, and the same package is assigned again.
 */
module BlockForgetting {
  import opened Base
  import opened Queue
  import opened QueueRings
  import opened BlockImport
  import opened BlockSafety

  /** A block whose only assurance fails its anchor check, so its assurances are rejected. */
  function Rejecting(slot: nat, gs: seq<Guarantee>): ImportBlock {
    ImportBlock(slot, true, {}, [Assurance(false, 0, false, [])], gs)
  }

  ghost predicate Quiet(r: Rings) {
    forall b | 0 <= b < EPOCH :: r.ready[b] == [] && r.accumulated[b] == []
  }

  lemma {:induction false} FlatNothing(ring: seq<seq<Hash>>)
    requires forall k | 0 <= k < |ring| :: ring[k] == []
    ensures Flat(ring) == []
    decreases |ring|
  {
    if ring != [] {
      FlatNothing(ring[..|ring| - 1]);
    }
  }

  lemma QuietQueue(r: Rings, m: nat)
    requires Quiet(r)
    ensures ReadyUpTo(r.ready, m, EPOCH) == [] && Flat(r.accumulated) == []
  {
    var all := ReadyUpTo(r.ready, m, EPOCH);
    if all != [] {
      ReadyAll(r.ready, m, all[0]);
    }
    FlatNothing(r.accumulated);
  }

  lemma QuietAdvance(slot: nat, pre: nat, r: Rings)
    requires pre <= slot && Quiet(r)
    ensures Advance(slot, pre, r, []) == r
  {
    QuietQueue(r, slot % EPOCH);
    assert Taken(slot, r, []) == [];
    assert r.accumulated[1..] + [[]] == r.accumulated;
  }

  /** A rejecting block with nothing queued changes the clock, the history and, by its guarantees, the cores. */
  lemma RejectingStep(st: Chain, slot: nat, gs: seq<Guarantee>, validators: nat)
    requires Quiet(st.rings) && Extends(st, Rejecting(slot, gs))
    ensures NextChain(st, Rejecting(slot, gs), validators)
         == Chain(slot, slot, GuaranteesStep(st.rho, gs, [], st.history, slot), st.rings, NextHistory(st.history, gs))
  {
    var b := Rejecting(slot, gs);
    assert AssuranceFault(Unjudged(st.rho, {}), b.assurances, validators, 0).Some?;
    assert Unjudged(st.rho, {}) == st.rho;
    QuietAdvance(slot, st.timeslot, st.rings);
    QuietQueue(st.rings, 0);
    assert KnownPackages(st.rings) == [];
  }

  /** A guarantee the code can accept: it carries results, and their gas is within bounds. */
  predicate Acceptable(g: Guarantee) {
    g.valid && g.report.gas != [] && GasTotal(g.report.gas) <= REPORT_ACC_GAS
  }

  /** One guarantee for a package the history has forgotten, on a free core. */
  lemma OneGuarantee(rho: Assignments, history: seq<seq<Hash>>, g: Guarantee, slot: nat)
    requires Acceptable(g) && g.core < CORE_COUNT && rho[g.core].None? && g.report.hash !in Flat(history)
    ensures GuaranteesStep(rho, [g], [], history, slot) == rho[g.core := Some(Assignment(g.report, slot))]
  {
    AssignEffect(rho, [g], slot, 0);
    AssignEffect(rho, [g], slot, 1);
  }

  /** `n` blocks that reported nothing. */
  function Silence(n: nat): seq<seq<Hash>> {
    seq(n, _ => [])
  }

  /** A full history after a report of `h` and `n` blocks without guarantees. */
  function Fading(h: Hash, n: nat): seq<seq<Hash>> {
    if n < MAX_HISTORY then Silence(MAX_HISTORY - 1 - n) + [[h]] + Silence(n) else Silence(MAX_HISTORY)
  }

  lemma FadingFirst(g: Guarantee)
    ensures NextHistory(Silence(MAX_HISTORY), [g]) == Fading(g.report.hash, 0)
  {
    var reported := ReportedHashes([g]);
    assert reported == [g.report.hash];
    assert Sorted(reported) == [g.report.hash];
  }

  lemma FadingStep(h: Hash, n: nat)
    ensures NextHistory(Fading(h, n), []) == Fading(h, n + 1)
  {
    assert Sorted(ReportedHashes([])) == [];
  }

  /** Report `g` at slot 1, then `n` rejecting blocks without guarantees. */
  function Idling(g: Guarantee, n: nat): seq<ImportBlock> {
    if n == 0 then [Rejecting(1, [g])] else Idling(g, n - 1) + [Rejecting(n + 1, [])]
  }

  /** Nothing assigned, queued or recently reported, behind a full history of blocks that reported nothing. */
  ghost predicate Blank(st: Chain) {
    st.timeslot == 0 == st.last && st.rho == [None, None] && Quiet(st.rings) && st.history == Silence(MAX_HISTORY)
  }

  /** The state these blocks lead to from a blank one. */
  function AfterIdling(st: Chain, g: Guarantee, n: nat): Chain {
    Chain(n + 1, n + 1, [Some(Assignment(g.report, 1)), None], st.rings, Fading(g.report.hash, n))
  }

  lemma FirstStep(st: Chain, g: Guarantee, validators: nat)
    requires Blank(st) && Acceptable(g) && g.core == 0
    ensures Importer(validators)(st, Rejecting(1, [g])) == AfterIdling(st, g, 0)
  {
    RejectingStep(st, 1, [g], validators);
    FlatNothing(st.history);
    OneGuarantee(st.rho, st.history, g, 1);
    FadingFirst(g);
  }

  lemma IdleStep(st: Chain, g: Guarantee, n: nat, validators: nat)
    requires Blank(st)
    ensures Importer(validators)(AfterIdling(st, g, n), Rejecting(n + 2, [])) == AfterIdling(st, g, n + 1)
  {
    RejectingStep(AfterIdling(st, g, n), n + 2, [], validators);
    FadingStep(g.report.hash, n);
  }

  /** The package sits on both cores. */
  ghost predicate OnBothCores(rho: Assignments, h: Hash) {
    && rho[0].Some? && rho[0].value.report.hash == h
    && rho[1].Some? && rho[1].value.report.hash == h
  }

  lemma BothIsNotApart(st: Chain, h: Hash)
    requires OnBothCores(st.rho, h)
    ensures Assigned(st.rho, h) && !Apart(st)
  {
    assert !CoresDistinct(st.rho);
  }

  /** Core 0 holds the report, core 1 is free, and the history has forgotten the report. */
  ghost predicate Forgotten(st: Chain, r: Report) {
    && Quiet(st.rings) && st.timeslot <= st.last && Flat(st.history) == []
    && st.rho[0].Some? && st.rho[0].value.report == r && st.rho[1].None?
  }

  lemma IdlingForgets(st: Chain, g: Guarantee, n: nat)
    requires Blank(st) && n >= MAX_HISTORY
    ensures Forgotten(AfterIdling(st, g, n), g.report)
  {
    FlatNothing(Fading(g.report.hash, n));
  }

  /** A guarantee of the same package for the other core; its report may have another anchor. */
  predicate Repeats(g: Guarantee, again: Guarantee) {
    Acceptable(again) && again.core == 1 && again.report.hash == g.report.hash
  }

  lemma RepeatStep(st: Chain, g: Guarantee, again: Guarantee, slot: nat, validators: nat)
    requires Forgotten(st, g.report) && st.last < slot && Repeats(g, again)
    ensures OnBothCores(Importer(validators)(st, Rejecting(slot, [again])).rho, g.report.hash)
  {
    RejectingStep(st, slot, [again], validators);
    OneGuarantee(st.rho, st.history, again, slot);
  }

  lemma {:induction false} IdlingRun(next: (Chain, ImportBlock) -> Chain, st: Chain, g: Guarantee, n: nat)
    requires next(st, Rejecting(1, [g])) == AfterIdling(st, g, 0)
    requires forall k: nat :: next(AfterIdling(st, g, k), Rejecting(k + 2, [])) == AfterIdling(st, g, k + 1)
    ensures RunWith(next, st, Idling(g, n)) == AfterIdling(st, g, n)
    decreases n
  {
    if n == 0 {
      RunAppend(next, st, [], Rejecting(1, [g]));
      assert [] + [Rejecting(1, [g])] == Idling(g, 0);
    } else {
      IdlingRun(next, st, g, n - 1);
      RunAppend(next, st, Idling(g, n - 1), Rejecting(n + 1, []));
    }
  }

  /** The idling run, and then a second guarantee. */
  function Forgetful(g: Guarantee, again: Guarantee, n: nat): seq<ImportBlock> {
    Idling(g, n) + [Rejecting(n + 2, [again])]
  }

  lemma {:induction false} IdlingSlots(g: Guarantee, n: nat)
    ensures |Idling(g, n)| == n + 1 && forall i | 0 <= i <= n :: Idling(g, n)[i].slot == i + 1
  {
    if n > 0 {
      IdlingSlots(g, n - 1);
    }
  }

  lemma ForgetfulSlots(g: Guarantee, again: Guarantee, n: nat, i: nat)
    requires i < |Forgetful(g, again, n)|
    ensures Forgetful(g, again, n)[i].slot == i + 1
  {
    IdlingSlots(g, n);
  }

  lemma ForgetfulRun(next: (Chain, ImportBlock) -> Chain, st: Chain, g: Guarantee, again: Guarantee, n: nat)
    requires next(st, Rejecting(1, [g])) == AfterIdling(st, g, 0)
    requires forall k: nat :: next(AfterIdling(st, g, k), Rejecting(k + 2, [])) == AfterIdling(st, g, k + 1)
    requires Forgotten(AfterIdling(st, g, n), g.report)
    requires forall s: Chain, slot: nat | Forgotten(s, g.report) && s.last < slot ::
               OnBothCores(next(s, Rejecting(slot, [again])).rho, g.report.hash)
    ensures OnBothCores(RunWith(next, st, Forgetful(g, again, n)).rho, g.report.hash)
  {
    IdlingRun(next, st, g, n);
    RunAppend(next, st, Idling(g, n), Rejecting(n + 2, [again]));
  }

  lemma IdleSteps(st: Chain, g: Guarantee, validators: nat)
    requires Blank(st)
    ensures forall k: nat ::
              Importer(validators)(AfterIdling(st, g, k), Rejecting(k + 2, [])) == AfterIdling(st, g, k + 1)
  {
    forall k: nat
      ensures Importer(validators)(AfterIdling(st, g, k), Rejecting(k + 2, [])) == AfterIdling(st, g, k + 1)
    {
      IdleStep(st, g, k, validators);
    }
  }

  /**
   * Without accepted assurances the claim fails: from a blank start, which is safe, after any eight or
   * more rejecting blocks a package still assigned to core 0 is assigned to core 1 as well, by any other
   * report of the same package.
   */
  lemma RejectedAssurancesForget(st: Chain, g: Guarantee, again: Guarantee, n: nat, validators: nat)
    requires Blank(st) && Acceptable(g) && g.core == 0 && n >= MAX_HISTORY
    requires Repeats(g, again)
    ensures OnBothCores(RunChain(st, Forgetful(g, again, n), validators).rho, g.report.hash)
  {
    FirstStep(st, g, validators);
    IdleSteps(st, g, validators);
    RepeatSteps(g, again, validators);
    IdlingForgets(st, g, n);
    ForgetfulRun(Importer(validators), st, g, again, n);
  }

  lemma RepeatSteps(g: Guarantee, again: Guarantee, validators: nat)
    requires Repeats(g, again)
    ensures forall s: Chain, slot: nat | Forgotten(s, g.report) && s.last < slot ::
              OnBothCores(Importer(validators)(s, Rejecting(slot, [again])).rho, g.report.hash)
  {
    forall s: Chain, slot: nat | Forgotten(s, g.report) && s.last < slot
      ensures OnBothCores(Importer(validators)(s, Rejecting(slot, [again])).rho, g.report.hash)
    {
      RepeatStep(s, g, again, slot, validators);
    }
  }

  lemma QuietApart(r: Rings)
    requires Quiet(r)
    ensures RingsApart(r)
  {
    QuietQueue(r, 0);
  }

  lemma BlankSafe(st: Chain)
    requires Blank(st)
    ensures Safe(st)
  {
    QuietApart(st.rings);
    forall c | 0 <= c < CORE_COUNT
      ensures st.rho[c].None?
    {
    }
    assert Remembered(st) && GasBounded(st);
  }
}
