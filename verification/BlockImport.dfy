/**
 * The block step that moves a work package from its core assignment to the waiting queue to the
 * accumulated ring, and why no package is ever in two of these places.
 */
module BlockImport {
  import opened Base
  import opened Queue
  import opened QueueRings

  const CORE_COUNT: nat := 2
  const ASSURANCE_TIMEOUT: nat := 5
  const MAX_HISTORY: nat := 8
  const REPORT_ACC_GAS: nat := 10_000_000

  type Core = c: nat | c < CORE_COUNT

  /** A report rho to a core, and the slot of the block that assigned it. */
  datatype Assignment = Assignment(report: Report, timeout: nat)

  type Assignments = r: seq<Option<Assignment>> | |r| == CORE_COUNT witness [None, None]

  /** An availability assurance; anchor and signature checks are given by their outcome. */
  datatype Assurance = Assurance(anchorOk: bool, validator: nat, signatureOk: bool, bits: seq<bool>)

  /** A guarantee; `valid` is the outcome of the checks that queueing does not depend on. */
  datatype Guarantee = Guarantee(report: Report, core: nat, valid: bool)

  datatype ImportBlock = ImportBlock(
    slot: nat, ticketsOk: bool, judged: set<Report>, assurances: seq<Assurance>, guarantees: seq<Guarantee>)

  /** The chapters involved; `last` is the slot of the last imported block, which `timeslot` may lag. */
  datatype Chain = Chain(timeslot: nat, last: nat, rho: Assignments, rings: Rings, history: seq<seq<Hash>>)

  // ------------------------------------------------------------ assurances

  datatype AssuranceError =
    | BadAttestationParent | BadValidatorIndex | NotSortedOrUniqueAssurers | BadSignature | CoreNotEngaged

  function Bit(a: Assurance, core: nat): bool {
    core < |a.bits| && a.bits[core]
  }

  /** The check the `i`-th assurance fails first, if any. */
  function AssuranceFault(rho: Assignments, xs: seq<Assurance>, validators: nat, i: nat): Option<AssuranceError>
    requires i < |xs|
  {
    var a := xs[i];
    if !a.anchorOk then Some(BadAttestationParent)
    else if a.validator >= validators then Some(BadValidatorIndex)
    else if i > 0 && a.validator <= xs[i - 1].validator then Some(NotSortedOrUniqueAssurers)
    else if !a.signatureOk then Some(BadSignature)
    else if exists core | 0 <= core < CORE_COUNT :: Bit(a, core) && rho[core].None? then Some(CoreNotEngaged)
    else None
  }

  predicate AssurancesAccepted(rho: Assignments, xs: seq<Assurance>, validators: nat) {
    forall i | 0 <= i < |xs| :: AssuranceFault(rho, xs, validators, i) == None
  }

  /** Assurances among the first `n` that set the core's bit. */
  function Tally(xs: seq<Assurance>, core: nat, n: nat): nat
    requires n <= |xs|
  {
    if n == 0 then 0 else Tally(xs, core, n - 1) + if Bit(xs[n - 1], core) then 1 else 0
  }

  predicate Available(rho: Assignments, xs: seq<Assurance>, validators: nat, core: Core) {
    rho[core].Some? && 3 * Tally(xs, core, |xs|) > 2 * validators
  }

  predicate Stale(rho: Assignments, slot: nat, core: Core) {
    rho[core].Some? && slot >= rho[core].value.timeout + ASSURANCE_TIMEOUT
  }

  /** Reports made available on the first `n` cores. */
  function AvailableReports(rho: Assignments, xs: seq<Assurance>, validators: nat, n: nat): seq<Report>
    requires n <= CORE_COUNT
  {
    if n == 0 then []
    else AvailableReports(rho, xs, validators, n - 1)
         + if Available(rho, xs, validators, n - 1) then [rho[n - 1].value.report] else []
  }

  /** Assignments left after availability and timeout. */
  function Remaining(rho: Assignments, xs: seq<Assurance>, validators: nat, slot: nat): Assignments {
    seq(CORE_COUNT, c requires 0 <= c < CORE_COUNT =>
      if Available(rho, xs, validators, c) || Stale(rho, slot, c) then None else rho[c])
  }

  /** What the assurances step yields: available reports and assignments; rejection changes nothing. */
  function AssurancesStep(rho: Assignments, xs: seq<Assurance>, validators: nat, slot: nat)
    : (seq<Report>, Assignments)
  {
    if AssurancesAccepted(rho, xs, validators)
    then (AvailableReports(rho, xs, validators, CORE_COUNT), Remaining(rho, xs, validators, slot))
    else ([], rho)
  }

  method RunAssurances(rho: Assignments, xs: seq<Assurance>, validators: nat, slot: nat)
    returns (fault: Option<AssuranceError>, reported: seq<Report>, post: Assignments)
    ensures fault == None <==> AssurancesAccepted(rho, xs, validators)
    ensures fault.Some? ==> exists i :: 0 <= i < |xs| && fault == AssuranceFault(rho, xs, validators, i)
                                        && forall j | 0 <= j < i :: AssuranceFault(rho, xs, validators, j) == None
    ensures (reported, post) == AssurancesStep(rho, xs, validators, slot)
  {
    var counts: seq<nat> := seq(CORE_COUNT, _ => 0);
    var i := 0;
    while i < |xs|
      invariant 0 <= i <= |xs| && |counts| == CORE_COUNT
      invariant forall j | 0 <= j < i :: AssuranceFault(rho, xs, validators, j) == None
      invariant forall c | 0 <= c < CORE_COUNT :: counts[c] == Tally(xs, c, i)
    {
      fault := AssuranceFault(rho, xs, validators, i);
      if fault.Some? {
        return fault, [], rho;
      }
      counts := [counts[0] + (if Bit(xs[i], 0) then 1 else 0), counts[1] + if Bit(xs[i], 1) then 1 else 0];
      i := i + 1;
    }
    fault, reported, post := None, [], rho;
    var core := 0;
    while core < CORE_COUNT
      invariant 0 <= core <= CORE_COUNT
      invariant reported == AvailableReports(rho, xs, validators, core)
      invariant forall c | 0 <= c < CORE_COUNT ::
                  post[c] == if c < core then Remaining(rho, xs, validators, slot)[c] else rho[c]
    {
      if rho[core].Some? {
        if 3 * counts[core] > 2 * validators {
          reported := reported + [rho[core].value.report];
          post := post[core := None];
        } else if slot >= rho[core].value.timeout + ASSURANCE_TIMEOUT {
          post := post[core := None];
        }
      }
      core := core + 1;
    }
    assert post == Remaining(rho, xs, validators, slot);
  }

  /** Validators among the first `n` assurances that vouch for the core. */
  ghost function Vouchers(xs: seq<Assurance>, core: nat, n: nat): set<nat>
    requires n <= |xs|
  {
    set i | 0 <= i < n && Bit(xs[i], core) :: xs[i].validator
  }

  lemma VouchersStep(xs: seq<Assurance>, core: nat, n: nat)
    requires 0 < n <= |xs|
    ensures Vouchers(xs, core, n)
         == Vouchers(xs, core, n - 1) + if Bit(xs[n - 1], core) then {xs[n - 1].validator} else {}
  {
  }

  lemma {:induction false} TallyCountsValidators(xs: seq<Assurance>, core: nat, n: nat)
    requires n <= |xs| && forall i | 0 < i < |xs| :: xs[i - 1].validator < xs[i].validator
    ensures |Vouchers(xs, core, n)| == Tally(xs, core, n)
    ensures forall v | v in Vouchers(xs, core, n) :: n > 0 && v <= xs[n - 1].validator
  {
    if n > 0 {
      TallyCountsValidators(xs, core, n - 1);
      VouchersStep(xs, core, n);
      assert n > 1 ==> xs[n - 2].validator < xs[n - 1].validator;
    }
  }

  /** In accepted assurances a report is available exactly when more than two thirds of distinct validators vouch. */
  lemma AvailableMeansSuperMajority(rho: Assignments, xs: seq<Assurance>, validators: nat, core: Core)
    requires AssurancesAccepted(rho, xs, validators)
    ensures Available(rho, xs, validators, core)
       <==> rho[core].Some? && 3 * |Vouchers(xs, core, |xs|)| > 2 * validators
    ensures forall v | v in Vouchers(xs, core, |xs|) :: v < validators
  {
    forall i | 0 < i < |xs|
      ensures xs[i - 1].validator < xs[i].validator
    {
      assert AssuranceFault(rho, xs, validators, i) == None;
    }
    TallyCountsValidators(xs, core, |xs|);
    forall v | v in Vouchers(xs, core, |xs|)
      ensures v < validators
    {
      var i :| 0 <= i < |xs| && Bit(xs[i], core) && xs[i].validator == v;
      assert AssuranceFault(rho, xs, validators, i) == None;
    }
  }

  // ------------------------------------------------------------ guarantees

  function GasTotal(gas: seq<u64>): nat {
    if gas == [] then 0 else GasTotal(gas[..|gas| - 1]) + gas[|gas| - 1]
  }

  /** Work packages already accumulated or waiting. */
  function KnownPackages(rings: Rings): seq<Hash> {
    Flat(rings.accumulated) + PendingHashes(ReadyUpTo(rings.ready, 0, EPOCH))
  }

  /** The guarantees step accepts: ordered, free cores, results with gas in bounds, and no package seen before. */
  predicate GuaranteesAccepted(rho: Assignments, gs: seq<Guarantee>, known: seq<Hash>, history: seq<seq<Hash>>) {
    && (forall i | 0 <= i < |gs| ::
          && gs[i].valid && gs[i].core < CORE_COUNT && rho[gs[i].core].None?
          && gs[i].report.gas != [] && GasTotal(gs[i].report.gas) <= REPORT_ACC_GAS
          && gs[i].report.hash !in known
          && gs[i].report.hash !in Flat(history))
    && (forall i, j | 0 <= i < j < |gs| :: gs[i].core < gs[j].core && gs[i].report.hash != gs[j].report.hash)
  }

  /** Writes each accepted report to its core. */
  function Assign(rho: Assignments, gs: seq<Guarantee>, slot: nat): Assignments {
    if gs == [] then rho
    else
      var before, g := Assign(rho, gs[..|gs| - 1], slot), gs[|gs| - 1];
      if g.core < CORE_COUNT then before[g.core := Some(Assignment(g.report, slot))] else before
  }

  function GuaranteesStep(rho: Assignments, gs: seq<Guarantee>, known: seq<Hash>, history: seq<seq<Hash>>, slot: nat)
    : Assignments
  {
    if GuaranteesAccepted(rho, gs, known, history) then Assign(rho, gs, slot) else rho
  }

  /** Ordering and per-guarantee checks, then the search for duplicates, as the code orders them. */
  method CheckGuarantees(rho: Assignments, gs: seq<Guarantee>, known: seq<Hash>, history: seq<seq<Hash>>)
    returns (ok: bool)
    ensures ok == GuaranteesAccepted(rho, gs, known, history)
  {
    var i := 0;
    while i < |gs|
      invariant 0 <= i <= |gs|
      invariant forall j | 0 <= j < i :: gs[j].core < CORE_COUNT && gs[j].valid && rho[gs[j].core].None?
                                         && gs[j].report.gas != [] && GasTotal(gs[j].report.gas) <= REPORT_ACC_GAS
      invariant forall j, k | 0 <= j < k < i :: gs[j].core < gs[k].core
    {
      if gs[i].core >= CORE_COUNT || (i > 0 && gs[i].core <= gs[i - 1].core) {
        return false;
      }
      if !gs[i].valid || gs[i].report.gas == [] || rho[gs[i].core].Some? {
        return false;
      }
      if GasTotal(gs[i].report.gas) > REPORT_ACC_GAS {
        return false;
      }
      i := i + 1;
    }
    i := 0;
    while i < |gs|
      invariant 0 <= i <= |gs|
      invariant forall j | 0 <= j < i :: gs[j].report.hash !in known && gs[j].report.hash !in Flat(history)
      invariant forall j, k | 0 <= j < k < i :: gs[j].report.hash != gs[k].report.hash
    {
      if exists j | 0 <= j < i :: gs[j].report.hash == gs[i].report.hash {
        return false;
      }
      if gs[i].report.hash in known || gs[i].report.hash in Flat(history) {
        return false;
      }
      i := i + 1;
    }
    return true;
  }

  method RunGuarantees(rho: Assignments, gs: seq<Guarantee>, known: seq<Hash>, history: seq<seq<Hash>>, slot: nat)
    returns (post: Assignments)
    ensures post == GuaranteesStep(rho, gs, known, history, slot)
  {
    post := rho;
    var ok := CheckGuarantees(rho, gs, known, history);
    if !ok {
      return;
    }
    var i := 0;
    while i < |gs|
      invariant 0 <= i <= |gs|
      invariant post == Assign(rho, gs[..i], slot)
    {
      assert gs[..i + 1][..i] == gs[..i];
      post := post[gs[i].core := Some(Assignment(gs[i].report, slot))];
      i := i + 1;
    }
    assert gs[..i] == gs;
  }

  function ReportedHashes(gs: seq<Guarantee>): (hs: seq<Hash>)
    ensures |hs| == |gs| && forall i | 0 <= i < |gs| :: hs[i] == gs[i].report.hash
  {
    Hashes(seq(|gs|, i requires 0 <= i < |gs| => gs[i].report))
  }

  /** The history keeps the packages reported by the last eight blocks, whether or not they were accepted. */
  function NextHistory(history: seq<seq<Hash>>, gs: seq<Guarantee>): seq<seq<Hash>> {
    var longer := history + [Sorted(ReportedHashes(gs))];
    if |longer| > MAX_HISTORY then longer[|longer| - MAX_HISTORY..] else longer
  }

  // ------------------------------------------------------------ the block step

  /** Assignments left after reports judged bad or wonky are cleared. */
  function Unjudged(rho: Assignments, judged: set<Report>): Assignments {
    seq(CORE_COUNT, c requires 0 <= c < CORE_COUNT =>
      if rho[c].Some? && rho[c].value.report in judged then None else rho[c])
  }

  /** A block can be imported when its slot is ahead of everything recorded. */
  ghost predicate Extends(st: Chain, b: ImportBlock) {
    st.timeslot <= st.last < b.slot
  }

  function AvailableIn(st: Chain, b: ImportBlock, validators: nat): seq<Report> {
    AssurancesStep(Unjudged(st.rho, b.judged), b.assurances, validators, b.slot).0
  }

  function HeldOver(st: Chain, b: ImportBlock, validators: nat): Assignments {
    AssurancesStep(Unjudged(st.rho, b.judged), b.assurances, validators, b.slot).1
  }

  /** Successive updates of the posterior state, in the order of the subsystems. */
  method Import(pre: Chain, b: ImportBlock, validators: nat) returns (post: Chain)
    requires Extends(pre, b)
    ensures post == Imported(pre, b, validators)
  {
    post := pre;
    post := post.(last := b.slot);
    if b.ticketsOk {
      post := post.(timeslot := b.slot);
    }
    var unjudged := Unjudged(pre.rho, b.judged);
    var fault, reported, heldOver := RunAssurances(unjudged, b.assurances, validators, b.slot);
    var rho := RunGuarantees(heldOver, b.guarantees, KnownPackages(pre.rings), pre.history, b.slot);
    post := post.(rho := rho);
    var taken, rings := ComputeAdvance(b.slot, pre.timeslot, pre.rings, reported);
    post := post.(rings := rings);
    post := post.(history := NextHistory(pre.history, b.guarantees));
  }

  function Imported(st: Chain, b: ImportBlock, validators: nat): Chain
    requires st.timeslot <= b.slot
  {
    Chain(
      if b.ticketsOk then b.slot else st.timeslot,
      b.slot,
      GuaranteesStep(HeldOver(st, b, validators), b.guarantees, KnownPackages(st.rings), st.history, b.slot),
      Advance(b.slot, st.timeslot, st.rings, AvailableIn(st, b, validators)),
      NextHistory(st.history, b.guarantees))
  }
}
