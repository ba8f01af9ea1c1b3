/**
 * What a block makes of the two cores: when assurances and guarantees are accepted, which assignments a
 * block releases, and how long a report stays on its core. Conditions are written out on the block itself.
 */
module BlockCores {
  import opened Base
  import opened Queue
  import opened QueueRings
  import opened BlockImport
  import opened BlockSafety

  // ------------------------------------------------------------ assurances

  ghost predicate Sets(x: Assurance, c: nat) {
    c < |x.bits| && x.bits[c]
  }

  /** Anchored, signed by known validators in strictly rising order, and only for cores that hold a report. */
  ghost predicate ProperAssurances(rho: Assignments, xs: seq<Assurance>, validators: nat) {
    && (forall i | 0 <= i < |xs| :: xs[i].anchorOk && xs[i].signatureOk && xs[i].validator < validators)
    && (forall i, j | 0 <= i < j < |xs| :: xs[i].validator < xs[j].validator)
    && forall i, c | 0 <= i < |xs| && 0 <= c < 2 && Sets(xs[i], c) :: rho[c].Some?
  }

  /** The assurances step accepts exactly those. */
  lemma AcceptedIffProper(rho: Assignments, xs: seq<Assurance>, validators: nat)
    ensures AssurancesAccepted(rho, xs, validators) <==> ProperAssurances(rho, xs, validators)
  {
    if AssurancesAccepted(rho, xs, validators) {
      forall i | 0 <= i < |xs|
        ensures xs[i].anchorOk && xs[i].signatureOk && xs[i].validator < validators
        ensures i > 0 ==> xs[i - 1].validator < xs[i].validator
        ensures forall c | 0 <= c < 2 && Sets(xs[i], c) :: rho[c].Some?
      {
        assert AssuranceFault(rho, xs, validators, i) == None;
      }
      forall i, j | 0 <= i < j < |xs|
        ensures xs[i].validator < xs[j].validator
      {
        Rising(xs, i, j);
      }
    }
    if ProperAssurances(rho, xs, validators) {
      forall i | 0 <= i < |xs|
        ensures AssuranceFault(rho, xs, validators, i) == None
      {
      }
    }
  }

  lemma {:induction false} Rising(xs: seq<Assurance>, i: nat, j: nat)
    requires i < j < |xs| && forall k | 0 < k < |xs| :: xs[k - 1].validator < xs[k].validator
    ensures xs[i].validator < xs[j].validator
    decreases j
  {
    if i < j - 1 {
      Rising(xs, i, j - 1);
    }
  }

  ghost function Vouching(xs: seq<Assurance>, c: Core): set<nat> {
    set i | 0 <= i < |xs| && Sets(xs[i], c) :: xs[i].validator
  }

  /** More than two thirds of the validators vouch for the core. */
  ghost predicate Vouched(xs: seq<Assurance>, validators: nat, c: Core) {
    3 * |Vouching(xs, c)| > 2 * validators
  }

  lemma VouchingIsVouchers(xs: seq<Assurance>, c: Core)
    ensures Vouching(xs, c) == Vouchers(xs, c, |xs|)
  {
    assert forall i | 0 <= i < |xs| :: Sets(xs[i], c) <==> Bit(xs[i], c);
  }

  /** Which error rejected assurances are given: of the first one at fault, the first check that it fails. */
  lemma AssurancesRejectedWith(rho: Assignments, xs: seq<Assurance>, validators: nat, i: nat, e: AssuranceError)
    requires i < |xs| && AssuranceFault(rho, xs, validators, i) == Some(e)
    requires forall j | 0 <= j < i :: AssuranceFault(rho, xs, validators, j) == None
    ensures ProperAssurances(rho, xs[..i], validators) && !ProperAssurances(rho, xs[..i + 1], validators)
    ensures var x := xs[i];
            e == if !x.anchorOk then BadAttestationParent
                 else if x.validator >= validators then BadValidatorIndex
                 else if exists j :: 0 <= j < i && xs[j].validator >= x.validator then NotSortedOrUniqueAssurers
                 else if !x.signatureOk then BadSignature else CoreNotEngaged
  {
    PrefixFaults(rho, xs, validators, i);
    PrefixFaults(rho, xs, validators, i + 1);
    AcceptedIffProper(rho, xs[..i], validators);
    AcceptedIffProper(rho, xs[..i + 1], validators);
    assert AssuranceFault(rho, xs[..i + 1], validators, i).Some?;
    if i > 0 {
      assert xs[..i][i - 1] == xs[i - 1];
      assert forall j | 0 <= j < i :: xs[..i][j] == xs[j];
    }
  }

  lemma PrefixFaults(rho: Assignments, xs: seq<Assurance>, validators: nat, n: nat)
    requires n <= |xs|
    ensures forall j | 0 <= j < n ::
              AssuranceFault(rho, xs[..n], validators, j) == AssuranceFault(rho, xs, validators, j)
  {
  }

  /** The report on a core, if more than two thirds vouch for it. */
  ghost function VouchedReport(rho: Assignments, xs: seq<Assurance>, validators: nat, c: Core): seq<Report> {
    if rho[c].Some? && Vouched(xs, validators, c) then [rho[c].value.report] else []
  }

  /**
   * Exactly what the assurances step does: unless they are proper, nothing. Otherwise it reports what is
   * vouched for, core 0 first; a core is empty afterwards if and only if it was, or its report is vouched
   * for, or it is five slots old, and is unchanged if it is not.
   */
  lemma CoresAfterAssurances(rho: Assignments, xs: seq<Assurance>, validators: nat, slot: nat, c: Core)
    ensures var (reported, post) := AssurancesStep(rho, xs, validators, slot);
            if ProperAssurances(rho, xs, validators)
            then && reported == VouchedReport(rho, xs, validators, 0) + VouchedReport(rho, xs, validators, 1)
                 && (post[c].None? <==>
                       rho[c].None? || Vouched(xs, validators, c) || slot >= rho[c].value.timeout + 5)
                 && (post[c].Some? ==> post[c] == rho[c])
            else reported == [] && post == rho
  {
    AcceptedIffProper(rho, xs, validators);
    if ProperAssurances(rho, xs, validators) {
      AvailableMeansSuperMajority(rho, xs, validators, c);
      VouchingIsVouchers(xs, c);
      ReportedCores(rho, xs, validators);
    }
  }

  lemma ReportedCores(rho: Assignments, xs: seq<Assurance>, validators: nat)
    requires AssurancesAccepted(rho, xs, validators)
    ensures AvailableReports(rho, xs, validators, CORE_COUNT)
         == VouchedReport(rho, xs, validators, 0) + VouchedReport(rho, xs, validators, 1)
  {
    AvailableMeansSuperMajority(rho, xs, validators, 0);
    AvailableMeansSuperMajority(rho, xs, validators, 1);
    VouchingIsVouchers(xs, 0);
    VouchingIsVouchers(xs, 1);
    assert AvailableReports(rho, xs, validators, 1) == VouchedReport(rho, xs, validators, 0);
  }

  // ------------------------------------------------------------ a block

  /** The report on the core that no dispute of the block clears. */
  ghost predicate Stands(st: Chain, b: ImportBlock, c: Core) {
    st.rho[c].Some? && st.rho[c].value.report !in b.judged
  }

  ghost predicate BlockAssures(st: Chain, b: ImportBlock, validators: nat) {
    && ProperAssurances(st.rho, b.assurances, validators)
    && forall i, c | 0 <= i < |b.assurances| && 0 <= c < 2 && Sets(b.assurances[i], c) :: Stands(st, b, c)
  }

  /** The block takes this assignment off its core. */
  ghost predicate Releases(st: Chain, b: ImportBlock, validators: nat, c: Core, a: Assignment) {
    || a.report in b.judged
    || (BlockAssures(st, b, validators) && (Vouched(b.assurances, validators, c) || b.slot >= a.timeout + 5))
  }

  /** What is on the core when the guarantees are looked at. */
  ghost function Kept(st: Chain, b: ImportBlock, validators: nat, c: Core): Option<Assignment> {
    if st.rho[c].Some? && !Releases(st, b, validators, c, st.rho[c].value) then st.rho[c] else None
  }

  lemma KeptIsHeld(st: Chain, b: ImportBlock, validators: nat, c: Core)
    ensures HeldOver(st, b, validators)[c] == Kept(st, b, validators, c)
    ensures ProperAssurances(Unjudged(st.rho, b.judged), b.assurances, validators) <==> BlockAssures(st, b, validators)
  {
    var rho := Unjudged(st.rho, b.judged);
    assert forall d | 0 <= d < 2 :: rho[d].Some? <==> Stands(st, b, d);
    CoresAfterAssurances(rho, b.assurances, validators, b.slot, c);
  }

  /**
   * Guarantees for free cores in strictly rising order, with results of at most 10,000,000 gas, of packages
   * that are not accumulated, waiting, in recent history, or repeated.
   */
  ghost predicate ProperGuarantees(st: Chain, b: ImportBlock, validators: nat) {
    var gs := b.guarantees;
    && (forall i | 0 <= i < |gs| ::
          && gs[i].valid && gs[i].core < 2 && Kept(st, b, validators, gs[i].core).None?
          && gs[i].report.gas != [] && GasTotal(gs[i].report.gas) <= 10_000_000)
    && (forall i | 0 <= i < |gs| :: !Known(st, gs[i].report.hash))
    && (forall i, j | 0 <= i < j < |gs| :: gs[i].core < gs[j].core && gs[i].report.hash != gs[j].report.hash)
  }

  /** The package is in the accumulated ring, waiting, or reported by a block of the history. */
  ghost predicate Known(st: Chain, h: Hash) {
    || (exists b :: 0 <= b < EPOCH && h in st.rings.accumulated[b])
    || InReady(st.rings.ready, h)
    || exists k :: 0 <= k < |st.history| && h in st.history[k]
  }

  lemma GuaranteesAcceptedIff(st: Chain, b: ImportBlock, validators: nat)
    ensures GuaranteesAccepted(HeldOver(st, b, validators), b.guarantees, KnownPackages(st.rings), st.history)
       <==> ProperGuarantees(st, b, validators)
  {
    KeptIsHeld(st, b, validators, 0);
    KeptIsHeld(st, b, validators, 1);
    forall h
      ensures Known(st, h) <==> h in KnownPackages(st.rings) || h in Flat(st.history)
    {
      KnownMeaning(st.rings, h);
      FlatMeaning(st.rings.accumulated, h);
      FlatMeaning(st.history, h);
    }
  }

  /** The gas of a report is the sum over its results. */
  lemma {:induction false} GasTotalLaw(g: u64, gas: seq<u64>)
    ensures GasTotal([g] + gas) == g + GasTotal(gas) && GasTotal([]) == 0
    decreases |gas|
  {
    if gas == [] {
      assert [g] + gas == [g];
      assert [g][..0] == [];
    } else {
      var init := gas[..|gas| - 1];
      GasTotalLaw(g, init);
      assert ([g] + gas)[..|gas|] == [g] + init;
    }
  }

  ghost function PackagesOf(gs: seq<Guarantee>): seq<Hash> {
    seq(|gs|, i requires 0 <= i < |gs| => gs[i].report.hash)
  }

  /** One more block of packages behind the history, which forgets its oldest when it held eight. */
  ghost predicate Remembers(before: seq<seq<Hash>>, after: seq<seq<Hash>>, packages: seq<Hash>) {
    && after != []
    && after[..|after| - 1] == (if |before| < 8 then before else before[|before| - 7..])
    && Ascending(after[|after| - 1]) && multiset(after[|after| - 1]) == multiset(packages)
  }

  lemma HistoryLaw(history: seq<seq<Hash>>, gs: seq<Guarantee>)
    ensures Remembers(history, NextHistory(history, gs), PackagesOf(gs))
  {
    SortedMeaning(ReportedHashes(gs));
    assert ReportedHashes(gs) == PackagesOf(gs);
  }

  /** The history gains the packages a block reports, accepted or not, in ascending order. */
  lemma HistoryAfter(st: Chain, b: ImportBlock, validators: nat)
    requires Extends(st, b)
    ensures Remembers(st.history, Imported(st, b, validators).history, PackagesOf(b.guarantees))
  {
    HistoryLaw(st.history, b.guarantees);
  }

  /** Exactly what a block leaves on a core: the report it guarantees there, or what it does not release. */
  lemma CoreAfterBlock(st: Chain, b: ImportBlock, validators: nat, c: Core)
    requires Extends(st, b)
    ensures var post := Imported(st, b, validators).rho; var gs := b.guarantees;
            if ProperGuarantees(st, b, validators) && exists i :: 0 <= i < |gs| && gs[i].core == c
            then exists i :: 0 <= i < |gs| && gs[i].core == c && post[c] == Some(Assignment(gs[i].report, b.slot))
            else post[c] == Kept(st, b, validators, c)
  {
    var held, gs := HeldOver(st, b, validators), b.guarantees;
    GuaranteesAcceptedIff(st, b, validators);
    KeptIsHeld(st, b, validators, c);
    if ProperGuarantees(st, b, validators) {
      AssignEffect(held, gs, b.slot, c);
      if exists i :: 0 <= i < |gs| && gs[i].core == c {
        var i :| 0 <= i < |gs| && gs[i].core == c;
        assert Assign(held, gs, b.slot)[c] == Some(Assignment(gs[i].report, b.slot));
      }
    }
  }

  /** What a block makes available: the reports that stand and are vouched for, core 0 first. */
  lemma AvailableAfterBlock(st: Chain, b: ImportBlock, validators: nat)
    ensures AvailableIn(st, b, validators)
         == if !BlockAssures(st, b, validators) then []
            else (if Stands(st, b, 0) then VouchedReport(st.rho, b.assurances, validators, 0) else [])
                 + if Stands(st, b, 1) then VouchedReport(st.rho, b.assurances, validators, 1) else []
  {
    KeptIsHeld(st, b, validators, 0);
    CoresAfterAssurances(Unjudged(st.rho, b.judged), b.assurances, validators, b.slot, 0);
  }

  // ------------------------------------------------------------ runs

  /** No imported block of the run releases the assignment. */
  ghost predicate NeverReleased(st: Chain, bs: seq<ImportBlock>, validators: nat, c: Core, a: Assignment) {
    bs != [] ==>
      var before, b := RunChain(st, bs[..|bs| - 1], validators), bs[|bs| - 1];
      && (Extends(before, b) ==> !Releases(before, b, validators, c, a))
      && NeverReleased(st, bs[..|bs| - 1], validators, c, a)
  }

  lemma StepKeeps(st: Chain, b: ImportBlock, validators: nat, c: Core, a: Assignment)
    requires a.timeout <= st.last
    ensures NextChain(st, b, validators).rho[c] == Some(a)
       <==> st.rho[c] == Some(a) && (Extends(st, b) ==> !Releases(st, b, validators, c, a))
    ensures st.last <= NextChain(st, b, validators).last
  {
    if Extends(st, b) {
      CoreAfterBlock(st, b, validators, c);
    }
  }

  /**
   * A report stays on its core, with the slot it was assigned at, until an imported block judges it, or has
   * proper assurances that vouch for it or find it five slots old; and it is never put back as it was.
   */
  lemma {:induction false} AssignmentStaysIff(
    st: Chain, bs: seq<ImportBlock>, validators: nat, c: Core, a: Assignment)
    requires st.rho[c] == Some(a) && a.timeout <= st.last
    ensures RunChain(st, bs, validators).rho[c] == Some(a) <==> NeverReleased(st, bs, validators, c, a)
    ensures st.last <= RunChain(st, bs, validators).last
    decreases |bs|
  {
    if bs != [] {
      var init, b := bs[..|bs| - 1], bs[|bs| - 1];
      AssignmentStaysIff(st, init, validators, c, a);
      LastOfRun(st, bs, validators);
      StepKeeps(RunChain(st, init, validators), b, validators, c, a);
    }
  }
}
