/** Who runs when in a block: services in their order, then each round's destinations in ascending order. */
module ServiceRounds {
  import opened Base
  import opened ServiceIds
  import opened ServiceState
  import opened ServiceRun
  import opened ServiceSupply

  // ------------------------------------------------------------ services

  lemma {:induction false} ServicesConcat(
    c: Ctx, deferred: seq<Transfer>, a: seq<u32>, b: seq<u32>, g: Guests, slot: u32)
    ensures var (d, ts) := RunServices(c, deferred, a, g, slot);
            RunServices(c, deferred, a + b, g, slot) == RunServices(d, ts, b, g, slot)
    decreases |a|
  {
    if a == [] {
      assert a + b == b;
    } else {
      var v := Invoke(c, CodeOf(c, g, 0, a[0]), a[0], slot, g.seed(a[0]));
      assert (a + b)[1..] == a[1..] + b;
      ServicesConcat(v.ctx, deferred + v.transfers, a[1..], b, g, slot);
    }
  }

  /**
   * Service `i` runs in the state that the services before it left, with the code of its account or, without
   * one, none at all; what it defers comes after what they deferred.
   */
  lemma ServicesInOrder(c: Ctx, services: seq<u32>, i: nat, g: Guests, slot: u32)
    requires i < |services|
    ensures var (d, ts) := RunServices(c, [], services[..i], g, slot); var s := services[i];
            var script := if s in d.accounts then g.script(0, s) else Unloadable;
            var v := Invoke(d, script, s, slot, g.seed(s));
            RunServices(c, [], services[..i + 1], g, slot) == (v.ctx, ts + v.transfers)
  {
    assert services[..i + 1] == services[..i] + [services[i]];
    ServicesConcat(c, [], services[..i], [services[i]], g, slot);
    assert [services[i]][1..] == [];
  }

  // ------------------------------------------------------------ destinations

  ghost predicate StrictlyAscending(ds: seq<u32>) {
    forall i, j | 0 <= i < j < |ds| :: ds[i] < ds[j]
  }

  ghost predicate Lists(ds: seq<u32>, groups: map<u32, seq<Transfer>>) {
    StrictlyAscending(ds) && forall d :: d in ds <==> d in groups
  }

  /** The state after crediting an account with the sum of some transfers. */
  ghost function Credited(c: Ctx, d: u32, ts: seq<Transfer>): Ctx
    requires d in c.accounts
  {
    c.(accounts := c.accounts[d := c.accounts[d].(balance := c.accounts[d].balance + Amount(ts))])
  }

  /** Destinations are served in turn: credited and run with what the account has for code, or burnt. */
  ghost function InTurn(
    r: RoundOut, ds: seq<u32>, groups: map<u32, seq<Transfer>>, g: Guests, round: nat, slot: u32): RoundOut
    requires forall d | d in ds :: d in groups
    decreases |ds|
  {
    if ds == [] then r
    else
      var before, d := InTurn(r, ds[..|ds| - 1], groups, g, round, slot), ds[|ds| - 1];
      if d !in before.ctx.accounts then before.(burnt := before.burnt + groups[d])
      else
        var v := Invoke(Credited(before.ctx, d, groups[d]), g.script(round, d), d, slot, g.seed(d));
        RoundOut(v.ctx, before.emitted + v.transfers, before.burnt)
  }

  lemma {:induction false} InTurnFirst(
    r: RoundOut, ds: seq<u32>, groups: map<u32, seq<Transfer>>, g: Guests, round: nat, slot: u32)
    requires ds != [] && forall d | d in ds :: d in groups
    ensures InTurn(r, ds, groups, g, round, slot)
         == InTurn(InTurn(r, ds[..1], groups, g, round, slot), ds[1..], groups, g, round, slot)
    decreases |ds|
  {
    if |ds| == 1 {
      assert ds[..1] == ds;
    } else {
      var init := ds[..|ds| - 1];
      InTurnFirst(r, init, groups, g, round, slot);
      assert init[..1] == ds[..1] && ds[1..][..|ds| - 2] == init[1..];
    }
  }

  lemma {:induction false} OtherGroupsUnused(
    r: RoundOut, ds: seq<u32>, a: map<u32, seq<Transfer>>, b: map<u32, seq<Transfer>>, g: Guests, round: nat, slot: u32)
    requires forall d | d in ds :: d in a && d in b && a[d] == b[d]
    ensures InTurn(r, ds, a, g, round, slot) == InTurn(r, ds, b, g, round, slot)
    decreases |ds|
  {
    if ds != [] {
      OtherGroupsUnused(r, ds[..|ds| - 1], a, b, g, round, slot);
    }
  }

  lemma DeliverFirst(r: RoundOut, d: u32, groups: map<u32, seq<Transfer>>, g: Guests, round: nat, slot: u32)
    requires d in groups
    ensures var o := Deliver(r.ctx, d, groups[d], g, round, slot);
            InTurn(r, [d], groups, g, round, slot) == RoundOut(o.ctx, r.emitted + o.emitted, r.burnt + o.burnt)
  {
    assert [d][..0] == [];
    assert r.emitted + [] == r.emitted && r.burnt + [] == r.burnt;
  }

  /** A round serves exactly the destinations of its transfers, each once, in ascending order. */
  lemma {:induction false} RoundInTurn(
    r: RoundOut, ds: seq<u32>, groups: map<u32, seq<Transfer>>, g: Guests, round: nat, slot: u32)
    requires Lists(ds, groups)
    ensures Round(r, groups, g, round, slot) == InTurn(r, ds, groups, g, round, slot)
    decreases |ds|
  {
    if ds == [] {
      NothingListed(groups);
    } else {
      var d, rest := ds[0], groups - {ds[0]};
      FirstIsLeast(ds, groups);
      DeliverFirst(r, d, groups, g, round, slot);
      var next := InTurn(r, [d], groups, g, round, slot);
      RoundInTurn(next, ds[1..], rest, g, round, slot);
      OtherGroupsUnused(next, ds[1..], rest, groups, g, round, slot);
      InTurnFirst(r, ds, groups, g, round, slot);
      assert ds[..1] == [d];
    }
  }

  lemma NothingListed(groups: map<u32, seq<Transfer>>)
    requires Lists([], groups)
    ensures groups.Keys == {}
  {
    assert forall d: u32 :: d in groups ==> d in [];
  }

  lemma FirstIsLeast(ds: seq<u32>, groups: map<u32, seq<Transfer>>)
    requires ds != [] && Lists(ds, groups)
    ensures groups.Keys != {} && LeastKey(groups.Keys) == ds[0] && Lists(ds[1..], groups - {ds[0]})
  {
    assert ds[0] in groups.Keys;
    var k := LeastKey(groups.Keys);
    assert k in ds;
    forall d
      ensures d in ds[1..] <==> d in groups - {ds[0]}
    {
      assert d in ds <==> d in [ds[0]] + ds[1..] by {
        assert ds == [ds[0]] + ds[1..];
      }
    }
  }

  /** These are the transfers, by destination and in order of emission. */
  ghost predicate Sorted(sent: map<u32, seq<Transfer>>, ts: seq<Transfer>) {
    forall d: u32 :: (d in sent <==> ForDest(ts, d) != []) && (d in sent ==> sent[d] == ForDest(ts, d))
  }

  /** The next round delivers the transfers that the last one emitted. */
  lemma NextRoundInTurn(r: RoundOut, ds: seq<u32>, sent: map<u32, seq<Transfer>>, g: Guests, round: nat, slot: u32)
    requires Sorted(sent, r.emitted) && Lists(ds, sent)
    requires r.emitted != [] && round < 16
    ensures Rounds(r, g, round, slot)
         == Rounds(InTurn(RoundOut(r.ctx, [], r.burnt), ds, sent, g, round + 1, slot), g, round + 1, slot)
  {
    forall d: u32
      ensures d in Group(r.emitted) <==> d in sent
      ensures d in sent ==> Group(r.emitted)[d] == sent[d]
    {
      GroupMeaning(r.emitted, d);
    }
    assert sent == Group(r.emitted);
    RoundInTurn(RoundOut(r.ctx, [], r.burnt), ds, sent, g, round + 1, slot);
  }

  /** Rounds end when nothing is outstanding, or after the sixteenth. */
  lemma RoundsEnd(r: RoundOut, g: Guests, slot: u32)
    ensures Rounds(r, g, 16, slot) == r
    ensures r.emitted == [] ==> forall round :: Rounds(r, g, round, slot) == r
  {
  }
}
