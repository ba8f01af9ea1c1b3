/**
 * Report queueing: dependency editing, the priority order of reports that can be accumulated, the
 * gas cut, and the two 12-bucket rings of waiting and of accumulated packages.
 * A 32-byte hash is read as a big-endian number, which keeps its byte order.
 */
module Queue {
  import opened Base

  type Hash = nat

  const BLOCK_ACC_GAS: int := 20_000_000

  /** The fields of a work report that queueing consults; `gas` lists its results' accumulation gas. */
  datatype Report = Report(hash: Hash, prerequisites: seq<Hash>, lookups: seq<Hash>, gas: seq<u64>)

  /** A waiting report and its outstanding dependencies. */
  datatype Pending = Pending(report: Report, deps: seq<Hash>)

  function Dependencies(r: Report): seq<Hash> {
    r.prerequisites + r.lookups
  }

  function Hashes(rs: seq<Report>): (hs: seq<Hash>)
    ensures |hs| == |rs| && forall i | 0 <= i < |rs| :: hs[i] == rs[i].hash
  {
    seq(|rs|, i requires 0 <= i < |rs| => rs[i].hash)
  }

  /** The elements of `hs` that are not in `out`, in order. */
  function Without(hs: seq<Hash>, out: seq<Hash>): (r: seq<Hash>)
    ensures forall h :: h in r <==> h in hs && h !in out
  {
    if hs == [] then []
    else if hs[0] in out then Without(hs[1..], out)
    else [hs[0]] + Without(hs[1..], out)
  }

  /** Queue editing: drops reports already accumulated, and drops resolved dependencies. */
  function Edit(ps: seq<Pending>, acc: seq<Hash>): (r: seq<Pending>)
    ensures |r| <= |ps|
  {
    if ps == [] then []
    else
      var rest := Edit(ps[1..], acc);
      if ps[0].report.hash in acc then rest else [Pending(ps[0].report, Without(ps[0].deps, acc))] + rest
  }

  /** What editing leaves of one entry. */
  function Edited(p: Pending, acc: seq<Hash>): Pending {
    Pending(p.report, Without(p.deps, acc))
  }

  /** Exactly the entries whose report is not accumulated survive, each with its unresolved dependencies. */
  lemma {:induction false} EditMeaning(ps: seq<Pending>, acc: seq<Hash>, e: Pending)
    ensures e in Edit(ps, acc) <==> exists p :: p in ps && p.report.hash !in acc && e == Edited(p, acc)
    decreases |ps|
  {
    if ps != [] {
      EditMeaning(ps[1..], acc, e);
      if exists p :: p in ps && p.report.hash !in acc && e == Edited(p, acc) {
        var p :| p in ps && p.report.hash !in acc && e == Edited(p, acc);
        assert p == ps[0] || p in ps[1..];
      }
      if e in Edit(ps[1..], acc) {
        var p :| p in ps[1..] && p.report.hash !in acc && e == Edited(p, acc);
        assert p in ps;
      }
    }
  }

  /** The reports without outstanding dependencies. */
  function ReadyOf(ps: seq<Pending>): seq<Report> {
    if ps == [] then []
    else if ps[0].deps == [] then [ps[0].report] + ReadyOf(ps[1..])
    else ReadyOf(ps[1..])
  }

  lemma {:induction false} ReadyMeaning(ps: seq<Pending>, r: Report)
    ensures r in ReadyOf(ps) <==> Pending(r, []) in ps
    decreases |ps|
  {
    if ps != [] {
      ReadyMeaning(ps[1..], r);
      assert ps == [ps[0]] + ps[1..];
    }
  }

  lemma {:induction false} EditShrinks(ps: seq<Pending>, acc: seq<Hash>, p: Pending)
    requires p in ps && p.report.hash in acc
    ensures |Edit(ps, acc)| < |ps|
    decreases |ps|
  {
    if p != ps[0] {
      EditShrinks(ps[1..], acc, p);
    }
  }

  lemma ReadyShrinks(ps: seq<Pending>)
    requires ReadyOf(ps) != []
    ensures |Edit(ps, Hashes(ReadyOf(ps)))| < |ps|
  {
    var x := ReadyOf(ps)[0];
    ReadyMeaning(ps, x);
    assert Hashes(ReadyOf(ps))[0] == x.hash;
    EditShrinks(ps, Hashes(ReadyOf(ps)), Pending(x, []));
  }

  /** The reports that can be accumulated, in dependency order. */
  function Priority(ps: seq<Pending>): seq<Report>
    decreases |ps|
  {
    var ready := ReadyOf(ps);
    if ready == [] then []
    else
      ReadyShrinks(ps);
      ready + Priority(Edit(ps, Hashes(ready)))
  }

  // ------------------------------------------------------------ topological order

  /** `r` stands for an entry of `ps` all of whose dependencies are in `done`. */
  ghost predicate Unlocked(ps: seq<Pending>, r: Report, done: seq<Hash>) {
    exists p :: p in ps && p.report == r && forall d | d in p.deps :: d in done
  }

  /** Unlocking in the edited queue is unlocking in the queue once the edited-out hashes are done. */
  lemma UnlockedBeforeEdit(ps: seq<Pending>, hs: seq<Hash>, r: Report, done: seq<Hash>)
    requires Unlocked(Edit(ps, hs), r, done)
    ensures Unlocked(ps, r, hs + done)
  {
    var e :| e in Edit(ps, hs) && e.report == r && forall d | d in e.deps :: d in done;
    EditMeaning(ps, hs, e);
    var p :| p in ps && p.report.hash !in hs && e == Edited(p, hs);
    assert forall d | d in p.deps :: d in hs || d in e.deps;
  }

  /** Every dependency of an output report is the hash of a strictly earlier output. */
  lemma {:induction false} PriorityTopological(ps: seq<Pending>, i: nat)
    requires i < |Priority(ps)|
    ensures Unlocked(ps, Priority(ps)[i], Hashes(Priority(ps)[..i]))
    decreases |ps|
  {
    var ready := ReadyOf(ps);
    var out := Priority(ps);
    if i < |ready| {
      ReadyMeaning(ps, ready[i]);
      assert Pending(ready[i], []) in ps;
    } else {
      ReadyShrinks(ps);
      var later, j := Priority(Edit(ps, Hashes(ready))), i - |ready|;
      PriorityTopological(Edit(ps, Hashes(ready)), j);
      UnlockedBeforeEdit(ps, Hashes(ready), later[j], Hashes(later[..j]));
      assert out[..i] == ready + later[..j];
      HashesConcat(ready, later[..j]);
    }
  }

  lemma HashesConcat(a: seq<Report>, b: seq<Report>)
    ensures Hashes(a + b) == Hashes(a) + Hashes(b)
  {
  }

  // ------------------------------------------------------------ least closed set

  ghost function HashSet(rs: seq<Report>): set<Hash> {
    set r | r in rs :: r.hash
  }

  /** Closed under "all dependencies resolved". */
  ghost predicate Closed(ps: seq<Pending>, s: set<Hash>) {
    forall p | p in ps && (forall d | d in p.deps :: d in s) :: p.report.hash in s
  }

  lemma HashSetMembers(rs: seq<Report>, h: Hash)
    ensures h in HashSet(rs) <==> h in Hashes(rs)
  {
    if h in Hashes(rs) {
      var i :| 0 <= i < |rs| && Hashes(rs)[i] == h;
      assert rs[i] in rs;
    }
    if h in HashSet(rs) {
      var r :| r in rs && r.hash == h;
      var i :| 0 <= i < |rs| && rs[i] == r;
      assert Hashes(rs)[i] == h;
    }
  }

  /** The output hashes form a closed set, and every closed set contains them. */
  lemma {:induction false} PriorityClosed(ps: seq<Pending>)
    ensures Closed(ps, HashSet(Priority(ps)))
    decreases |ps|
  {
    var ready := ReadyOf(ps);
    if ready == [] {
      forall p | p in ps
        ensures exists d :: d in p.deps && d !in HashSet(Priority(ps))
      {
        ReadyMeaning(ps, p.report);
        assert p.deps != [] && p.deps[0] in p.deps;
      }
    } else {
      ReadyShrinks(ps);
      var hs := Hashes(ready);
      var rest := Edit(ps, hs);
      PriorityClosed(rest);
      forall p | p in ps && forall d | d in p.deps :: d in HashSet(Priority(ps))
        ensures p.report.hash in HashSet(Priority(ps))
      {
        ClosedStep(ps, p);
      }
    }
  }

  lemma ClosedStep(ps: seq<Pending>, p: Pending)
    requires p in ps && ReadyOf(ps) != []
    requires Closed(Edit(ps, Hashes(ReadyOf(ps))), HashSet(Priority(Edit(ps, Hashes(ReadyOf(ps))))))
    requires forall d | d in p.deps :: d in HashSet(Priority(ps))
    ensures p.report.hash in HashSet(Priority(ps))
  {
    var ready := ReadyOf(ps);
    var hs := Hashes(ready);
    var rest := Edit(ps, hs);
    ReadyShrinks(ps);
    var later := Priority(rest);
    assert Priority(ps) == ready + later;
    HashSetMembers(ready, p.report.hash);
    if p.report.hash in hs {
      var r :| r in ready && r.hash == p.report.hash;
      assert r in Priority(ps);
    } else {
      var e := Edited(p, hs);
      EditMeaning(ps, hs, e);
      forall d | d in e.deps
        ensures d in HashSet(later)
      {
        var r :| r in Priority(ps) && r.hash == d;
        HashSetMembers(ready, d);
        assert r in later;
      }
      var r :| r in later && r.hash == p.report.hash;
      assert r in Priority(ps);
    }
  }

  lemma {:induction false} PriorityLeast(ps: seq<Pending>, s: set<Hash>)
    requires Closed(ps, s)
    ensures HashSet(Priority(ps)) <= s
    decreases |ps|
  {
    var ready := ReadyOf(ps);
    if ready != [] {
      ReadyShrinks(ps);
      var hs := Hashes(ready);
      var rest := Edit(ps, hs);
      assert forall r | r in ready :: r.hash in s by {
        forall r | r in ready
          ensures r.hash in s
        {
          ReadyMeaning(ps, r);
          assert Pending(r, []) in ps;
        }
      }
      forall e | e in rest && forall d | d in e.deps :: d in s
        ensures e.report.hash in s
      {
        EditMeaning(ps, hs, e);
        var p :| p in ps && p.report.hash !in hs && e == Edited(p, hs);
        forall d | d in p.deps
          ensures d in s
        {
          if d in hs {
            HashSetMembers(ready, d);
          } else {
            assert d in e.deps;
          }
        }
      }
      PriorityLeast(rest, s);
    }
  }

  /** What is accumulated does not depend on the order in which the queue was listed. */
  lemma PriorityOrderFree(ps: seq<Pending>, qs: seq<Pending>)
    requires forall p :: p in ps <==> p in qs
    ensures HashSet(Priority(ps)) == HashSet(Priority(qs))
  {
    PriorityClosed(ps);
    PriorityClosed(qs);
    PriorityLeast(ps, HashSet(Priority(qs)));
    PriorityLeast(qs, HashSet(Priority(ps)));
  }

  /** Reports that wait for each other, directly or in a circle, never leave the queue. */
  lemma CyclesStay(ps: seq<Pending>, cycle: set<Hash>)
    requires forall p | p in ps && p.report.hash in cycle :: exists d :: d in p.deps && d in cycle
    ensures HashSet(Priority(ps)) !! cycle
  {
    var out := HashSet(Priority(ps));
    PriorityClosed(ps);
    forall p | p in ps && forall d | d in p.deps :: d in out - cycle
      ensures p.report.hash in out - cycle
    {
    }
    PriorityLeast(ps, out - cycle);
  }

  // ------------------------------------------------------------ no duplicates

  ghost predicate Distinct(hs: seq<Hash>) {
    forall i, j | 0 <= i < j < |hs| :: hs[i] != hs[j]
  }

  function PendingHashes(ps: seq<Pending>): (hs: seq<Hash>)
    ensures |hs| == |ps| && forall i | 0 <= i < |ps| :: hs[i] == ps[i].report.hash
  {
    seq(|ps|, i requires 0 <= i < |ps| => ps[i].report.hash)
  }

  lemma DistinctSplit(a: seq<Hash>, b: seq<Hash>)
    requires Distinct(a + b)
    ensures Distinct(a) && Distinct(b) && forall h | h in a :: h !in b
  {
    var c := a + b;
    assert forall i | 0 <= i < |a| :: a[i] == c[i];
    assert forall i | 0 <= i < |b| :: b[i] == c[|a| + i];
    forall h | h in a
      ensures h !in b
    {
      var i :| 0 <= i < |a| && a[i] == h;
      assert c[i] == h;
    }
  }

  lemma DistinctJoin(a: seq<Hash>, b: seq<Hash>)
    requires Distinct(a) && Distinct(b) && forall h | h in a :: h !in b
    ensures Distinct(a + b)
  {
    forall i, j | 0 <= i < j < |a + b|
      ensures (a + b)[i] != (a + b)[j]
    {
      if i < |a| <= j {
        assert (a + b)[i] in a && (a + b)[j] in b;
      }
    }
  }

  lemma DistinctCons(h: Hash, hs: seq<Hash>)
    ensures Distinct([h] + hs) <==> h !in hs && Distinct(hs)
  {
    if Distinct([h] + hs) {
      DistinctSplit([h], hs);
      assert h in [h];
    }
    if h !in hs && Distinct(hs) {
      DistinctJoin([h], hs);
    }
  }

  lemma HashesCons(r: Report, rs: seq<Report>)
    ensures Hashes([r] + rs) == [r.hash] + Hashes(rs)
  {
  }

  lemma PendingCons(p: Pending, ps: seq<Pending>)
    ensures PendingHashes([p] + ps) == [p.report.hash] + PendingHashes(ps)
  {
  }

  lemma {:induction false} EditHashes(ps: seq<Pending>, acc: seq<Hash>, h: Hash)
    ensures h in PendingHashes(Edit(ps, acc)) <==> h in PendingHashes(ps) && h !in acc
    decreases |ps|
  {
    if ps != [] {
      EditHashes(ps[1..], acc, h);
      assert ps == [ps[0]] + ps[1..];
      PendingCons(ps[0], ps[1..]);
      if ps[0].report.hash !in acc {
        PendingCons(Edited(ps[0], acc), Edit(ps[1..], acc));
      }
    }
  }

  lemma {:induction false} EditDistinct(ps: seq<Pending>, acc: seq<Hash>)
    requires Distinct(PendingHashes(ps))
    ensures Distinct(PendingHashes(Edit(ps, acc)))
    decreases |ps|
  {
    if ps != [] {
      var h, rest := ps[0].report.hash, ps[1..];
      assert ps == [ps[0]] + rest;
      PendingCons(ps[0], rest);
      DistinctCons(h, PendingHashes(rest));
      EditDistinct(rest, acc);
      if h !in acc {
        PendingCons(Edited(ps[0], acc), Edit(rest, acc));
        EditHashes(rest, acc, h);
        DistinctCons(h, PendingHashes(Edit(rest, acc)));
      }
    }
  }

  lemma {:induction false} ReadyHashes(ps: seq<Pending>)
    requires Distinct(PendingHashes(ps))
    ensures Distinct(Hashes(ReadyOf(ps)))
    ensures forall h | h in Hashes(ReadyOf(ps)) :: h in PendingHashes(ps)
    decreases |ps|
  {
    if ps != [] {
      var h, rest := ps[0].report.hash, ps[1..];
      assert ps == [ps[0]] + rest;
      PendingCons(ps[0], rest);
      DistinctCons(h, PendingHashes(rest));
      ReadyHashes(rest);
      if ps[0].deps == [] {
        HashesCons(ps[0].report, ReadyOf(rest));
        DistinctCons(h, Hashes(ReadyOf(rest)));
      }
    }
  }

  /** From distinct packages the priority order names each at most once, and only packages of the queue. */
  lemma {:induction false} PriorityDistinct(ps: seq<Pending>)
    requires Distinct(PendingHashes(ps))
    ensures Distinct(Hashes(Priority(ps)))
    ensures forall h | h in Hashes(Priority(ps)) :: h in PendingHashes(ps)
    decreases |ps|
  {
    var ready := ReadyOf(ps);
    ReadyHashes(ps);
    if ready != [] {
      ReadyShrinks(ps);
      var hs := Hashes(ready);
      var rest := Edit(ps, hs);
      EditDistinct(ps, hs);
      PriorityDistinct(rest);
      HashesConcat(ready, Priority(rest));
      forall h | h in Hashes(Priority(rest))
        ensures h in PendingHashes(ps) && h !in hs
      {
        EditHashes(ps, hs, h);
      }
      DistinctJoin(hs, Hashes(Priority(rest)));
    }
  }
}
