/**
 * The census of a population: how many members each variant has, the map
 * the population keeps of it, and the mean cooperation probability derived
 * from that map.
 */
module Census {
  import opened Wrappers
  import opened Organisms

  /** How many members of `p` are of variant `k`. */
  function CountOf(p: seq<OrgState>, k: Kind): (n: nat)
    ensures n <= |p|
  {
    if p == [] then 0
    else CountOf(p[..|p| - 1], k) + (if p[|p| - 1].kind == k then 1 else 0)
  }

  lemma {:induction false} CountAppend(p: seq<OrgState>, q: seq<OrgState>, k: Kind)
    ensures CountOf(p + q, k) == CountOf(p, k) + CountOf(q, k)
  {
    if q != [] {
      assert (p + q)[..|p + q| - 1] == p + q[..|q| - 1];
      CountAppend(p, q[..|q| - 1], k);
    } else {
      assert p + q == p;
    }
  }

  /** Overwriting one member moves one unit of the census from its old variant to the new one. */
  lemma {:induction false} CountReplace(p: seq<OrgState>, t: nat, x: OrgState, k: Kind)
    requires t < |p|
    ensures CountOf(p[t := x], k)
            == CountOf(p, k) - (if p[t].kind == k then 1 else 0) + (if x.kind == k then 1 else 0)
  {
    var n := |p| - 1;
    if t < n {
      assert p[t := x][..n] == p[..n][t := x];
      CountReplace(p[..n], t, x, k);
    } else {
      assert p[t := x][..n] == p[..n];
    }
  }

  /** Only the variants matter to the census, not the energies. */
  lemma {:induction false} CountSameKinds(p: seq<OrgState>, q: seq<OrgState>, k: Kind)
    requires |p| == |q|
    requires forall x :: 0 <= x < |p| ==> p[x].kind == q[x].kind
    ensures CountOf(p, k) == CountOf(q, k)
  {
    if p != [] {
      CountSameKinds(p[..|p| - 1], q[..|q| - 1], k);
    }
  }

  /** The three per-variant counts add up to the population size. */
  lemma {:induction false} CountTotal(p: seq<OrgState>)
    ensures CountOf(p, Cooperator) + CountOf(p, Defector) + CountOf(p, PartialCooperator) == |p|
  {
    if p != [] {
      CountTotal(p[..|p| - 1]);
    }
  }

  /** `n` copies of one organism value. */
  function Copies(x: OrgState, n: nat): (s: seq<OrgState>)
    ensures |s| == n && forall j :: 0 <= j < n ==> s[j] == x
  {
    seq(n, _ => x)
  }

  lemma {:induction false} CountCopies(x: OrgState, n: nat, k: Kind)
    ensures CountOf(Copies(x, n), k) == if x.kind == k then n else 0
  {
    if n > 0 {
      assert Copies(x, n)[..n - 1] == Copies(x, n - 1);
      CountCopies(x, n - 1, k);
    }
  }

  /**
   * A census map agrees with the members `p`: the entry of each variant
   * present in the map is its count, and a variant absent from the map has
   * no members.
   */
  predicate Agrees(counts: map<string, int>, p: seq<OrgState>)
  {
    forall k: Kind ::
      if TypeName(k) in counts then counts[TypeName(k)] == CountOf(p, k) else CountOf(p, k) == 0
  }

  /**
   * The census update of one reproduction: the displaced member's entry
   * loses one, then the parent's entry gains one.  Both keys must be
   * present (the Java code would fail on a missing entry).
   */
  function Recount(counts: map<string, int>, displaced: Kind, parent: Kind): (r: map<string, int>)
    requires TypeName(displaced) in counts && TypeName(parent) in counts
    ensures r.Keys == counts.Keys
  {
    var dropped := counts[TypeName(displaced) := counts[TypeName(displaced)] - 1];
    dropped[TypeName(parent) := dropped[TypeName(parent)] + 1]
  }

  /**
   * Two census maps over two member lists have the same keys, and each
   * variant's entry is off from its actual count by the same amount in both.
   */
  predicate SameOffsets(c1: map<string, int>, p1: seq<OrgState>, c2: map<string, int>, p2: seq<OrgState>)
  {
    && c1.Keys == c2.Keys
    && forall k: Kind :: TypeName(k) in c1 ==>
         c1[TypeName(k)] - CountOf(p1, k) == c2[TypeName(k)] - CountOf(p2, k)
  }

  /** Every member's variant has an entry in the census map. */
  predicate Listed(counts: map<string, int>, p: seq<OrgState>)
  {
    forall x :: 0 <= x < |p| ==> TypeName(p[x].kind) in counts
  }

  /** Recounting after one member is overwritten keeps the census in step with the members. */
  lemma RecountTracksReplacement(counts: map<string, int>, p: seq<OrgState>, t: nat, x: OrgState)
    requires t < |p| && TypeName(p[t].kind) in counts && TypeName(x.kind) in counts
    ensures SameOffsets(Recount(counts, p[t].kind, x.kind), p[t := x], counts, p)
  {
    forall k: Kind | TypeName(k) in counts
      ensures Recount(counts, p[t].kind, x.kind)[TypeName(k)] - CountOf(p[t := x], k)
              == counts[TypeName(k)] - CountOf(p, k)
    {
      CountReplace(p, t, x, k);
      TypeNameRoundTrip(k);
      TypeNameRoundTrip(p[t].kind);
      TypeNameRoundTrip(x.kind);
    }
  }

  /** A census whose entries match the members keeps matching while the offsets stay the same. */
  lemma AgreementFromOffsets(c1: map<string, int>, p1: seq<OrgState>, c2: map<string, int>, p2: seq<OrgState>)
    requires Agrees(c1, p1) && SameOffsets(c2, p2, c1, p1) && Listed(c2, p2)
    ensures Agrees(c2, p2)
  {
    forall k: Kind | TypeName(k) !in c2
      ensures CountOf(p2, k) == 0
    {
      CountAbsent(p2, k, c2);
    }
  }

  /** A variant without an entry in the map has no members, when every member's variant is listed. */
  lemma {:induction false} CountAbsent(p: seq<OrgState>, k: Kind, counts: map<string, int>)
    requires Listed(counts, p) && TypeName(k) !in counts
    ensures CountOf(p, k) == 0
  {
    if p != [] {
      var front := p[..|p| - 1];
      assert Listed(counts, front) by {
        forall x | 0 <= x < |front| ensures TypeName(front[x].kind) in counts {
          assert front[x] == p[x];
        }
      }
      CountAbsent(front, k, counts);
    }
  }

  /** The variant of any member is counted at least once. */
  lemma {:induction false} CountMember(p: seq<OrgState>, t: nat)
    requires t < |p|
    ensures CountOf(p, p[t].kind) >= 1
  {
    var n := |p| - 1;
    if t < n {
      assert p[..n][t] == p[t];
      CountMember(p[..n], t);
    }
  }

  /** A map lookup where an absent key counts as 0. */
  function Get(counts: map<string, int>, name: string): int
  {
    if name in counts then counts[name] else 0
  }

  /** A census that agrees with the members and has only variant names as keys sums to the size. */
  lemma CensusSum(counts: map<string, int>, p: seq<OrgState>)
    requires Agrees(counts, p) && counts.Keys <= TypeNames
    ensures Get(counts, "Cooperator") + Get(counts, "Defector") + Get(counts, "PartialCooperator") == |p|
  {
    CountTotal(p);
    assert TypeName(Cooperator) == "Cooperator";
    assert TypeName(Defector) == "Defector";
    assert TypeName(PartialCooperator) == "PartialCooperator";
  }

  /**
   * `calculateCooperationMean()`: (C + P/2) / size, from the census map.
   * None stands for the IEEE NaN or infinity of a division by an empty size.
   */
  function CooperationMean(counts: map<string, int>, size: nat): (m: Option<real>)
    ensures m.None? <==> size == 0
  {
    if size == 0 then None
    else Some((Get(counts, "Cooperator") as real + Get(counts, "PartialCooperator") as real / 2.0) / size as real)
  }

  /**
   * With a census that agrees with the members, the mean is the average
   * cooperation probability of the actual members, and lies in [0, 1].
   */
  lemma MeanInUnitInterval(counts: map<string, int>, p: seq<OrgState>)
    requires Agrees(counts, p) && |p| > 0
    ensures CooperationMean(counts, |p|).Some?
    ensures CooperationMean(counts, |p|).value == WeightedMean(p)
    ensures 0.0 <= CooperationMean(counts, |p|).value <= 1.0
  {
    CountTotal(p);
    assert TypeName(Cooperator) == "Cooperator";
    assert TypeName(PartialCooperator) == "PartialCooperator";
    assert Get(counts, "Cooperator") == CountOf(p, Cooperator);
    assert Get(counts, "PartialCooperator") == CountOf(p, PartialCooperator);
    UnitRatio(CountOf(p, Cooperator) as real + CountOf(p, PartialCooperator) as real / 2.0, |p| as real);
  }

  /** The members' cooperation probabilities, averaged. */
  function WeightedMean(p: seq<OrgState>): real
    requires |p| > 0
  {
    (CountOf(p, Cooperator) as real * CooperationProbability(Cooperator)
     + CountOf(p, Defector) as real * CooperationProbability(Defector)
     + CountOf(p, PartialCooperator) as real * CooperationProbability(PartialCooperator))
    / |p| as real
  }

  lemma UnitRatio(a: real, n: real)
    requires 0.0 <= a <= n && n > 0.0
    ensures 0.0 <= a / n <= 1.0
  {
    assert a / n * n == a;
  }

  /** The worked example: 3 cooperators, 2 defectors and 1 partial cooperator give 3.5 / 6. */
  lemma MeanExample()
    ensures CooperationMean(map["Cooperator" := 3, "Defector" := 2, "PartialCooperator" := 1], 6)
            == Some(7.0 / 12.0)
  {
  }
}
