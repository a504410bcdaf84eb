/**
 * One tick of the population update, as a function of the members, the
 * census map and the random draws.  This is the specification that
 * `Population.Update` is proved to implement.
 *
 * Members are visited in index order and every write is visible to the rest
 * of the pass: an offspring written to a later index is the organism
 * visited at that index later in the same tick.
 */
module TickSpec {
  import opened Organisms
  import opened Randomness
  import opened Census

  /** Energy at which an organism reproduces. */
  const ReproductionThreshold: nat := 10

  /** The most other members one act of cooperation benefits. */
  const MaxPartners: nat := 8

  /** The population value while a tick is under way, with the number of draws taken so far. */
  datatype Sim = Sim(members: seq<OrgState>, counts: map<string, int>, draws: nat)

  /** The members a cooperator gives energy to, as chosen, and the population they leave. */
  datatype Fan = Fan(members: seq<OrgState>, chosen: seq<nat>, draws: nat)

  /** How many others a cooperator benefits: min(size - 1, 8). */
  function Partners(size: nat): (k: nat)
    requires size > 1
    ensures k <= size - 1 && k <= MaxPartners
    ensures k == size - 1 || k == MaxPartners
  {
    if size <= 8 then size - 1 else 8
  }

  /** Member `t` gains one unit of energy. */
  function Gain(p: seq<OrgState>, t: nat): (q: seq<OrgState>)
    requires t < |p|
    ensures |q| == |p| && q[t].kind == p[t].kind && q[t].energy == p[t].energy + 1
    ensures forall x :: 0 <= x < |p| && x != t ==> q[x] == p[x]
  {
    p[t := OrgState(p[t].kind, p[t].energy + 1)]
  }

  /** Member `t` pays one unit of energy, floored at zero. */
  function Pay(p: seq<OrgState>, t: nat): (q: seq<OrgState>)
    requires t < |p|
    ensures |q| == |p| && q[t].kind == p[t].kind
    ensures p[t].energy > 0 ==> q[t].energy == p[t].energy - 1
    ensures p[t].energy == 0 ==> q[t].energy == 0
    ensures forall x :: 0 <= x < |p| && x != t ==> q[x] == p[x]
  {
    p[t := OrgState(p[t].kind, Decremented(p[t].energy))]
  }

  /** The indices in `chosen` are distinct members other than `i`. */
  predicate DistinctOthers(chosen: seq<nat>, i: nat, size: nat)
  {
    && (forall a :: 0 <= a < |chosen| ==> chosen[a] < size && chosen[a] != i)
    && (forall b :: 0 <= b < |chosen| ==> chosen[b] !in chosen[..b])
  }

  /** The fan-out of one cooperation: `k - |chosen|` more partners, each drawn and then given one unit. */
  function FanOut(p: seq<OrgState>, i: nat, chosen: seq<nat>, k: nat, source: nat -> nat, draws: nat): (f: Fan)
    requires i < |p| && |chosen| <= k < |p|
    requires DistinctOthers(chosen, i, |p|)
    ensures |f.members| == |p|
    decreases k - |chosen|
  {
    if |chosen| == k then Fan(p, chosen, draws)
    else
      var t := DrawAvoiding(|p|, chosen + [i], source, draws);
      FanOut(Gain(p, t), i, chosen + [t], k, source, draws + 1)
  }

  /** The cooperation step of member `i`: decide, and if cooperating with someone, pay and fan out. */
  function CooperationPhase(p: seq<OrgState>, i: nat, source: nat -> nat, draws: nat): (c: Fan)
    requires i < |p|
    ensures |c.members| == |p|
  {
    var k := p[i].kind;
    var afterCoin := if DrawsCoin(k) then draws + 1 else draws;
    if Decision(k, Coin(source, draws)) && |p| > 1 then
      FanOut(Pay(p, i), i, [], Partners(|p|), source, afterCoin)
    else
      Fan(p, [], afterCoin)
  }

  /** Where member `i`'s offspring goes: any other index, or `i` itself in a population of one. */
  function ReplacementTarget(size: nat, i: nat, source: nat -> nat, draws: nat): (t: nat)
    requires i < size
    ensures t < size
    ensures size > 1 ==> t != i
    ensures size == 1 ==> t == i
  {
    if size == 1 then i else DrawAvoiding(size, [i], source, draws)
  }

  /** The reproduction step of member `i`, with the census update it makes. */
  function ReproductionPhase(s: Sim, i: nat, source: nat -> nat): (r: Sim)
    requires i < |s.members| && Listed(s.counts, s.members)
    ensures |r.members| == |s.members| && Listed(r.counts, r.members)
  {
    var p := s.members;
    if p[i].energy >= ReproductionThreshold then
      var t := ReplacementTarget(|p|, i, source, s.draws);
      var child := OrgState(p[i].kind, 0);
      var q := p[i := child][t := child];
      assert forall x :: 0 <= x < |q| ==> q[x].kind == p[x].kind || q[x] == child;
      Sim(q, Recount(s.counts, p[t].kind, p[i].kind), if |p| == 1 then s.draws else s.draws + 1)
    else
      s
  }

  /** The whole update of member `i`: gain, cooperation, reproduction. */
  function Step(s: Sim, i: nat, source: nat -> nat): (r: Sim)
    requires i < |s.members| && Listed(s.counts, s.members)
    ensures |r.members| == |s.members| && Listed(r.counts, r.members)
  {
    var gained := Gain(s.members, i);
    var c := CooperationPhase(gained, i, source, s.draws);
    assert forall x :: 0 <= x < |gained| ==> c.members[x].kind == s.members[x].kind by {
      CooperationEffect(gained, i, source, s.draws);
    }
    ReproductionPhase(Sim(c.members, s.counts, c.draws), i, source)
  }

  /** The first `n` member updates of a tick, in index order, each seeing the updates before it. */
  function Steps(s: Sim, n: nat, source: nat -> nat): (r: Sim)
    requires n <= |s.members| && Listed(s.counts, s.members)
    ensures |r.members| == |s.members| && Listed(r.counts, r.members)
  {
    if n == 0 then s else Step(Steps(s, n - 1, source), n - 1, source)
  }

  /** One tick: the update of every member, in index order. */
  function Tick(s: Sim, source: nat -> nat): (r: Sim)
    requires Listed(s.counts, s.members)
    ensures |r.members| == |s.members| && Listed(r.counts, r.members)
  {
    Steps(s, |s.members|, source)
  }

  // Properties of the tick

  /** One round of the fan-out: the next partner is drawn avoiding those chosen and `i`, then gains one unit. */
  lemma FanOutStep(p: seq<OrgState>, i: nat, chosen: seq<nat>, k: nat, source: nat -> nat, draws: nat)
    requires i < |p| && |chosen| < k < |p|
    requires DistinctOthers(chosen, i, |p|)
    ensures var t := DrawAvoiding(|p|, chosen + [i], source, draws);
      && DistinctOthers(chosen + [t], i, |p|)
      && FanOut(Gain(p, t), i, chosen + [t], k, source, draws + 1) == FanOut(p, i, chosen, k, source, draws)
  {
    var t := DrawAvoiding(|p|, chosen + [i], source, draws);
    var more := chosen + [t];
    assert more[..|chosen|] == chosen;
    forall b | 0 <= b < |chosen| ensures more[b] !in more[..b] {
      assert more[..b] == chosen[..b];
    }
  }

  /**
   * The fan-out draws exactly `k` partners in all, keeps those chosen
   * before, never picks `i` or anyone twice, and takes one draw per new
   * partner.
   */
  lemma {:induction false} FanOutChoices(p: seq<OrgState>, i: nat, chosen: seq<nat>, k: nat, source: nat -> nat, draws: nat)
    requires i < |p| && |chosen| <= k < |p|
    requires DistinctOthers(chosen, i, |p|)
    ensures var f := FanOut(p, i, chosen, k, source, draws);
      && |f.chosen| == k && f.chosen[..|chosen|] == chosen
      && DistinctOthers(f.chosen, i, |p|)
      && f.draws == draws + (k - |chosen|)
    decreases k - |chosen|
  {
    if |chosen| < k {
      var t := DrawAvoiding(|p|, chosen + [i], source, draws);
      FanOutStep(p, i, chosen, k, source, draws);
      FanOutChoices(Gain(p, t), i, chosen + [t], k, source, draws + 1);
      var f := FanOut(p, i, chosen, k, source, draws);
      assert f.chosen[..|chosen|] == f.chosen[..|chosen| + 1][..|chosen|];
    }
  }

  /** Each partner the fan-out draws, and nobody else, gains exactly one unit; no variant changes. */
  lemma {:induction false} FanOutEnergy(p: seq<OrgState>, i: nat, chosen: seq<nat>, k: nat, source: nat -> nat, draws: nat)
    requires i < |p| && |chosen| <= k < |p|
    requires DistinctOthers(chosen, i, |p|)
    ensures var f := FanOut(p, i, chosen, k, source, draws);
      forall x :: 0 <= x < |p| ==>
        f.members[x] == OrgState(p[x].kind, p[x].energy + (if x in f.chosen && x !in chosen then 1 else 0))
    decreases k - |chosen|
  {
    if |chosen| < k {
      var t := DrawAvoiding(|p|, chosen + [i], source, draws);
      FanOutStep(p, i, chosen, k, source, draws);
      FanOutEnergy(Gain(p, t), i, chosen + [t], k, source, draws + 1);
      EnergyAfterDraw(p, i, chosen, k, source, draws);
    }
  }

  /** The fan-out's energies follow from those of its rest, once the next partner is drawn and given one unit. */
  lemma EnergyAfterDraw(p: seq<OrgState>, i: nat, chosen: seq<nat>, k: nat, source: nat -> nat, draws: nat)
    requires i < |p| && |chosen| < k < |p|
    requires DistinctOthers(chosen, i, |p|)
    requires var t := DrawAvoiding(|p|, chosen + [i], source, draws);
      && DistinctOthers(chosen + [t], i, |p|)
      && var g := Gain(p, t);
         var f := FanOut(g, i, chosen + [t], k, source, draws + 1);
         forall x :: 0 <= x < |p| ==>
           f.members[x] == OrgState(g[x].kind, g[x].energy + (if x in f.chosen && x !in chosen + [t] then 1 else 0))
    ensures var f := FanOut(p, i, chosen, k, source, draws);
      forall x :: 0 <= x < |p| ==>
        f.members[x] == OrgState(p[x].kind, p[x].energy + (if x in f.chosen && x !in chosen then 1 else 0))
  {
    var t := DrawAvoiding(|p|, chosen + [i], source, draws);
    var next := chosen + [t];
    var g := Gain(p, t);
    FanOutStep(p, i, chosen, k, source, draws);
    FanOutChoices(g, i, next, k, source, draws + 1);
    var f := FanOut(p, i, chosen, k, source, draws);
    assert f == FanOut(g, i, next, k, source, draws + 1);
    assert t in f.chosen by {
      assert f.chosen[..|next|][|chosen|] == t;
    }
    assert t !in chosen;
    EnergyStep(p, t, chosen, f.chosen, f.members);
  }

  /** One more partner `t`, chosen now, accounts for the unit `t` gains before the rest of the fan-out. */
  lemma EnergyStep(p: seq<OrgState>, t: nat, chosen: seq<nat>, all: seq<nat>, m: seq<OrgState>)
    requires t < |p| == |m| && t in all && t !in chosen
    requires var g := Gain(p, t);
      forall x :: 0 <= x < |p| ==>
        m[x] == OrgState(g[x].kind, g[x].energy + (if x in all && x !in chosen + [t] then 1 else 0))
    ensures forall x :: 0 <= x < |p| ==>
      m[x] == OrgState(p[x].kind, p[x].energy + (if x in all && x !in chosen then 1 else 0))
  {
    forall x | 0 <= x < |p|
      ensures m[x] == OrgState(p[x].kind, p[x].energy + (if x in all && x !in chosen then 1 else 0))
    {
      assert (x in chosen + [t]) == (x in chosen || x == t);
    }
  }

  /**
   * Cooperation happens exactly when the organism decides to and has
   * someone to cooperate with.  Then it pays one unit (floored at zero) and
   * exactly min(size - 1, 8) distinct others, never itself, gain one each;
   * otherwise nobody's energy changes.  No variant changes.
   */
  lemma CooperationEffect(p: seq<OrgState>, i: nat, source: nat -> nat, draws: nat)
    requires i < |p|
    ensures var c := CooperationPhase(p, i, source, draws);
      var cooperated := Decision(p[i].kind, Coin(source, draws)) && |p| > 1;
      && (forall x :: 0 <= x < |p| ==> c.members[x].kind == p[x].kind)
      && (!cooperated ==> c.members == p && c.chosen == [])
      && (cooperated ==>
            && |c.chosen| == Partners(|p|)
            && DistinctOthers(c.chosen, i, |p|)
            && c.members[i].energy == Decremented(p[i].energy)
            && forall x :: 0 <= x < |p| && x != i ==>
                 c.members[x].energy == p[x].energy + (if x in c.chosen then 1 else 0))
  {
    if Decision(p[i].kind, Coin(source, draws)) && |p| > 1 {
      var afterCoin := if DrawsCoin(p[i].kind) then draws + 1 else draws;
      FanOutEnergy(Pay(p, i), i, [], Partners(|p|), source, afterCoin);
      FanOutChoices(Pay(p, i), i, [], Partners(|p|), source, afterCoin);
    }
  }

  /**
   * Reproduction happens exactly when the energy reaches the threshold.
   * Then the offspring, of the parent's variant and with no energy, is at
   * the target, which is another member unless the population is a single
   * organism; the parent, if not overwritten, is drained to zero; the
   * census moves one unit from the displaced variant to the parent's.
   */
  lemma ReproductionEffect(s: Sim, i: nat, source: nat -> nat)
    requires i < |s.members| && Listed(s.counts, s.members)
    ensures var r := ReproductionPhase(s, i, source);
      var p := s.members;
      && (p[i].energy < ReproductionThreshold ==> r == s)
      && (p[i].energy >= ReproductionThreshold ==>
            var t := ReplacementTarget(|p|, i, source, s.draws);
            && (|p| > 1 ==> t != i && r.members[i] == OrgState(p[i].kind, 0))
            && r.members[t] == OrgState(p[i].kind, 0)
            && (forall x :: 0 <= x < |p| && x != i && x != t ==> r.members[x] == p[x])
            && r.counts == Recount(s.counts, p[t].kind, p[i].kind))
  {
  }

  /** One member's update keeps every census entry exactly as far from the true count as it was. */
  lemma StepKeepsOffsets(s: Sim, i: nat, source: nat -> nat)
    requires i < |s.members| && Listed(s.counts, s.members)
    ensures var r := Step(s, i, source);
      SameOffsets(r.counts, r.members, s.counts, s.members)
  {
    var gained := Gain(s.members, i);
    var c := CooperationPhase(gained, i, source, s.draws);
    CooperationEffect(gained, i, source, s.draws);
    forall k: Kind ensures CountOf(c.members, k) == CountOf(s.members, k) {
      CountSameKinds(c.members, s.members, k);
    }
    var mid := Sim(c.members, s.counts, c.draws);
    var p := c.members;
    if p[i].energy >= ReproductionThreshold {
      var t := ReplacementTarget(|p|, i, source, mid.draws);
      var child := OrgState(p[i].kind, 0);
      var drained := p[i := child];
      assert TypeName(drained[t].kind) == TypeName(p[t].kind);
      forall k: Kind ensures CountOf(drained, k) == CountOf(p, k) {
        CountReplace(p, i, child, k);
      }
      RecountTracksReplacement(s.counts, drained, t, child);
    }
  }

  /**
   * The census invariant of a tick: over any number of member updates the
   * keys stay the same and every entry stays as far from the true count as
   * it was.
   */
  lemma {:induction false} StepsKeepOffsets(s: Sim, n: nat, source: nat -> nat)
    requires n <= |s.members| && Listed(s.counts, s.members)
    ensures var r := Steps(s, n, source);
      SameOffsets(r.counts, r.members, s.counts, s.members)
  {
    if n > 0 {
      var prev := Steps(s, n - 1, source);
      StepsKeepOffsets(s, n - 1, source);
      StepKeepsOffsets(prev, n - 1, source);
    }
  }

  /** A tick keeps the census keys, and a census that matched the members before the tick matches them after it. */
  lemma TickKeepsCensus(s: Sim, source: nat -> nat)
    requires Listed(s.counts, s.members)
    ensures var r := Tick(s, source);
      && SameOffsets(r.counts, r.members, s.counts, s.members)
      && (Agrees(s.counts, s.members) ==> Agrees(r.counts, r.members))
  {
    var r := Tick(s, source);
    StepsKeepOffsets(s, |s.members|, source);
    if Agrees(s.counts, s.members) {
      AgreementFromOffsets(s.counts, s.members, r.counts, r.members);
    }
  }
}
