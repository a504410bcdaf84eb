/**
 * The population: a fixed-size list of organisms and a census map from type
 * name to count, updated one tick at a time.
 */
module Populations {
  import opened Wrappers
  import opened Randomness
  import opened Organisms
  import opened Census
  import opened TickSpec

  datatype ConstructionError = IllegalArgument

  /** No organism object occupies two slots. */
  predicate Distinct(os: seq<Organism>)
  {
    forall o | o in os :: multiset(os)[o] == 1
  }

  /** In a list of distinct organisms, different slots hold different objects. */
  lemma DistinctAt(os: seq<Organism>, a: nat, b: nat)
    requires Distinct(os) && a < b < |os|
    ensures os[a] != os[b]
  {
    var front, back := os[..b], os[b + 1..];
    assert os == front + [os[b]] + back;
    assert os[a] == front[a];
    assert multiset(os) == multiset(front) + multiset{os[b]} + multiset(back);
    assert os[a] in os && os[a] in front;
    assert multiset{os[b]}[os[a]] == 0;
  }

  /** Every slot of a list of distinct organisms other than `t` holds another object than slot `t`. */
  lemma DistinctFrom(os: seq<Organism>, t: nat)
    requires Distinct(os) && t < |os|
    ensures forall x :: 0 <= x < |os| && x != t ==> os[x] != os[t]
  {
    forall x | 0 <= x < |os| && x != t
      ensures os[x] != os[t]
    {
      if x < t {
        DistinctAt(os, x, t);
      } else {
        DistinctAt(os, t, x);
      }
    }
  }

  /** The values of freshly made organisms: their variants, with no energy. */
  function Newborns(os: seq<Organism>): (s: seq<OrgState>)
    ensures |s| == |os|
    ensures forall x :: 0 <= x < |os| ==> s[x] == OrgState(os[x].kind, 0)
  {
    seq(|os|, x requires 0 <= x < |os| => OrgState(os[x].kind, 0))
  }

  lemma NewbornsAppend(a: seq<Organism>, b: seq<Organism>)
    ensures Newborns(a + b) == Newborns(a) + Newborns(b)
  {
  }

  /** How many members of variant `k` a construction request asks for (a negative count adds none). */
  function Requested(request: map<string, int>, k: Kind): nat
  {
    if TypeName(k) in request && request[TypeName(k)] > 0 then request[TypeName(k)] else 0
  }

  /** Taking the last element off one of two reorderings and any copy of it off the other leaves two reorderings. */
  lemma RemoveMatching<T>(s: seq<T>, t: seq<T>, j: nat)
    requires multiset(s) == multiset(t) && s != [] && j < |t| && t[j] == s[|s| - 1]
    ensures multiset(s[..|s| - 1]) == multiset(t[..j] + t[j + 1..])
  {
    var n := |s| - 1;
    assert s == s[..n] + [s[n]];
    assert t == t[..j] + [t[j]] + t[j + 1..];
    assert multiset(s) == multiset(s[..n]) + multiset{s[n]};
    assert multiset(t) == multiset(t[..j]) + multiset{t[j]} + multiset(t[j + 1..]);
    assert multiset(t[..j] + t[j + 1..]) == multiset(t[..j]) + multiset(t[j + 1..]);
    var before, after := multiset(s[..n]), multiset(t[..j] + t[j + 1..]);
    assert before + multiset{s[n]} == after + multiset{s[n]};
    forall y ensures before[y] == after[y] {
      assert (before + multiset{s[n]})[y] == (after + multiset{s[n]})[y];
    }
    assert before == after;
  }

  /** Reordering a list of new organisms leaves every variant's count as it was. */
  lemma {:induction false} CountReordered(s: seq<Organism>, t: seq<Organism>, k: Kind)
    requires multiset(s) == multiset(t)
    ensures CountOf(Newborns(s), k) == CountOf(Newborns(t), k)
  {
    if s == [] {
      assert |t| == |multiset(t)|;
    } else {
      var n := |s| - 1;
      assert s[n] in multiset(t);
      var j :| 0 <= j < |t| && t[j] == s[n];
      RemoveMatching(s, t, j);
      CountReordered(s[..n], t[..j] + t[j + 1..], k);
      CountLastMoved(s, t, j, k);
    }
  }

  /** Moving the last new organism of `s` to position `j` keeps the counts equal when they were equal without it. */
  lemma CountLastMoved(s: seq<Organism>, t: seq<Organism>, j: nat, k: Kind)
    requires s != [] && j < |t| && t[j] == s[|s| - 1]
    requires CountOf(Newborns(s[..|s| - 1]), k) == CountOf(Newborns(t[..j] + t[j + 1..]), k)
    ensures CountOf(Newborns(s), k) == CountOf(Newborns(t), k)
  {
    var n := |s| - 1;
    SplitLast(s);
    SplitAt(t, j);
    CountMoved(s[..n], s[n], t[..j], t[j + 1..], k);
  }

  /** A list is its part before `j`, its element at `j` and its part after `j`. */
  lemma SplitAt<T>(s: seq<T>, j: nat)
    requires j < |s|
    ensures s == s[..j] + [s[j]] + s[j + 1..]
  {
  }

  /** A non-empty list is its part before the last element, then the last element. */
  lemma SplitLast<T>(s: seq<T>)
    requires s != []
    ensures s == s[..|s| - 1] + [s[|s| - 1]]
  {
  }

  /** Appending `x` to one list adds to the count what inserting it into the other does. */
  lemma CountMoved(a: seq<Organism>, x: Organism, front: seq<Organism>, back: seq<Organism>, k: Kind)
    ensures CountOf(Newborns(a + [x]), k) - CountOf(Newborns(front + [x] + back), k)
            == CountOf(Newborns(a), k) - CountOf(Newborns(front + back), k)
  {
    var one := Newborns([x]);
    NewbornsAppend(a, [x]);
    NewbornsAppend(front + [x], back);
    NewbornsAppend(front, [x]);
    NewbornsAppend(front, back);
    CountAppend(Newborns(a), one, k);
    CountAppend(Newborns(front + [x]), Newborns(back), k);
    CountAppend(Newborns(front), one, k);
    CountAppend(Newborns(front), Newborns(back), k);
  }

  /** `n` new organisms of variant `kind` appended to `os` (the `add` loops of the constructor). */
  method AddOrganisms(os: seq<Organism>, kind: Kind, n: int) returns (r: seq<Organism>)
    ensures |r| == |os| + (if n > 0 then n else 0) && r[..|os|] == os
    ensures forall x :: |os| <= x < |r| ==> fresh(r[x]) && r[x].energy == 0
    ensures Distinct(os) ==> Distinct(r)
    ensures Newborns(r) == Newborns(os) + Copies(OrgState(kind, 0), |r| - |os|)
  {
    r := os;
    var i := 0;
    while i < n
      invariant 0 <= i && |r| == |os| + i && r[..|os|] == os
      invariant i <= (if n > 0 then n else 0)
      invariant forall x :: |os| <= x < |r| ==> fresh(r[x]) && r[x].energy == 0
      invariant Distinct(os) ==> Distinct(r)
      invariant Newborns(r) == Newborns(os) + Copies(OrgState(kind, 0), i)
    {
      var o := new Organism(kind);
      assert o !in r;
      r := r + [o];
      i := i + 1;
    }
  }

  /** `Collections.shuffle`: swap each slot from the last down with a randomly drawn slot not after it. */
  method Shuffle<T>(s: seq<T>, rng: Random) returns (r: seq<T>)
    modifies rng
    ensures |r| == |s| && multiset(r) == multiset(s)
  {
    r := s;
    var i := |r|;
    while i > 1
      invariant 0 <= i <= |r| == |s|
      invariant multiset(r) == multiset(s)
    {
      var j := rng.NextInt(i);
      r := r[i - 1 := r[j]][j := r[i - 1]];
      i := i - 1;
    }
  }

  class Population {
    var members: seq<Organism>
    var counts: map<string, int>
    /** The values of the members, in order. */
    ghost var model: seq<OrgState>

    /**
     * Every slot holds its own organism, `model` holds the members' values,
     * the census has only variant names as keys, and every member's variant
     * has an entry.
     */
    ghost predicate Valid()
      reads this, members
    {
      && Distinct(members)
      && |model| == |members|
      && (forall x :: 0 <= x < |members| ==> members[x].kind == model[x].kind && members[x].energy == model[x].energy)
      && counts.Keys <= TypeNames
      && Listed(counts, model)
    }

    constructor Of(members: seq<Organism>, counts: map<string, int>, ghost model: seq<OrgState>)
      ensures this.members == members && this.counts == counts && this.model == model
    {
      this.members := members;
      this.counts := counts;
      this.model := model;
    }

    /**
     * The Java constructor: build the members from a map of type name to
     * count, failing on a name that is not a variant, then shuffle them.
     */
    static method Create(request: map<string, int>, rng: Random) returns (r: Result<Population, ConstructionError>)
      modifies rng
      ensures r.Failure? <==> !(request.Keys <= TypeNames)
      ensures r.Success? ==>
        && fresh(r.value) && r.value.Valid()
        && r.value.counts == request
        && (forall x :: 0 <= x < |r.value.members| ==> fresh(r.value.members[x]))
        && (forall x :: 0 <= x < |r.value.model| ==> r.value.model[x].energy == 0)
        && (forall k :: CountOf(r.value.model, k) == Requested(request, k))
        && |r.value.members|
           == Requested(request, Cooperator) + Requested(request, Defector) + Requested(request, PartialCooperator)
        && ((forall name :: name in request ==> request[name] >= 0) ==> Agrees(request, r.value.model))
    {
      var built := Build(request);
      if built.None? {
        return Failure(IllegalArgument);
      }
      var shuffled := Shuffle(built.value, rng);
      forall x | 0 <= x < |shuffled| ensures fresh(shuffled[x]) && shuffled[x].energy == 0 {
        assert shuffled[x] in multiset(built.value);
      }
      forall k ensures CountOf(Newborns(shuffled), k) == Requested(request, k) {
        CountReordered(shuffled, built.value, k);
      }
      var p := new Population.Of(shuffled, request, Newborns(shuffled));
      forall x | 0 <= x < |p.model| ensures TypeName(p.model[x].kind) in request {
        CountMember(p.model, x);
      }
      CountTotal(p.model);
      r := Success(p);
    }

    /** The constructor's loop over the requested type names, before the shuffle. */
    static method Build(request: map<string, int>) returns (r: Option<seq<Organism>>)
      ensures r.None? <==> !(request.Keys <= TypeNames)
      ensures r.Some? ==>
        && Distinct(r.value)
        && (forall x :: 0 <= x < |r.value| ==> fresh(r.value[x]) && r.value[x].energy == 0)
        && (forall k :: CountOf(Newborns(r.value), k) == Requested(request, k))
    {
      var built: seq<Organism> := [];
      var remaining := request.Keys;
      while remaining != {}
        invariant remaining <= request.Keys
        invariant forall name :: name in request.Keys - remaining ==> name in TypeNames
        invariant Distinct(built)
        invariant forall x :: 0 <= x < |built| ==> fresh(built[x]) && built[x].energy == 0
        invariant forall k :: CountOf(Newborns(built), k) == if TypeName(k) in remaining then 0 else Requested(request, k)
        decreases remaining
      {
        var name :| name in remaining;
        var kind := ParseType(name);
        if kind.None? {
          return None;
        }
        var more := AddOrganisms(built, kind.value, request[name]);
        forall k ensures CountOf(Newborns(more), k) == if TypeName(k) in remaining - {name} then 0 else Requested(request, k) {
          CountAppend(Newborns(built), Copies(OrgState(kind.value, 0), |more| - |built|), k);
          CountCopies(OrgState(kind.value, 0), |more| - |built|, k);
          TypeNameRoundTrip(k);
        }
        built := more;
        remaining := remaining - {name};
      }
      r := Some(built);
    }

    /** Member `t` gains one unit of energy (`incrementEnergy()`). */
    method GainAt(t: nat)
      requires Valid() && t < |members|
      modifies this, members[t]
      ensures Valid() && members == old(members) && counts == old(counts)
      ensures model == Gain(old(model), t)
    {
      DistinctFrom(members, t);
      members[t].IncrementEnergy();
      model := Gain(model, t);
    }

    /** Member `t` ages by one tick (the organism's own `update()`), which gains it one unit. */
    method GrowAt(t: nat)
      requires Valid() && t < |members|
      modifies this, members[t]
      ensures Valid() && members == old(members) && counts == old(counts)
      ensures model == Gain(old(model), t)
    {
      DistinctFrom(members, t);
      members[t].Update();
      model := Gain(model, t);
    }

    /** Member `t` pays one unit of energy (`decrementEnergy()`). */
    method PayAt(t: nat)
      requires Valid() && t < |members|
      modifies this, members[t]
      ensures Valid() && members == old(members) && counts == old(counts)
      ensures model == Pay(old(model), t)
    {
      DistinctFrom(members, t);
      members[t].DecrementEnergy();
      model := Pay(model, t);
    }

    /** The fan-out loop: `partners` times, draw a fresh index other than `i` and give that member one unit. */
    method Distribute(i: nat, partners: nat, rng: Random)
      requires Valid() && i < |members| && partners < |members|
      modifies this, members, rng
      ensures Valid() && members == old(members) && counts == old(counts)
      ensures var f := FanOut(old(model), i, [], partners, rng.source, old(rng.calls));
        model == f.members && rng.calls == f.draws
    {
      var size := |members|;
      var indices: seq<nat> := [];
      ghost var fan := FanOut(model, i, [], partners, rng.source, rng.calls);
      for j := 0 to partners
        invariant Valid() && members == old(members) && counts == old(counts)
        invariant |indices| == j
        invariant DistinctOthers(indices, i, size)
        invariant FanOut(model, i, indices, partners, rng.source, rng.calls) == fan
      {
        var randomIndex := GiveOne(i, indices, partners, rng);
        indices := indices + [randomIndex];
      }
    }

    /** One round of the fan-out loop: draw an index neither `i` nor chosen before, and that member gains one unit. */
    method GiveOne(i: nat, chosen: seq<nat>, partners: nat, rng: Random) returns (t: nat)
      requires Valid() && i < |members| && |chosen| < partners < |members|
      requires DistinctOthers(chosen, i, |members|)
      modifies this, members, rng
      ensures Valid() && members == old(members) && counts == old(counts)
      ensures DistinctOthers(chosen + [t], i, |members|)
      ensures FanOut(model, i, chosen + [t], partners, rng.source, rng.calls)
              == FanOut(old(model), i, chosen, partners, rng.source, old(rng.calls))
    {
      FanOutStep(model, i, chosen, partners, rng.source, rng.calls);
      t := rng.NextIntAvoiding(|members|, chosen + [i]);
      GainAt(t);
    }

    /** The cooperation step of the member at `i` (Java `update()`, the `cooperates()` branch). */
    method Cooperate(i: nat, rng: Random)
      requires Valid() && i < |members|
      modifies this, members, rng
      ensures Valid() && members == old(members) && counts == old(counts)
      ensures var c := CooperationPhase(old(model), i, rng.source, old(rng.calls));
        model == c.members && rng.calls == c.draws
    {
      ghost var c := CooperationPhase(model, i, rng.source, rng.calls);
      var size := |members|;
      var current := members[i];
      var cooperates := current.Cooperates(rng);
      if cooperates && size > 1 {
        Contribute(i, rng);
        assert model == c.members && rng.calls == c.draws;
      } else {
        assert model == c.members && rng.calls == c.draws;
      }
    }

    /** A cooperating member at `i` pays one unit and gives one to each of min(size - 1, 8) others. */
    method Contribute(i: nat, rng: Random)
      requires Valid() && i < |members| && |members| > 1
      modifies this, members, rng
      ensures Valid() && members == old(members) && counts == old(counts)
      ensures var f := FanOut(Pay(old(model), i), i, [], Partners(|members|), rng.source, old(rng.calls));
        model == f.members && rng.calls == f.draws
    {
      ghost var f := FanOut(Pay(model, i), i, [], Partners(|members|), rng.source, rng.calls);
      var size := |members|;
      PayAt(i);
      var partners := if size <= 8 then size - 1 else 8;
      assert partners == Partners(size);
      Distribute(i, partners, rng);
      assert model == f.members && rng.calls == f.draws;
    }

    /** The parent at `i` drains its energy into a new offspring of its variant (Java `reproduce()`). */
    method Offspring(i: nat) returns (child: Organism)
      requires Valid() && i < |members|
      modifies this, members[i]
      ensures Valid() && members == old(members) && counts == old(counts)
      ensures fresh(child) && child.kind == members[i].kind && child.energy == 0
      ensures model == old(model)[i := OrgState(old(model)[i].kind, 0)]
    {
      DistinctFrom(members, i);
      child := members[i].Reproduce();
      model := model[i := OrgState(model[i].kind, 0)];
    }

    /** The parent at `i` reproduces into slot `t`: its child replaces that member and the census follows. */
    method PlaceOffspring(i: nat, t: nat)
      requires Valid() && i < |members| && t < |members|
      modifies this, members[i]
      ensures Valid() && |members| == old(|members|)
      ensures forall x :: 0 <= x < |members| ==> members[x] == old(members)[x] || fresh(members[x])
      ensures var child := OrgState(old(model)[i].kind, 0);
        && model == old(model)[i := child][t := child]
        && counts == Recount(old(counts), old(model)[t].kind, old(model)[i].kind)
    {
      var parent := members[i].kind;
      var child := Offspring(i);
      var replaced := members[t];
      assert child !in members;
      members := members[t := child];
      model := model[t := OrgState(child.kind, 0)];
      counts := Recount(counts, replaced.kind, parent);
    }

    /** The reproduction step of the member at `i`, with its census update. */
    method Reproduce(i: nat, rng: Random)
      requires Valid() && i < |members|
      modifies this, members[i], rng
      ensures Valid() && |members| == old(|members|)
      ensures forall x :: 0 <= x < |members| ==> members[x] == old(members)[x] || fresh(members[x])
      ensures Sim(model, counts, rng.calls) == ReproductionPhase(Sim(old(model), old(counts), old(rng.calls)), i, rng.source)
    {
      if members[i].GetEnergy() >= ReproductionThreshold {
        var randomIndex := i;
        if |members| != 1 {
          randomIndex := rng.NextIntAvoiding(|members|, [i]);
        }
        PlaceOffspring(i, randomIndex);
      }
    }

    /** The body of the update loop for the member at `i`: age, cooperate, reproduce. */
    method UpdateMember(i: nat, rng: Random)
      requires Valid() && i < |members|
      modifies this, members, rng
      ensures Valid() && |members| == old(|members|)
      ensures forall x :: 0 <= x < |members| ==> members[x] == old(members)[x] || fresh(members[x])
      ensures Sim(model, counts, rng.calls) == Step(Sim(old(model), old(counts), old(rng.calls)), i, rng.source)
    {
      GrowAt(i);
      Cooperate(i, rng);
      Reproduce(i, rng);
    }

    /**
     * The population and the generator stand where the first `i` member
     * updates of a tick that started from `start` leave them.
     */
    ghost predicate Reached(start: Sim, i: nat, rng: Random)
      reads this, rng
    {
      && i <= |start.members| && Listed(start.counts, start.members)
      && Sim(model, counts, rng.calls) == Steps(start, i, rng.source)
    }

    /** The update of member `i` as the next step of a tick that started from `start`. */
    method UpdateNext(i: nat, rng: Random, ghost start: Sim)
      requires Valid() && i < |members| && Reached(start, i, rng) && i < |start.members|
      modifies this, members, rng
      ensures Valid() && |members| == old(|members|)
      ensures forall x :: 0 <= x < |members| ==> members[x] == old(members)[x] || fresh(members[x])
      ensures Reached(start, i + 1, rng)
    {
      UpdateMember(i, rng);
    }

    /**
     * One tick: every member in index order ages, may cooperate and may
     * reproduce; a slot overwritten earlier in the pass is visited with its
     * new occupant.
     */
    method Update(rng: Random)
      requires Valid()
      modifies this, members, rng
      ensures Valid() && |members| == old(|members|)
      ensures Sim(model, counts, rng.calls) == Tick(Sim(old(model), old(counts), old(rng.calls)), rng.source)
    {
      var size := |members|;
      ghost var start := Sim(model, counts, rng.calls);
      for i := 0 to size
        invariant |members| == size && Valid()
        invariant forall x :: 0 <= x < size ==> members[x] == old(members)[x] || fresh(members[x])
        invariant Reached(start, i, rng) && |start.members| == size
      {
        UpdateNext(i, rng, start);
      }
    }

    /** `calculateCooperationMean()`, from the census map. */
    function CalculateCooperationMean(): (m: Option<real>)
      reads this
      ensures m.None? <==> |members| == 0
      ensures Agrees(counts, model) && |model| == |members| > 0 ==>
                m.Some? && m.value == WeightedMean(model) && 0.0 <= m.value <= 1.0
    {
      var m := CooperationMean(counts, |members|);
      assert Agrees(counts, model) && |model| == |members| > 0 ==>
               m.Some? && m.value == WeightedMean(model) && 0.0 <= m.value <= 1.0 by {
        if Agrees(counts, model) && |model| == |members| > 0 {
          MeanInUnitInterval(counts, model);
        }
      }
      m
    }

    /** `getPopulationCounts()`: the census map, whose lookups give the true counts while it agrees. */
    function GetPopulationCounts(): (c: map<string, int>)
      reads this
      ensures Agrees(counts, model) ==> forall k :: Get(c, TypeName(k)) == CountOf(model, k)
    {
      counts
    }
  }
}
