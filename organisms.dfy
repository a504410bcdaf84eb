/**
 * Organisms: an energy counter shared by three strategy variants.
 *
 * The Java class hierarchy (an abstract Organism with the subclasses
 * Cooperator, Defector and PartialCooperator) becomes one class whose
 * immutable `kind` selects the variant; the variant-specific methods are
 * functions that dispatch on the kind.
 */
module Organisms {
  import opened Wrappers
  import opened Randomness

  datatype Kind = Cooperator | Defector | PartialCooperator

  /** The only type names the population accepts. */
  const TypeNames: set<string> := {"Cooperator", "Defector", "PartialCooperator"}

  /** `getType()` of each variant. */
  function TypeName(k: Kind): (name: string)
    ensures name in TypeNames
  {
    match k
    case Cooperator => "Cooperator"
    case Defector => "Defector"
    case PartialCooperator => "PartialCooperator"
  }

  /** The population constructor's test of a type name against the three variants. */
  function ParseType(name: string): (r: Option<Kind>)
    ensures r.Some? <==> name in TypeNames
    ensures r.Some? ==> TypeName(r.value) == name
  {
    if name == "Cooperator" then Some(Cooperator)
    else if name == "Defector" then Some(Defector)
    else if name == "PartialCooperator" then Some(PartialCooperator)
    else None
  }

  /** Each variant is recovered from its type name, so distinct variants have distinct names. */
  lemma TypeNameRoundTrip(k: Kind)
    ensures ParseType(TypeName(k)) == Some(k)
  {
  }

  /** `getCooperationProbability()` of each variant. */
  function CooperationProbability(k: Kind): (p: real)
    ensures 0.0 <= p <= 1.0
  {
    match k
    case Cooperator => 1.0
    case Defector => 0.0
    case PartialCooperator => 0.5
  }

  /** Whether `cooperates()` consults the random source (only the partial cooperator does). */
  predicate DrawsCoin(k: Kind)
  {
    k == PartialCooperator
  }

  /** `cooperates()` of each variant, given the coin a partial cooperator would toss. */
  function Decision(k: Kind, coin: bool): (b: bool)
    ensures !DrawsCoin(k) ==> (b <==> CooperationProbability(k) == 1.0)
    ensures DrawsCoin(k) ==> b == coin
  {
    match k
    case Cooperator => true
    case Defector => false
    case PartialCooperator => coin
  }

  /**
   * The decisions agree with the advertised probabilities: probability 1
   * means always, 0 means never, and 0.5 means the coin decides, so both
   * outcomes occur.
   */
  lemma DecisionMatchesProbability(k: Kind)
    ensures CooperationProbability(k) == 1.0 <==> Decision(k, false) && Decision(k, true)
    ensures CooperationProbability(k) == 0.0 <==> !Decision(k, false) && !Decision(k, true)
    ensures CooperationProbability(k) == 0.5 <==> !Decision(k, false) && Decision(k, true)
  {
  }

  /** The value of an organism: its variant and its energy. */
  datatype OrgState = OrgState(kind: Kind, energy: nat)

  /** `decrementEnergy()` on a value: one less, but never below zero. */
  function Decremented(e: nat): (r: nat)
    ensures e > 0 ==> r == e - 1
    ensures e == 0 ==> r == 0
  {
    if e != 0 then e - 1 else 0
  }

  class Organism {
    const kind: Kind
    var energy: nat

    /** A new organism of any variant starts with no energy. */
    constructor (kind: Kind)
      ensures this.kind == kind && energy == 0
    {
      this.kind := kind;
      energy := 0;
    }

    /** Passive energy gain once per tick. */
    method Update()
      modifies this
      ensures energy == old(energy) + 1
    {
      IncrementEnergy();
    }

    function GetEnergy(): (e: nat)
      reads this
      ensures e == energy
    {
      energy
    }

    method IncrementEnergy()
      modifies this
      ensures energy == old(energy) + 1
    {
      energy := energy + 1;
    }

    method DecrementEnergy()
      modifies this
      ensures old(energy) > 0 ==> energy == old(energy) - 1
      ensures old(energy) == 0 ==> energy == 0
      ensures energy == Decremented(old(energy))
    {
      if energy != 0 {
        energy := energy - 1;
      }
    }

    /** `cooperates()`: only a partial cooperator draws, one `nextBoolean()`. */
    method Cooperates(rng: Random) returns (b: bool)
      modifies rng
      ensures b == Decision(kind, Coin(rng.source, old(rng.calls)))
      ensures rng.calls == old(rng.calls) + (if DrawsCoin(kind) then 1 else 0)
    {
      match kind
      case Cooperator => b := true;
      case Defector => b := false;
      case PartialCooperator => b := rng.NextBoolean();
    }

    /** `reproduce()`: spend all energy, one unit at a time, on one offspring of the same variant. */
    method Reproduce() returns (child: Organism)
      modifies this
      ensures energy == 0
      ensures fresh(child) && child.kind == kind && child.energy == 0
    {
      while GetEnergy() > 0
        decreases energy
      {
        DecrementEnergy();
      }
      child := new Organism(kind);
    }
  }
}
