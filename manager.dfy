/** The blueprint store of src/features/manager.ts: a map from feature names
    to blueprints, filled with the built-in table at construction; every
    registration is validated against fixed enumerations first. */
module Manager {

  import opened Types
  import opened Blueprints

  const Kinds: set<string> := {"inline", "block", "void"}
  const Requirements: set<string> := {"selection", "range", "input", "block"}
  const DomImpacts: set<string> := {"wrap", "insert", "transform"}

  /** The errors the validator throws, each naming the offending value. */
  datatype ValidationError =
    | InvalidType(kind: string)
    | InvalidRequirement(requirement: string)
    | InvalidDomImpact(impact: string)

  /** A blueprint the validator accepts. `cleanupSteps` is not inspected. */
  predicate WellFormed(b: Blueprint) {
    && b.kind in Kinds
    && (forall i :: 0 <= i < |b.requirements| ==> b.requirements[i] in Requirements)
    && (forall i :: 0 <= i < |b.domImpact| ==> b.domImpact[i] in DomImpacts)
  }

  /** The position of the first element outside `allowed`, if any. */
  function FirstOutside(xs: seq<string>, allowed: set<string>): (r: Option<nat>)
    ensures r.None? <==> forall i :: 0 <= i < |xs| ==> xs[i] in allowed
    ensures r.Some? ==> r.value < |xs| && xs[r.value] !in allowed
    ensures r.Some? ==> forall i :: 0 <= i < r.value ==> xs[i] in allowed
  {
    if xs == [] then None
    else if xs[0] !in allowed then Some(0)
    else match FirstOutside(xs[1..], allowed)
      case None => None
      case Some(k) => Some(k + 1)
  }

  /** What `#validateBlueprint` throws, if anything: the type is checked
      first, then the requirements in order, then the DOM impacts in order;
      the first offending value is reported. */
  function Validation(b: Blueprint): (r: Option<ValidationError>)
    ensures r.None? <==> WellFormed(b)
    ensures b.kind !in Kinds ==> r == Some(InvalidType(b.kind))
    ensures r.Some? && r.value.InvalidRequirement? ==>
      && b.kind in Kinds
      && r.value.requirement in b.requirements
      && r.value.requirement !in Requirements
    ensures r.Some? && r.value.InvalidDomImpact? ==>
      b.kind in Kinds && (forall i :: 0 <= i < |b.requirements| ==> b.requirements[i] in Requirements)
        && r.value.impact !in DomImpacts
  {
    if b.kind !in Kinds then Some(InvalidType(b.kind))
    else match FirstOutside(b.requirements, Requirements)
      case Some(i) => Some(InvalidRequirement(b.requirements[i]))
      case None =>
        match FirstOutside(b.domImpact, DomImpacts)
        case Some(i) => Some(InvalidDomImpact(b.domImpact[i]))
        case None => None
  }

  /** A table that registers without error into an empty store: every
      entry validates, and no two entries share a name. */
  predicate Registrable(entries: seq<(string, Blueprint)>) {
    && (forall i :: 0 <= i < |entries| ==> WellFormed(entries[i].1))
    && (forall i, j :: 0 <= i < j < |entries| ==> entries[i].0 != entries[j].0)
  }

  /** Every built-in blueprint passes validation, so construction never
      throws. */
  lemma BasicBlueprintsWellFormed()
    ensures Registrable(BasicBlueprints)
  {
    BasicTableShape();
    TableRows();
    RowsWellFormed();
  }

  lemma RowsWellFormed()
    ensures forall i :: 0 <= i < |BasicRows| ==> WellFormed(RowBlueprint(BasicRows[i]))
  {
  }

  /** Sequence without the entries equal to `x`, order kept. */
  function Without(xs: seq<string>, x: string): (r: seq<string>)
    ensures forall y :: y in r <==> y in xs && y != x
    ensures Distinct(xs) ==> Distinct(r)
  {
    if xs == [] then []
    else if xs[0] == x then Without(xs[1..], x)
    else
      var rest := Without(xs[1..], x);
      assert Distinct(xs) ==> xs[0] !in xs[1..];
      [xs[0]] + rest
  }

  predicate Distinct(xs: seq<string>) {
    forall i, j :: 0 <= i < j < |xs| ==> xs[i] != xs[j]
  }

  lemma TableSnoc(entries: seq<(string, Blueprint)>, i: nat)
    requires i < |entries|
    ensures TableMap(entries[..i + 1]) == TableMap(entries[..i])[entries[i].0 := entries[i].1]
  {
    assert entries[..i + 1][..i] == entries[..i];
  }

  lemma KeysSnoc(entries: seq<(string, Blueprint)>, i: nat)
    requires i < |entries|
    ensures Keys(entries[..i + 1]) == Keys(entries[..i]) + [entries[i].0]
  {
  }

  class BlueprintManager {
    /** The `#blueprints` Map: its entries, and its keys in insertion order
        (the order a JavaScript Map iterates in). */
    var blueprints: map<string, Blueprint>
    var names: seq<string>

    ghost predicate Valid()
      reads this
    {
      && Distinct(names)
      && (forall n :: n in blueprints <==> n in names)
      && (forall n :: n in blueprints ==> WellFormed(blueprints[n]))
    }

    /** Starts empty and registers the built-in table. */
    constructor ()
      ensures Valid()
      ensures blueprints == BasicMap() && names == BasicNames()
    {
      blueprints := map[];
      names := [];
      new;
      BasicBlueprintsWellFormed();
      RegisterAll(BasicBlueprints);
    }

    /** `#registerBasicBlueprints`: registers the entries one by one, in
        order, into the empty store. */
    method RegisterAll(entries: seq<(string, Blueprint)>)
      requires Valid() && blueprints == map[] && names == []
      requires Registrable(entries)
      modifies this
      ensures Valid()
      ensures blueprints == TableMap(entries) && names == Keys(entries)
    {
      for i := 0 to |entries|
        invariant Valid()
        invariant blueprints == TableMap(entries[..i])
        invariant names == Keys(entries[..i])
      {
        var entry := entries[i];
        assert entry.0 !in names by {
          forall j | 0 <= j < i ensures names[j] != entry.0 {
            assert names[j] == entries[j].0;
          }
        }
        TableSnoc(entries, i);
        KeysSnoc(entries, i);
        var err := RegisterBlueprint(entry.0, entry.1);
      }
      assert entries[..|entries|] == entries;
    }

    /** Lookup: the blueprint, or None for an unknown name (never an error). */
    function GetBlueprint(name: string): (r: Option<Blueprint>)
      reads this
      ensures r.Some? <==> name in blueprints
      ensures r.Some? ==> r.value == blueprints[name]
    {
      if name in blueprints then Some(blueprints[name]) else None
    }

    /** `hasBlueprint`: the lookup finds the name; in a valid store,
        exactly when the name is listed. */
    function HasBlueprint(name: string): (b: bool)
      reads this
      ensures b <==> GetBlueprint(name).Some?
      ensures Valid() ==> (b <==> name in names)
    {
      name in blueprints
    }

    /** Validates, then sets. A rejected blueprint leaves the store as it
        was; an accepted one replaces any earlier entry under the same name,
        which keeps its place in the key order. */
    method RegisterBlueprint(name: string, b: Blueprint) returns (err: Option<ValidationError>)
      requires Valid()
      modifies this
      ensures Valid()
      ensures err == Validation(b)
      ensures err.Some? ==> blueprints == old(blueprints) && names == old(names)
      ensures err.None? ==> blueprints == old(blueprints)[name := b] && GetBlueprint(name) == Some(b)
      ensures err.None? && name in old(blueprints) ==> names == old(names)
      ensures err.None? && name !in old(blueprints) ==> names == old(names) + [name]
    {
      err := ValidateBlueprint(b);
      if err.None? {
        if name !in blueprints {
          names := names + [name];
        }
        blueprints := blueprints[name := b];
      }
    }

    /** `#validateBlueprint`: the two `forEach` loops stop at the first
        offending element. */
    static method ValidateBlueprint(b: Blueprint) returns (err: Option<ValidationError>)
      ensures err == Validation(b)
    {
      if b.kind !in Kinds {
        return Some(InvalidType(b.kind));
      }
      for i := 0 to |b.requirements|
        invariant forall j :: 0 <= j < i ==> b.requirements[j] in Requirements
      {
        if b.requirements[i] !in Requirements {
          return Some(InvalidRequirement(b.requirements[i]));
        }
      }
      for i := 0 to |b.domImpact|
        invariant forall j :: 0 <= j < i ==> b.domImpact[j] in DomImpacts
      {
        if b.domImpact[i] !in DomImpacts {
          return Some(InvalidDomImpact(b.domImpact[i]));
        }
      }
      return None;
    }

    /** Deletes the entry if present; all other entries stay as they were. */
    method RemoveBlueprint(name: string)
      requires Valid()
      modifies this
      ensures Valid()
      ensures !HasBlueprint(name)
      ensures blueprints == old(blueprints) - {name}
      ensures names == Without(old(names), name)
    {
      blueprints := blueprints - {name};
      names := Without(names, name);
    }

    /** The registered names, in insertion order. */
    function GetAllBlueprints(): (r: seq<string>)
      reads this
      requires Valid()
      ensures Distinct(r)
      ensures forall n :: n in r <==> HasBlueprint(n)
    {
      names
    }
  }
}
