/** The feature generator of src/core/generator.ts: looks a blueprint up,
    compiles its generator text, refuses results over the size limit, caches
    what it accepted and evaluates it into a feature. */
module Generator {

  import opened Types
  import opened Blueprints
  import opened Manager
  import opened GeneratorText
  import opened Size

  /** The per-feature size limit, in UTF-8 bytes. */
  const MaxFeatureSize: nat := 256

  datatype GenError =
    | NotFound(name: string)
    | TooLarge(name: string, size: nat)
    | EvalFailed(name: string)

  /** What generating `name` against the blueprint store `bps` yields: an
      unknown name fails, compiled code over the limit fails, and code within
      it becomes a feature exactly when it evaluates. */
  function Generated(bps: map<string, Blueprint>, name: string, evaluates: string -> bool)
    : (r: Result<GeneratedFeature, GenError>)
    ensures (r.Failure? && r.error.NotFound?) <==> name !in bps
    ensures r.Success? ==>
      && name in bps
      && r.value.code == Compile(bps[name])
      && MeasureFeatureSize(r.value.code) <= MaxFeatureSize
      && evaluates(r.value.code)
  {
    if name !in bps then Failure(NotFound(name))
    else
      var code := Compile(bps[name]);
      var size := MeasureFeatureSize(code);
      if size > MaxFeatureSize then Failure(TooLarge(name, size))
      else if evaluates(code) then Success(GeneratedFeature(code))
      else Failure(EvalFailed(name))
  }

  /** Whether `generateFeature` caches `name`: it is registered and its
      compiled code is within the limit. */
  predicate Fits(bps: map<string, Blueprint>, name: string) {
    name in bps && MeasureFeatureSize(Compile(bps[name])) <= MaxFeatureSize
  }

  /** The cache after one `generateFeature` call for `name`. */
  function CacheAfter(bps: map<string, Blueprint>, cache: map<string, string>, name: string): map<string, string> {
    if Fits(bps, name) then cache[name := Compile(bps[name])] else cache
  }

  /** The cache after `generateFeature` calls for `names`, in order. */
  function CacheAfterAll(bps: map<string, Blueprint>, cache: map<string, string>, names: seq<string>)
    : map<string, string>
  {
    if names == [] then cache
    else CacheAfter(bps, CacheAfterAll(bps, cache, names[..|names| - 1]), names[|names| - 1])
  }

  /** After a run of calls the cache holds the old entries and the names
      that fit, and nothing else. */
  lemma {:induction false} CacheAfterAllKeys(bps: map<string, Blueprint>, cache: map<string, string>, names: seq<string>)
    ensures forall n :: n in CacheAfterAll(bps, cache, names) <==> n in cache || (n in names && Fits(bps, n))
  {
    if names != [] {
      var m := |names| - 1;
      CacheAfterAllKeys(bps, cache, names[..m]);
      assert names == names[..m] + [names[m]];
    }
  }

  /** After a run of calls every name that fits is cached with its
      compiled code, and every other old entry keeps its value. */
  lemma {:induction false} CacheAfterAllValues(bps: map<string, Blueprint>, cache: map<string, string>, names: seq<string>)
    ensures var c := CacheAfterAll(bps, cache, names);
      && (forall n :: n in names && Fits(bps, n) ==> n in c && c[n] == Compile(bps[n]))
      && (forall n :: n in cache && !(n in names && Fits(bps, n)) ==> n in c && c[n] == cache[n])
  {
    if names != [] {
      var m := |names| - 1;
      CacheAfterAllValues(bps, cache, names[..m]);
      assert names == names[..m] + [names[m]];
    }
  }

  /** A name is cached exactly when its generation gets past the size
      check: it succeeds, or only its evaluation fails. */
  lemma CachedIffPastSizeCheck(bps: map<string, Blueprint>, name: string, evaluates: string -> bool)
    ensures var r := Generated(bps, name, evaluates);
      Fits(bps, name) <==> r.Success? || r.error.EvalFailed?
  {
  }

  class FeatureGenerator {
    /** The generator's own blueprint store. It is private and no method
        here registers into it, so it keeps holding the built-in table it
        was constructed with. */
    const manager: BlueprintManager
    /** Name to optimized code, for every feature generated so far. */
    var cache: map<string, string>

    ghost predicate Valid()
      reads this, manager
    {
      && manager.Valid()
      && forall k :: k in cache ==>
           && k in manager.blueprints
           && cache[k] == Compile(manager.blueprints[k])
           && MeasureFeatureSize(cache[k]) <= MaxFeatureSize
    }

    constructor ()
      ensures Valid()
      ensures fresh(manager)
      ensures manager.blueprints == BasicMap()
      ensures cache == map[]
    {
      manager := new BlueprintManager();
      cache := map[];
    }

    /** `generateFeature`. An unknown name fails before the cache is looked
        at. A cached entry is evaluated as it is; otherwise the blueprint is
        compiled, a result over the limit fails and is not cached, and one
        within the limit is cached before it is evaluated, so that an
        evaluation failure still leaves it cached. `evaluates` says whether
        evaluating a piece of code succeeds.

        Because every cached entry is what compiling would produce, the
        result never depends on the cache: it is `Generated`. */
    method GenerateFeature(name: string, evaluates: string -> bool)
      returns (r: Result<GeneratedFeature, GenError>)
      requires Valid()
      modifies this
      ensures Valid()
      ensures name !in manager.blueprints ==> r == Failure(NotFound(name)) && cache == old(cache)
      ensures name in manager.blueprints ==>
        var code := Compile(manager.blueprints[name]);
        var size := MeasureFeatureSize(code);
        && (size > MaxFeatureSize ==> r == Failure(TooLarge(name, size)) && cache == old(cache))
        && (size <= MaxFeatureSize ==>
              && cache == old(cache)[name := code]
              && r == (if evaluates(code) then Success(GeneratedFeature(code)) else Failure(EvalFailed(name))))
      ensures r == Generated(manager.blueprints, name, evaluates)
      ensures cache == CacheAfter(manager.blueprints, old(cache), name)
    {
      var blueprint := manager.GetBlueprint(name);
      if blueprint.None? {
        return Failure(NotFound(name));
      }
      assert Compile(blueprint.value) != "" by {
        CompiledIsNonEmpty(blueprint.value);
      }
      if name in cache && cache[name] != "" {
        var cached := cache[name];
        assert cached == Compile(manager.blueprints[name]);
        assert MeasureFeatureSize(cached) <= MaxFeatureSize;
        assert cache == cache[name := cached];
        if evaluates(cached) {
          return Success(GeneratedFeature(cached));
        }
        return Failure(EvalFailed(name));
      }
      var optimized := Compile(blueprint.value);
      var size := MeasureFeatureSize(optimized);
      if size > MaxFeatureSize {
        return Failure(TooLarge(name, size));
      }
      cache := cache[name := optimized];
      if evaluates(optimized) {
        r := Success(GeneratedFeature(optimized));
      } else {
        r := Failure(EvalFailed(name));
      }
    }

    /** `clearCache`: forgets every generated feature. */
    method ClearCache()
      requires Valid()
      modifies this
      ensures Valid()
      ensures cache == map[]
    {
      cache := map[];
    }
  }
}
