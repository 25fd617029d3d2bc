/** The editor of src/editor.ts: it owns a state store and a feature
    generator, keeps the enabled features in insertion order, tracks which of
    them the current selection has switched on, and reports content changes
    to an optional callback.

    The element is represented by its `innerHTML` text. What a feature's
    `exec` does to the document, whether its `cleanup` throws, what
    `queryCommandState` answers and the clock reading are inputs of the
    operations that depend on them. */
module EditorCore {

  import opened Types
  import opened Blueprints
  import opened Manager
  import opened GeneratorText
  import opened Generator
  import opened State
  import opened Size

  /** The errors the editor's operations throw. */
  datatype EditorError =
    | FeatureNotFound(name: string)
    | CleanupFailed(name: string)
    | GenerationFailed(error: GenError)

  /** What running a feature's `exec` did: the element's content afterwards,
      and whether `exec` returned or threw. */
  datatype ExecResult = Ran(html: string) | Threw(html: string)

  /** `#getCommand` as written: the seven names it renames, and the identity
      for every other name. */
  function GetCommandAsWritten(feature: string): (c: string)
    ensures c == feature <==> feature !in {"link", "heading", "list", "code"}
  {
    if feature == "bold" then "bold"
    else if feature == "italic" then "italic"
    else if feature == "underline" then "underline"
    else if feature == "link" then "createLink"
    else if feature == "heading" then "formatBlock"
    else if feature == "list" then "insertUnorderedList"
    else if feature == "code" then "formatBlock"
    else feature
  }

  /** The command whose state the selection handler queries for a feature:
      the command the feature's generator text calls. This extends the
      source's mapping to the six built-in features it leaves out. */
  function GetCommand(feature: string): (c: string)
    ensures c == feature <==>
      feature !in {"link", "heading", "list", "code", "image", "color",
                   "alignLeft", "alignCenter", "alignRight", "blockquote"}
    ensures feature !in {"image", "color", "alignLeft", "alignCenter", "alignRight", "blockquote"} ==>
      c == GetCommandAsWritten(feature)
  {
    if feature == "image" then "insertImage"
    else if feature == "color" then "foreColor"
    else if feature == "alignLeft" then "justifyLeft"
    else if feature == "alignCenter" then "justifyCenter"
    else if feature == "alignRight" then "justifyRight"
    else if feature == "blockquote" then "formatBlock"
    else GetCommandAsWritten(feature)
  }

  lemma RowsAsListed()
    ensures |BasicRows| == |RowNames| == |RowCommands|
    ensures forall i :: 0 <= i < |BasicRows| ==>
      BasicRows[i].name == RowNames[i] && BasicRows[i].command == RowCommands[i]
  {
    RowNamesListed();
    RowCommandsListed();
  }

  /** As written, the selection handler queries the command a built-in
      feature calls for exactly nine of the fifteen; for image, color, the
      three alignments and blockquote it queries the feature's own name,
      which is not the command their text calls. */
  lemma AsWrittenQueriesOtherCommand()
    ensures forall i :: 0 <= i < |BasicRows| ==>
      (GetCommandAsWritten(BasicRows[i].name) == BasicRows[i].command <==> i !in {6, 9, 10, 11, 12, 14})
  {
    RowsAsListed();
    ListedCommandsAsWritten();
  }

  lemma ListedCommandsAsWritten()
    ensures forall i :: 0 <= i < |RowNames| && i < |RowCommands| ==>
      (GetCommandAsWritten(RowNames[i]) == RowCommands[i] <==> i !in {6, 9, 10, 11, 12, 14})
  {
  }

  /** The queried command of every built-in feature is the command its
      generator text calls. */
  lemma QueriedCommandIsCalled(i: nat)
    requires i < |BasicBlueprints|
    ensures GetCommand(BasicBlueprints[i].0) == BasicRows[i].command
    ensures Contains(BasicBlueprints[i].1.generate, CallOf(GetCommand(BasicBlueprints[i].0)))
  {
    TableRows();
    RowsAsListed();
    if i < 5 {
      ListedCommandQueried0(i);
    } else if i < 10 {
      ListedCommandQueried1(i);
    } else {
      ListedCommandQueried2(i);
    }
    GeneratorCalls(i);
  }

  lemma ListedCommandQueried0(k: nat)
    requires 0 <= k < 5
    ensures GetCommand(RowNames[k]) == RowCommands[k]
  {
    if k == 0 {
      assert GetCommand(RowNames[0]) == RowCommands[0];
    } else if k == 1 {
      assert GetCommand(RowNames[1]) == RowCommands[1];
    } else if k == 2 {
      assert GetCommand(RowNames[2]) == RowCommands[2];
    } else if k == 3 {
      assert GetCommand(RowNames[3]) == RowCommands[3];
    } else {
      assert GetCommand(RowNames[4]) == RowCommands[4];
    }
  }

  lemma ListedCommandQueried1(k: nat)
    requires 5 <= k < 10
    ensures GetCommand(RowNames[k]) == RowCommands[k]
  {
    if k == 5 {
      assert GetCommand(RowNames[5]) == RowCommands[5];
    } else if k == 6 {
      assert GetCommand(RowNames[6]) == RowCommands[6];
    } else if k == 7 {
      assert GetCommand(RowNames[7]) == RowCommands[7];
    } else if k == 8 {
      assert GetCommand(RowNames[8]) == RowCommands[8];
    } else {
      assert GetCommand(RowNames[9]) == RowCommands[9];
    }
  }

  lemma ListedCommandQueried2(k: nat)
    requires 10 <= k < 15
    ensures GetCommand(RowNames[k]) == RowCommands[k]
  {
    if k == 10 {
      assert GetCommand(RowNames[10]) == RowCommands[10];
    } else if k == 11 {
      assert GetCommand(RowNames[11]) == RowCommands[11];
    } else if k == 12 {
      assert GetCommand(RowNames[12]) == RowCommands[12];
    } else if k == 13 {
      assert GetCommand(RowNames[13]) == RowCommands[13];
    } else {
      assert GetCommand(RowNames[14]) == RowCommands[14];
    }
  }

  /** The position of the first name whose cleanup throws, if any. */
  function FirstThrowing(names: seq<string>, throwing: set<string>): (r: Option<nat>)
    ensures r.None? <==> forall i :: 0 <= i < |names| ==> names[i] !in throwing
    ensures r.Some? ==> r.value < |names| && names[r.value] in throwing
    ensures r.Some? ==> forall i :: 0 <= i < r.value ==> names[i] !in throwing
  {
    if names == [] then None
    else if names[0] in throwing then Some(0)
    else match FirstThrowing(names[1..], throwing)
      case None => None
      case Some(k) => Some(k + 1)
  }

  lemma FirstThrowingAt(names: seq<string>, throwing: set<string>, i: nat)
    requires i < |names| && names[i] in throwing
    requires forall k :: 0 <= k < i ==> names[k] !in throwing
    ensures FirstThrowing(names, throwing) == Some(i)
  {
  }

  /** The log after a FEATURE_DISABLE entry for each name, in order. */
  function DisableLog(h: seq<StateUpdate>, names: seq<string>, now: int): (r: seq<StateUpdate>)
    requires |h| <= MaxHistory
    ensures |r| <= MaxHistory
  {
    if names == [] then h
    else Appended(DisableLog(h, names[..|names| - 1], now), StateUpdate(FeatureDisable, names[|names| - 1], now))
  }

  lemma DisableLogSnoc(h: seq<StateUpdate>, names: seq<string>, i: nat, now: int)
    requires |h| <= MaxHistory && i < |names|
    ensures DisableLog(h, names[..i + 1], now)
      == Appended(DisableLog(h, names[..i], now), StateUpdate(FeatureDisable, names[i], now))
  {
    assert names[..i + 1][..i] == names[..i];
  }

  lemma {:induction false} WithoutAbsent(xs: seq<string>, x: string)
    requires x !in xs
    ensures Without(xs, x) == xs
  {
    if xs != [] {
      WithoutAbsent(xs[1..], x);
    }
  }

  /** Removing the first name of a list without repeats leaves the rest. */
  lemma WithoutHead(xs: seq<string>)
    requires xs != [] && Distinct(xs)
    ensures Without(xs, xs[0]) == xs[1..]
  {
    WithoutAbsent(xs[1..], xs[0]);
  }

  /** Every entry of the log is FEATURE_ENABLE. */
  predicate OnlyEnables(h: seq<StateUpdate>) {
    forall k :: 0 <= k < |h| ==> h[k].kind == FeatureEnable
  }

  lemma EnableKeepsOnlyEnables(h: seq<StateUpdate>, name: string, now: int)
    requires |h| <= MaxHistory
    ensures OnlyEnables(h) ==> OnlyEnables(Appended(h, StateUpdate(FeatureEnable, name, now)))
  {
  }

  /** What each of the constructor's `enable` calls generates, in call
      order. */
  function Generations(bps: map<string, Blueprint>, names: seq<string>, evaluates: string -> bool)
    : (rs: seq<Result<GeneratedFeature, GenError>>)
    ensures |rs| == |names|
    ensures forall k :: 0 <= k < |names| ==> rs[k] == Generated(bps, names[k], evaluates)
  {
    seq(|names|, k requires 0 <= k < |names| => Generated(bps, names[k], evaluates))
  }

  /** The FEATURE_ENABLE entries the resumptions log: one per call whose
      generation succeeded, in call order, a name listed twice logged
      twice. */
  function EnableEntries(names: seq<string>, results: seq<Result<GeneratedFeature, GenError>>, now: int)
    : (es: seq<StateUpdate>)
    requires |results| == |names|
    ensures OnlyEnables(es) && |es| <= |names|
    ensures forall j :: 0 <= j < |es| ==>
      && es[j].timestamp == now
      && exists k :: 0 <= k < |names| && results[k].Success? && es[j].payload == names[k]
  {
    if names == [] then []
    else
      var n := |names| - 1;
      var prev := EnableEntries(names[..n], results[..n], now);
      if results[n].Success? then prev + [StateUpdate(FeatureEnable, names[n], now)] else prev
  }

  /** The `#features` entries after the resumptions: each succeeding call
      sets its name to its feature. */
  function StoredFeatures(f0: map<string, GeneratedFeature>, names: seq<string>,
                          results: seq<Result<GeneratedFeature, GenError>>)
    : map<string, GeneratedFeature>
    requires |results| == |names|
  {
    if names == [] then f0
    else
      var n := |names| - 1;
      var prev := StoredFeatures(f0, names[..n], results[..n]);
      if results[n].Success? then prev[names[n] := results[n].value] else prev
  }

  /** The key order after the resumptions: a succeeding name not yet
      present is appended. */
  function StoredOrder(o0: seq<string>, names: seq<string>, results: seq<Result<GeneratedFeature, GenError>>)
    : seq<string>
    requires |results| == |names|
  {
    if names == [] then o0
    else
      var n := |names| - 1;
      var prev := StoredOrder(o0, names[..n], results[..n]);
      if results[n].Success? && names[n] !in prev then prev + [names[n]] else prev
  }

  lemma StoredSnoc(f0: map<string, GeneratedFeature>, o0: seq<string>, names: seq<string>,
                   results: seq<Result<GeneratedFeature, GenError>>, i: nat, now: int)
    requires |results| == |names| && i < |names|
    ensures var ns, rs := names[..i + 1], results[..i + 1];
      && StoredFeatures(f0, ns, rs) ==
           (var prev := StoredFeatures(f0, names[..i], results[..i]);
            if results[i].Success? then prev[names[i] := results[i].value] else prev)
      && StoredOrder(o0, ns, rs) ==
           (var prev := StoredOrder(o0, names[..i], results[..i]);
            if results[i].Success? && names[i] !in prev then prev + [names[i]] else prev)
      && EnableEntries(ns, rs, now) ==
           (var prev := EnableEntries(names[..i], results[..i], now);
            if results[i].Success? then prev + [StateUpdate(FeatureEnable, names[i], now)] else prev)
  {
    assert names[..i + 1][..i] == names[..i];
    assert results[..i + 1][..i] == results[..i];
  }

  /** Starting from a map and a key list that agree, the resumptions keep
      the key list free of repeats and in agreement with the map, keep the
      old keys first, and add exactly the names of succeeding calls, each
      with the feature of one of its succeeding calls. */
  lemma {:induction false} StoredKeys(f0: map<string, GeneratedFeature>, o0: seq<string>, names: seq<string>,
                                      results: seq<Result<GeneratedFeature, GenError>>)
    requires |results| == |names|
    requires Distinct(o0) && forall n :: n in f0 <==> n in o0
    ensures var f, o := StoredFeatures(f0, names, results), StoredOrder(o0, names, results);
      && Distinct(o) && |o| >= |o0| && o[..|o0|] == o0
      && (forall n :: n in f <==> n in o)
      && (forall n :: n in f <==> n in f0 || exists k :: 0 <= k < |names| && names[k] == n && results[k].Success?)
      && (forall n :: n in f && n !in f0 ==>
            exists k :: 0 <= k < |names| && names[k] == n && results[k].Success? && f[n] == results[k].value)
  {
    if names != [] {
      var n := |names| - 1;
      var ns, rs := names[..n], results[..n];
      StoredKeys(f0, o0, ns, rs);
      var f, o := StoredFeatures(f0, names, results), StoredOrder(o0, names, results);
      var pf, po := StoredFeatures(f0, ns, rs), StoredOrder(o0, ns, rs);
      forall m | m in f && m !in f0
        ensures exists k :: 0 <= k < |names| && names[k] == m && results[k].Success? && f[m] == results[k].value
      {
        if results[n].Success? && m == names[n] {
        } else {
          var k :| 0 <= k < n && ns[k] == m && rs[k].Success? && pf[m] == rs[k].value;
          assert names[k] == m && results[k] == rs[k];
        }
      }
      forall m | m in f0 || exists k :: 0 <= k < |names| && names[k] == m && results[k].Success?
        ensures m in f
      {
        if m !in f0 && !(results[n].Success? && m == names[n]) {
          var k :| 0 <= k < |names| && names[k] == m && results[k].Success?;
          assert k < n && ns[k] == m && rs[k].Success?;
        }
      }
      if results[n].Success? && names[n] !in po {
        assert o[..|o0|] == po[..|o0|];
      }
    }
  }

  /** Logging one more entry after a window of `h + es` gives the window
      of `h + es` with that entry added. */
  lemma LogStep(h: seq<StateUpdate>, es: seq<StateUpdate>, u: StateUpdate)
    ensures Appended(Window(h + es), u) == Window(h + (es + [u]))
  {
    AppendedWindow(h + es, u);
    assert h + es + [u] == h + (es + [u]);
  }

  /** The features the constructor stores: exactly the listed names whose
      generation succeeds, each with its generated feature. */
  lemma ConstructedFeatures(bps: map<string, Blueprint>, names: seq<string>, evaluates: string -> bool)
    ensures var f := StoredFeatures(map[], names, Generations(bps, names, evaluates));
      && (forall n :: n in f <==> n in names && Generated(bps, n, evaluates).Success?)
      && (forall n :: n in f ==> f[n] == Generated(bps, n, evaluates).value)
  {
    var rs := Generations(bps, names, evaluates);
    StoredKeys(map[], [], names, rs);
  }

  /** A window of a log of FEATURE_ENABLE entries holds only such entries. */
  lemma WindowOnlyEnables(h: seq<StateUpdate>, es: seq<StateUpdate>)
    requires OnlyEnables(h) && OnlyEnables(es)
    ensures OnlyEnables(Window(h + es))
  {
    var all := h + es;
    assert OnlyEnables(all) by {
      forall k | 0 <= k < |all| ensures all[k].kind == FeatureEnable {
        if k < |h| {
          assert all[k] == h[k];
        } else {
          assert all[k] == es[k - |h|];
        }
      }
    }
    if |all| > MaxHistory {
      var w := Window(all);
      forall k | 0 <= k < |w| ensures w[k].kind == FeatureEnable {
        assert w[k] == all[|all| - MaxHistory + k];
      }
    }
  }

  /** The text `toString` gives for a generated feature object. */
  const ObjectText: string := "[object Object]"

  /** `n` copies of `t`. */
  function Repeated(t: string, n: nat): (r: seq<string>)
    ensures |r| == n
    ensures forall i :: 0 <= i < n ==> r[i] == t
  {
    if n == 0 then [] else Repeated(t, n - 1) + [t]
  }

  lemma ObjectTextSize()
    ensures MeasureFeatureSize(ObjectText) == 15
  {
    assert IsAscii(ObjectText);
  }

  /** Every copy of the object text counts 15 bytes. */
  lemma {:induction false} ObjectTextsSize(n: nat)
    ensures TotalSize(Repeated(ObjectText, n)) == 15 * n
  {
    if n > 0 {
      ObjectTextsSize(n - 1);
      TotalSizeAppend(Repeated(ObjectText, n - 1), ObjectText);
      ObjectTextSize();
    }
  }

  class Editor {
    /** The element's `innerHTML`. */
    var html: string
    const state: StateManager
    const generator: FeatureGenerator
    /** The `#features` Map: its entries, and its keys in insertion order. */
    var features: map<string, GeneratedFeature>
    var order: seq<string>
    /** `#activeFeatures`: the features the selection has switched on. */
    var active: set<string>
    /** The arguments `onChange` has been called with, oldest first. */
    var notified: seq<string>
    /** Whether the input, selection and paste listeners are attached. */
    var listening: bool

    /** The editor's own invariant: the keys are listed once each, in the
        order they were first stored; only enabled features are active;
        every enabled feature is a registered blueprint. The generator's
        invariant, which only `enable` relies on, is kept apart: the other
        operations do not touch the generator. */
    ghost predicate Valid()
      reads this, state, generator.manager
    {
      && state.Valid()
      && Distinct(order)
      && (forall n :: n in features <==> n in order)
      && active <= features.Keys
      && forall n :: n in features ==> n in generator.manager.blueprints
    }

    /** The code of the enabled features, in insertion order. */
    function Codes(): (codes: seq<string>)
      reads this
      requires forall n :: n in order ==> n in features
      ensures |codes| == |order|
      ensures forall i :: 0 <= i < |order| ==> codes[i] == features[order[i]].code
    {
      var o := order;
      var f := features;
      seq(|o|, i requires 0 <= i < |o| => f[o[i]].code)
    }

    /** The editor over an element whose content is `element`, enabling the
        listed features. The state store starts from the element's content.
        Each `enable` call runs synchronously up to its `await`, that is,
        through the has-check and the generation, before any of them
        resumes; the resumptions then store the generated features and log
        FEATURE_ENABLE in call order. A name whose generation fails is
        skipped, and a name listed twice is stored once but logged twice. */
    constructor (element: string, names: seq<string>, evaluates: string -> bool, now: int)
      ensures Valid() && generator.Valid()
      ensures fresh(state) && fresh(generator) && fresh(generator.manager)
      ensures generator.manager.blueprints == BasicMap()
      ensures html == element && state.content == element
      ensures active == {} && notified == [] && listening
      ensures var rs := Generations(BasicMap(), names, evaluates);
        && features == StoredFeatures(map[], names, rs)
        && order == StoredOrder([], names, rs)
        && state.history == Window(EnableEntries(names, rs, now))
      ensures forall n :: n in features <==> n in names && Generated(BasicMap(), n, evaluates).Success?
      ensures forall n :: n in features ==> features[n] == Generated(BasicMap(), n, evaluates).value
      ensures OnlyEnables(state.history)
      ensures generator.cache == CacheAfterAll(BasicMap(), map[], names)
    {
      html := element;
      state := new StateManager(Some(element));
      generator := new FeatureGenerator();
      features := map[];
      order := [];
      active := {};
      notified := [];
      listening := true;
      new;
      var results := GenerateAll(names, evaluates);
      ghost var rs := Generations(BasicMap(), names, evaluates);
      assert results == rs;
      StoreAll(names, results, now);
      assert [] + EnableEntries(names, rs, now) == EnableEntries(names, rs, now);
      ConstructedFeatures(BasicMap(), names, evaluates);
      WindowOnlyEnables([], EnableEntries(names, rs, now));
    }

    /** The synchronous part of each `enable` call, in call order: the
        has-check, which passes because nothing is stored yet, and the
        generation. */
    method GenerateAll(names: seq<string>, evaluates: string -> bool)
      returns (results: seq<Result<GeneratedFeature, GenError>>)
      requires generator.Valid()
      modifies generator
      ensures generator.Valid()
      ensures |results| == |names|
      ensures forall k :: 0 <= k < |names| ==> results[k] == Generated(generator.manager.blueprints, names[k], evaluates)
      ensures generator.cache == CacheAfterAll(generator.manager.blueprints, old(generator.cache), names)
    {
      results := [];
      for i := 0 to |names|
        invariant generator.Valid()
        invariant |results| == i
        invariant forall k :: 0 <= k < i ==> results[k] == Generated(generator.manager.blueprints, names[k], evaluates)
        invariant generator.cache == CacheAfterAll(generator.manager.blueprints, old(generator.cache), names[..i])
      {
        assert names[..i + 1][..i] == names[..i];
        var g := generator.GenerateFeature(names[i], evaluates);
        results := results + [g];
      }
      assert names[..|names|] == names;
    }

    /** The resumptions of the `enable` calls, in call order: each
        generated feature is stored and logged. */
    method StoreAll(names: seq<string>, results: seq<Result<GeneratedFeature, GenError>>, now: int)
      requires Valid() && |results| == |names|
      requires forall k :: 0 <= k < |names| && results[k].Success? ==> names[k] in generator.manager.blueprints
      modifies this, state
      ensures Valid()
      ensures html == old(html) && state.content == old(state.content)
      ensures active == old(active) && notified == old(notified) && listening == old(listening)
      ensures features == StoredFeatures(old(features), names, results)
      ensures order == StoredOrder(old(order), names, results)
      ensures state.history == Window(old(state.history) + EnableEntries(names, results, now))
    {
      ghost var f0, o0, h0 := features, order, state.history;
      assert h0 + [] == h0;
      for i := 0 to |names|
        invariant Valid()
        invariant html == old(html) && state.content == old(state.content)
        invariant active == old(active) && notified == old(notified) && listening == old(listening)
        invariant features == StoredFeatures(f0, names[..i], results[..i])
        invariant order == StoredOrder(o0, names[..i], results[..i])
        invariant state.history == Window(h0 + EnableEntries(names[..i], results[..i], now))
      {
        StoredSnoc(f0, o0, names, results, i, now);
        if results[i].Success? {
          ghost var es := EnableEntries(names[..i], results[..i], now);
          Store(names[i], results[i].value, now);
          LogStep(h0, es, StateUpdate(FeatureEnable, names[i], now));
        }
      }
      assert names[..|names|] == names && results[..|results|] == results;
    }

    /** Stores a generated feature and logs FEATURE_ENABLE for it. A name
        already present keeps its place in the key order. */
    method Store(name: string, f: GeneratedFeature, now: int)
      requires Valid()
      requires name in generator.manager.blueprints
      modifies this, state
      ensures Valid()
      ensures features == old(features)[name := f]
      ensures order == if name in old(order) then old(order) else old(order) + [name]
      ensures state.history == Appended(old(state.history), StateUpdate(FeatureEnable, name, now))
      ensures state.content == old(state.content) && state.selection == old(state.selection)
      ensures state.activeFeatures == old(state.activeFeatures)
      ensures html == old(html) && active == old(active) && notified == old(notified) && listening == old(listening)
    {
      features := features[name := f];
      if name !in order {
        order := order + [name];
      }
      state.Update(StateUpdate(FeatureEnable, name, now));
    }

    /** `enable`. A name already enabled changes nothing. Otherwise the
        feature is generated; a generation error is thrown with nothing
        stored or logged, and a generated feature is stored and FEATURE_ENABLE
        logged. The store's own feature set is untouched: FEATURE_ENABLE is
        not one of the tags it acts on. */
    method Enable(name: string, evaluates: string -> bool, now: int) returns (r: Outcome<EditorError>)
      requires Valid() && generator.Valid()
      modifies this, state, generator
      ensures Valid() && generator.Valid()
      ensures html == old(html) && active == old(active) && notified == old(notified) && listening == old(listening)
      ensures state.content == old(state.content) && state.selection == old(state.selection)
      ensures state.activeFeatures == old(state.activeFeatures)
      ensures name in old(features) ==>
        && r == Pass && features == old(features) && order == old(order)
        && state.history == old(state.history) && generator.cache == old(generator.cache)
      ensures name !in old(features) ==>
        generator.cache == CacheAfter(generator.manager.blueprints, old(generator.cache), name)
      ensures name !in old(features) ==>
        var g := Generated(generator.manager.blueprints, name, evaluates);
        && (g.Success? ==>
              && r == Pass
              && features == old(features)[name := g.value]
              && order == old(order) + [name]
              && state.history == Appended(old(state.history), StateUpdate(FeatureEnable, name, now)))
        && (g.Failure? ==>
              && r == Fail(GenerationFailed(g.error))
              && features == old(features) && order == old(order)
              && state.history == old(state.history))
    {
      if name in features {
        return Pass;
      }
      var g := generator.GenerateFeature(name, evaluates);
      if g.Failure? {
        return Fail(GenerationFailed(g.error));
      }
      Store(name, g.value, now);
      r := Pass;
    }

    /** `execute`: an unknown name throws. Otherwise `exec` runs; when it
        returns, the input handler logs and reports the new content, and when
        it throws, the error is swallowed and nothing is logged. */
    method Execute(name: string, run: ExecResult, now: int) returns (r: Outcome<EditorError>)
      requires Valid()
      modifies this, state
      ensures Valid()
      ensures features == old(features) && order == old(order) && active == old(active) && listening == old(listening)
      ensures state.content == old(state.content) && state.selection == old(state.selection)
      ensures state.activeFeatures == old(state.activeFeatures)
      ensures name !in old(features) ==>
        && r == Fail(FeatureNotFound(name))
        && html == old(html) && notified == old(notified) && state.history == old(state.history)
      ensures name in old(features) ==> r == Pass && html == run.html
      ensures name in old(features) && run.Ran? ==>
        && state.history == Appended(old(state.history), StateUpdate(ContentUpdate, run.html, now))
        && notified == old(notified) + [run.html]
      ensures name in old(features) && run.Threw? ==>
        state.history == old(state.history) && notified == old(notified)
    {
      if name !in features {
        return Fail(FeatureNotFound(name));
      }
      html := run.html;
      if run.Ran? {
        HandleInput(now);
      }
      r := Pass;
    }

    /** `disable`: a name that is not enabled changes nothing. A cleanup
        that throws is rethrown with nothing changed. Otherwise the feature
        leaves the map and the active set, and FEATURE_DISABLE is logged. */
    method Disable(name: string, cleanupThrows: bool, now: int) returns (r: Outcome<EditorError>)
      requires Valid()
      modifies this, state
      ensures Valid()
      ensures html == old(html) && notified == old(notified) && listening == old(listening)
      ensures state.content == old(state.content) && state.selection == old(state.selection)
      ensures state.activeFeatures == old(state.activeFeatures)
      ensures name !in old(features) ==>
        && r == Pass && features == old(features) && order == old(order) && active == old(active)
        && state.history == old(state.history)
      ensures name in old(features) && cleanupThrows ==>
        && r == Fail(CleanupFailed(name)) && features == old(features) && order == old(order)
        && active == old(active) && state.history == old(state.history)
      ensures name in old(features) && !cleanupThrows ==>
        && r == Pass
        && features == old(features) - {name}
        && order == Without(old(order), name)
        && active == old(active) - {name}
        && state.history == Appended(old(state.history), StateUpdate(FeatureDisable, name, now))
    {
      if name !in features {
        return Pass;
      }
      if cleanupThrows {
        return Fail(CleanupFailed(name));
      }
      features := features - {name};
      order := Without(order, name);
      active := active - {name};
      state.Update(StateUpdate(FeatureDisable, name, now));
      r := Pass;
    }

    /** `hasFeature`: the name is among the enabled features, that is,
        listed in the key order. */
    function HasFeature(name: string): (b: bool)
      reads this, state, generator.manager
      requires Valid()
      ensures b <==> name in order
    {
      name in features
    }

    /** Only an enabled feature can be active. */
    function IsActive(name: string): (b: bool)
      reads this, state, generator.manager
      requires Valid()
      ensures b ==> HasFeature(name)
    {
      name in active
    }

    /** `getContent`: the element's content. */
    function GetContent(): string
      reads this
    {
      html
    }

    /** `setContent`: replaces the content, logs SET_CONTENT, which the store
        applies to its own content, and reports the new content. */
    method SetContent(content: string, now: int)
      requires Valid()
      modifies this, state
      ensures Valid()
      ensures GetContent() == content && state.content == content
      ensures state.history == Appended(old(state.history), StateUpdate(UpdateKind.SetContent, content, now))
      ensures notified == old(notified) + [content]
      ensures features == old(features) && order == old(order) && active == old(active) && listening == old(listening)
      ensures state.selection == old(state.selection) && state.activeFeatures == old(state.activeFeatures)
    {
      html := content;
      state.Update(StateUpdate(UpdateKind.SetContent, content, now));
      notified := notified + [content];
    }

    /** `#handleInput`: logs CONTENT_UPDATE with the current content and
        reports it. The store's content is not changed: CONTENT_UPDATE is not
        a tag it acts on. */
    method HandleInput(now: int)
      requires Valid()
      modifies this, state
      ensures Valid()
      ensures state.history == Appended(old(state.history), StateUpdate(ContentUpdate, html, now))
      ensures notified == old(notified) + [html]
      ensures state.content == old(state.content) && state.selection == old(state.selection)
      ensures state.activeFeatures == old(state.activeFeatures)
      ensures html == old(html) && features == old(features) && order == old(order)
      ensures active == old(active) && listening == old(listening)
    {
      state.Update(StateUpdate(ContentUpdate, html, now));
      notified := notified + [html];
    }

    /** `#handleSelection`: with no selection range, nothing is active;
        otherwise each enabled feature is active exactly when the state of
        the command `#getCommand` (as written) names for it is on, that is,
        in `stateOn`, the commands for which `queryCommandState` answers
        true. `rangeCount` is 0 also when there is no selection. */
    method HandleSelection(rangeCount: nat, stateOn: set<string>)
      requires Valid()
      modifies this
      ensures Valid()
      ensures html == old(html) && features == old(features) && order == old(order)
      ensures notified == old(notified) && listening == old(listening)
      ensures rangeCount == 0 ==> active == {}
      ensures rangeCount > 0 ==> forall n :: n in active <==> n in features && GetCommandAsWritten(n) in stateOn
    {
      if rangeCount == 0 {
        active := {};
        return;
      }
      for i := 0 to |order|
        invariant Valid()
        invariant html == old(html) && features == old(features) && order == old(order)
        invariant notified == old(notified) && listening == old(listening)
        invariant forall k :: 0 <= k < i ==> (order[k] in active <==> GetCommandAsWritten(order[k]) in stateOn)
      {
        var name := order[i];
        if GetCommandAsWritten(name) in stateOn {
          active := active + {name};
        } else {
          active := active - {name};
        }
      }
      forall n | n in features
        ensures n in active <==> GetCommandAsWritten(n) in stateOn
      {
        var k :| 0 <= k < |order| && order[k] == n;
      }
    }

    /** `destroy`: detaches the listeners, then disables the features in
        insertion order. The first cleanup that throws is rethrown, leaving
        that feature and the ones after it enabled. When all succeed, the
        store's content is reset with SET_CONTENT of the empty text (the
        element keeps its content) and nothing is enabled or active.
        `throwing` holds the features whose cleanup throws. */
    method Destroy(throwing: set<string>, now: int) returns (r: Outcome<EditorError>)
      requires Valid()
      modifies this, state
      ensures Valid()
      ensures !listening && html == old(html) && notified == old(notified)
      ensures state.selection == old(state.selection) && state.activeFeatures == old(state.activeFeatures)
      ensures var k := FirstThrowing(old(order), throwing);
        k.None? ==>
          && r == Pass && features == map[] && order == [] && active == {}
          && state.content == ""
          && state.history == Appended(DisableLog(old(state.history), old(order), now), StateUpdate(UpdateKind.SetContent, "", now))
      ensures forall n :: n in features ==> n in old(features) && features[n] == old(features)[n]
      ensures var k := FirstThrowing(old(order), throwing);
        k.Some? ==>
          && r == Fail(CleanupFailed(old(order)[k.value]))
          && order == old(order)[k.value..]
          && active == old(active) - (set i | 0 <= i < k.value :: old(order)[i])
          && state.content == old(state.content)
          && state.history == DisableLog(old(state.history), old(order)[..k.value], now)
    {
      listening := false;
      var names := order;
      var failed := DisableAll(names, throwing, now);
      if failed.Some? {
        FirstThrowingAt(names, throwing, failed.value);
        return Fail(CleanupFailed(names[failed.value]));
      }
      state.Update(StateUpdate(UpdateKind.SetContent, "", now));
      features := map[];
      order := [];
      active := {};
      r := Pass;
    }

    /** The loop of `destroy`: disables the features in key order and stops
        at the first one whose cleanup throws, returning its position. */
    method DisableAll(names: seq<string>, throwing: set<string>, now: int) returns (failed: Option<nat>)
      requires Valid() && names == order
      modifies this, state
      ensures Valid()
      ensures failed.None? ==> forall k :: 0 <= k < |names| ==> names[k] !in throwing
      ensures failed.Some? ==>
        && failed.value < |names| && names[failed.value] in throwing
        && forall k :: 0 <= k < failed.value ==> names[k] !in throwing
      ensures listening == old(listening) && html == old(html) && notified == old(notified)
      ensures state.content == old(state.content) && state.selection == old(state.selection)
      ensures state.activeFeatures == old(state.activeFeatures)
      ensures failed.None? ==> order == [] && state.history == DisableLog(old(state.history), names, now)
      ensures failed.Some? ==>
        && order == names[failed.value..]
        && active == old(active) - (set k | 0 <= k < failed.value :: names[k])
        && state.history == DisableLog(old(state.history), names[..failed.value], now)
      ensures forall n :: n in features ==> n in old(features) && features[n] == old(features)[n]
    {
      ghost var h0 := state.history;
      for i := 0 to |names|
        invariant Valid()
        invariant order == names[i..]
        invariant active == old(active) - (set k | 0 <= k < i :: names[k])
        invariant forall n :: n in features ==> n in old(features) && features[n] == old(features)[n]
        invariant forall k :: 0 <= k < i ==> names[k] !in throwing
        invariant state.history == DisableLog(h0, names[..i], now)
        invariant listening == old(listening) && html == old(html) && notified == old(notified)
        invariant state.content == old(state.content) && state.selection == old(state.selection)
        invariant state.activeFeatures == old(state.activeFeatures)
      {
        assert names[i..][0] == names[i];
        WithoutHead(names[i..]);
        assert names[i..][1..] == names[i + 1..];
        DisableLogSnoc(h0, names, i, now);
        assert (set k | 0 <= k < i + 1 :: names[k]) == (set k | 0 <= k < i :: names[k]) + {names[i]};
        var res := Disable(names[i], names[i] in throwing, now);
        if res.Fail? {
          return Some(i);
        }
      }
      assert names[..|names|] == names;
      return None;
    }

    /** `getBundleSize`, measuring each enabled feature's code: the base
        size plus the UTF-8 size of every feature's code. */
    method GetBundleSize() returns (size: nat)
      requires Valid()
      ensures size == BaseSize + TotalSize(Codes())
    {
      size := MeasureBundleSize(Codes());
    }

    /** `getBundleSize` as written: each feature value is measured through
        its `toString()`, which for the object a generator text evaluates to
        is "[object Object]", so every feature counts 15 bytes whatever its
        code. */
    method GetBundleSizeAsWritten() returns (size: nat)
      requires Valid()
      ensures size == BaseSize + 15 * |order|
    {
      size := MeasureBundleSize(Repeated(ObjectText, |order|));
      ObjectTextsSize(|order|);
    }
  }
}
