/** The built-in blueprint table of src/features/blueprints.ts, in the order
    its keys are listed (the order the manager registers them in). */
module Blueprints {

  import opened Types

  /** A generator text: `setup` statements, then `return`, then a call of
      the host command `command` (behind `guard` when there is one) with the
      arguments `args` after the command name. */
  function Invoke(setup: string, guard: string, command: string, args: string): string {
    setup + "return " + guard + "browserAPIs.execCommand('" + command + "'" + args + ")"
  }

  /** One key of `basicBlueprints`: its blueprint fields, with the generator
      text given by the parts `Invoke` assembles. */
  datatype Row = Row(
    name: string, kind: string, requirements: seq<string>, domImpact: seq<string>, cleanupSteps: seq<string>,
    setup: string, guard: string, command: string, args: string)

  /** The keys of `basicBlueprints`, in source order. */
  const BasicRows: seq<Row> := [
    Row("bold", "inline", ["selection", "range"], ["wrap"], ["removeHandlers"],
      "", "", "bold", ",0"),
    Row("italic", "inline", ["selection", "range"], ["wrap"], ["removeHandlers"],
      "", "", "italic", ",0"),
    Row("underline", "inline", ["selection", "range"], ["wrap"], ["removeHandlers"],
      "", "", "underline", ",0"),
    Row("link", "inline", ["selection", "range"], ["wrap", "insert"], ["removeHandlers", "removeInput"],
      "var u=prompt('URL:');", "", "createLink", ",0,u||0"),
    Row("heading", "block", ["selection", "range", "block"], ["wrap", "transform"], ["removeHandlers"],
      "var n=(browserAPIs.getSelection()||0).getRangeAt(0).startContainer;var e=n.nodeType>2?n.parentElement:n;",
      "", "formatBlock", ",0,e?.closest('h2')?'p':'h2'"),
    Row("list", "block", ["selection", "range", "block"], ["wrap", "transform"], ["removeHandlers"],
      "var s=browserAPIs.getSelection();", "", "insertUnorderedList", ",0,s?.rangeCount||0"),
    Row("image", "inline", ["range"], ["insert"], ["removeInput"],
      "var u=prompt('Image URL:');", "u&&", "insertImage", ",0,u"),
    Row("undo", "void", [], ["transform"], [],
      "", "", "undo", ",0"),
    Row("redo", "void", [], ["transform"], [],
      "", "", "redo", ",0"),
    Row("color", "inline", ["selection", "range"], ["transform"], ["removeInput"],
      "var c=prompt('Color (hex/name):');", "c&&", "foreColor", ",0,c"),
    Row("alignLeft", "block", ["block"], ["transform"], [],
      "", "", "justifyLeft", ",0"),
    Row("alignCenter", "block", ["block"], ["transform"], [],
      "", "", "justifyCenter", ",0"),
    Row("alignRight", "block", ["block"], ["transform"], [],
      "", "", "justifyRight", ",0"),
    Row("code", "block", ["block"], ["transform"], [],
      "var s=browserAPIs.getSelection(),e=s?.getRangeAt(0).startContainer.parentElement;",
      "", "formatBlock", ",0,e?.closest('pre')?'p':'pre'"),
    Row("blockquote", "block", ["block"], ["transform"], [],
      "var s=browserAPIs.getSelection(),e=s?.getRangeAt(0).startContainer.parentElement;",
      "", "formatBlock", ",0,e?.closest('blockquote')?'p':'blockquote'")
  ]

  function RowBlueprint(r: Row): Blueprint {
    Blueprint(r.kind, r.requirements, r.domImpact, r.cleanupSteps, Invoke(r.setup, r.guard, r.command, r.args))
  }

  /** The table, one (name, blueprint) entry per row, in source order. */
  const BasicBlueprints: seq<(string, Blueprint)> := Build(BasicRows)
  function Build(rows: seq<Row>): seq<(string, Blueprint)> {
    seq(|rows|, i requires 0 <= i < |rows| => (rows[i].name, RowBlueprint(rows[i])))
  }

  /** The map the table denotes: registering the entries in order, a later
      entry under the same key overwrites an earlier one. */
  function TableMap(entries: seq<(string, Blueprint)>): (m: map<string, Blueprint>)
    ensures forall i :: 0 <= i < |entries| ==> entries[i].0 in m
    ensures forall n :: n in m ==> exists i :: 0 <= i < |entries| && entries[i].0 == n && m[n] == entries[i].1
  {
    if entries == [] then map[]
    else
      var last := entries[|entries| - 1];
      TableMap(entries[..|entries| - 1])[last.0 := last.1]
  }

  function BasicMap(): map<string, Blueprint> {
    TableMap(BasicBlueprints)
  }

  /** The keys of a table, in order. */
  function Keys(entries: seq<(string, Blueprint)>): (names: seq<string>)
    ensures |names| == |entries|
    ensures forall i :: 0 <= i < |names| ==> names[i] == entries[i].0
  {
    seq(|entries|, i requires 0 <= i < |entries| => entries[i].0)
  }

  function BasicNames(): seq<string> {
    Keys(BasicBlueprints)
  }

  /** `word` occurs in `text` at position `k`. */
  predicate OccursAt(text: string, word: string, k: nat) {
    k + |word| <= |text| && text[k..k + |word|] == word
  }

  predicate Contains(text: string, word: string) {
    exists k: nat :: k <= |text| && OccursAt(text, word, k)
  }

  /** Entry `i` of the table is row `i`, by name and by blueprint. */
  lemma TableRows()
    ensures |BasicBlueprints| == |BasicRows| == 15
    ensures forall i :: 0 <= i < |BasicRows| ==>
      BasicBlueprints[i].0 == BasicRows[i].name && BasicBlueprints[i].1 == RowBlueprint(BasicRows[i])
  {
  }

  /** The row names, in order. */
  const RowNames: seq<string> := [
    "bold", "italic", "underline", "link", "heading", "list", "image", "undo", "redo",
    "color", "alignLeft", "alignCenter", "alignRight", "code", "blockquote"
  ]

  lemma RowNamesListed()
    ensures |BasicRows| == |RowNames|
    ensures forall i :: 0 <= i < |BasicRows| ==> BasicRows[i].name == RowNames[i]
  {
  }

  /** The host command each row calls, in order. */
  const RowCommands: seq<string> := [
    "bold", "italic", "underline", "createLink", "formatBlock", "insertUnorderedList", "insertImage", "undo", "redo",
    "foreColor", "justifyLeft", "justifyCenter", "justifyRight", "formatBlock", "formatBlock"
  ]

  lemma RowCommandsListed()
    ensures |BasicRows| == |RowCommands|
    ensures forall i :: 0 <= i < |BasicRows| ==> BasicRows[i].command == RowCommands[i]
  {
  }

  lemma RowNamesDistinct()
    ensures forall i, j :: 0 <= i < j < |BasicRows| ==> BasicRows[i].name != BasicRows[j].name
  {
    RowNamesListed();
    ListedNamesDistinct();
  }

  lemma ListedNamesDistinct()
    ensures forall i, j :: 0 <= i < j < |RowNames| ==> RowNames[i] != RowNames[j]
  {
  }

  /** The table has fifteen entries under fifteen different names. */
  lemma BasicTableShape()
    ensures |BasicBlueprints| == 15
    ensures forall i, j :: 0 <= i < j < |BasicBlueprints| ==> BasicBlueprints[i].0 != BasicBlueprints[j].0
  {
    TableRows();
    RowNamesDistinct();
  }

  lemma RowKinds()
    ensures forall i :: 0 <= i < |BasicRows| ==> BasicRows[i].kind in {"inline", "block", "void"}
  {
  }

  /** Every entry's category is one of the three the validator accepts. */
  lemma BasicKinds()
    ensures forall i :: 0 <= i < |BasicBlueprints| ==> BasicBlueprints[i].1.kind in {"inline", "block", "void"}
  {
    TableRows();
    RowKinds();
  }

  /** The two history commands are `void` and need neither a selection nor
      any cleanup. */
  lemma HistoryEntriesAreVoid()
    ensures BasicBlueprints[7].0 == "undo" && BasicBlueprints[8].0 == "redo"
    ensures forall i :: 7 <= i <= 8 ==>
      var b := BasicBlueprints[i].1; b.kind == "void" && b.requirements == [] && b.cleanupSteps == []
  {
    TableRows();
  }

  /** The text a call of `command` starts with. */
  function CallOf(command: string): string {
    "execCommand('" + command + "'"
  }

  /** A generator text returns the result of its command. */
  lemma InvokeReturns(setup: string, guard: string, command: string, args: string)
    ensures Contains(Invoke(setup, guard, command, args), "return")
  {
    var text := Invoke(setup, guard, command, args);
    assert text == setup + "return" + (" " + guard + "browserAPIs.execCommand('" + command + "'" + args + ")");
    assert text[|setup|..|setup| + 6] == "return";
    assert OccursAt(text, "return", |setup|);
  }

  /** A generator text calls its command. */
  lemma InvokeCalls(setup: string, guard: string, command: string, args: string)
    ensures Contains(Invoke(setup, guard, command, args), CallOf(command))
  {
    var text := Invoke(setup, guard, command, args);
    var head := setup + "return " + guard + "browserAPIs.";
    assert text == head + CallOf(command) + (args + ")");
    assert text[|head|..|head| + |CallOf(command)|] == CallOf(command);
    assert OccursAt(text, CallOf(command), |head|);
  }

  /** Every generator text has a `return`, so executing a feature yields the
      host command's result, and it calls the command of its row. */
  lemma GeneratorCalls(i: nat)
    requires i < |BasicBlueprints|
    ensures Contains(BasicBlueprints[i].1.generate, "return")
    ensures Contains(BasicBlueprints[i].1.generate, CallOf(BasicRows[i].command))
  {
    TableRows();
    var r := BasicRows[i];
    InvokeReturns(r.setup, r.guard, r.command, r.args);
    InvokeCalls(r.setup, r.guard, r.command, r.args);
  }

  lemma BasicNamesListed()
    ensures BasicNames() == RowNames
  {
    TableRows();
    RowNamesListed();
  }

  lemma NamesHaveNoHyphen()
    ensures forall i :: 0 <= i < |RowNames| ==> '-' !in RowNames[i]
  {
  }

  /** The alignment entries are keyed in camelCase: hyphenated names such as
      `align-left` are not in the table. */
  lemma AlignmentKeysAreCamelCase()
    ensures "alignLeft" in BasicNames() && "alignCenter" in BasicNames() && "alignRight" in BasicNames()
    ensures "align-left" !in BasicNames() && "align-center" !in BasicNames() && "align-right" !in BasicNames()
  {
    BasicNamesListed();
    NamesHaveNoHyphen();
    assert RowNames[10] == "alignLeft";
    assert RowNames[11] == "alignCenter";
    assert RowNames[12] == "alignRight";
    assert "align-left"[5] == '-' && "align-center"[5] == '-' && "align-right"[5] == '-';
  }
}
