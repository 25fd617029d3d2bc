# micropen editor core, modelled in Dafny

This project models the feature pipeline and bookkeeping of the micropen rich-text editor:

- **Blueprint table** (`blueprints.dfy`, module `Blueprints`): the fifteen built-in feature blueprints, in the order the table lists them.
- **Blueprint store** (`manager.dfy`, module `Manager`): a class over a name→blueprint map and its keys in insertion order. Registration validates a blueprint against fixed enumerations, then inserts or overwrites it.
- **Code generation** (`generator_text.dfy`, module `GeneratorText`): wraps a blueprint's generator text into an object literal, then minifies it. Minifying removes comments and whitespace and puts one space back after `return`/`let`/`var`/`const`. Each global regular-expression replacement is a left-to-right scan over non-overlapping matches. `Compile` is the source's wrapping followed by minifying; `CompileIntended` puts the closing part on a line of its own.
- **Feature generator** (`generator.dfy`, module `Generator`): a class with a per-generator cache. It looks a blueprint up, compiles it, rejects results over 256 UTF-8 bytes, caches what it accepts and evaluates it.
- **Size meter** (`size.dfy`, module `Size`):
  - The UTF-8 length of a text, encoded as RFC 3629, section 3 prescribes.
  - The bundle estimate: 512 plus the size of every feature.
- **State store** (`state.dfy`, module `State`): a class holding content, selection, a feature set and an update log capped at 100 entries. It has a lossy one-step undo.
- **Editor** (`editor.dfy`, module `EditorCore`): a class over the enabled features (a map plus its key order), the active set, the state store and the generator.
  - It provides enable, execute, disable, content updates, the selection handler, destroy and the bundle size.
  - The element is its `innerHTML` text. Calls of `onChange` are recorded in the `notified` sequence.

Inputs replace what the editor gets from the browser:

- What a feature's `exec` leaves in the element, and whether it throws: an `ExecResult`.
- Whether a feature's `cleanup` throws: a bool, or for `destroy` the set of features whose cleanup throws.
- Which commands `queryCommandState` reports as on: a set of command names.
- Whether evaluating generated code succeeds: a predicate on the code.
- The clock reading: an integer.

Three points of the code that the model keeps as written:

- Each editor constructs its own generator (src/editor.ts:45), so the cache belongs to one editor, not to the process.
- `getState` copies the state record, whose `history` field is never filled (src/core/state.ts:41-43), so it is always empty.
- Undoing a `SET_CONTENT` searches the log after the pop (src/core/state.ts:50-60). It restores the content of the previous `SET_CONTENT`, or the empty text when there is none.

## Model

| member | source | states |
|---|---|---|
| State.StateManager.constructor | src/core/state.ts:8-17 | content is the given content or the empty text; no selection, no features, empty log |
| State.StateManager.Update | src/core/state.ts:19-39 | SET_CONTENT sets the content, SET_SELECTION the selection, ENABLE/DISABLE_FEATURE add/remove the payload; any other tag changes only the log; the log is the old log with the update pushed and the oldest dropped past 100 entries |
| State.Appended | src/core/state.ts:35-38 | the log never exceeds 100 entries and ends with the new update; below the cap nothing is dropped, at the cap exactly the oldest entry is |
| State.ReplayIsWindow | src/core/state.ts:35-38 | after any sequence of updates the log is exactly the last min(n, 100) of them, oldest first |
| State.PopUndoesAppend | src/core/state.ts:35-51 | popping after a push gives the log back, or the log without its oldest entry when the push evicted it |
| State.StateManager.GetState | src/core/state.ts:41-43 | the snapshot carries the current content, selection and feature set, and an empty history |
| State.StateManager.GetHistory | src/core/state.ts:45-47 | the log as it is, at most 100 entries |
| State.LastSetContent | src/core/state.ts:56-59 | the position of the most recent SET_CONTENT entry: none exactly when the log has none, and no SET_CONTENT after it |
| State.StateManager.Undo | src/core/state.ts:49-69 | an empty log changes nothing; otherwise exactly the last entry leaves the log; an undone SET_CONTENT restores the content of the latest remaining SET_CONTENT (or the empty text); feature updates are inverted; the selection never changes |
| State.UndoFeaturesRoundTrip | src/core/state.ts:62-67 | undoing a feature update restores the set exactly when the update changed it; other updates leave it alone |
| State.UndoSetContentRestores | src/core/state.ts:54-61 | undoing a SET_CONTENT pushed onto a non-full log restores the content the log held before it, the empty text when it had no SET_CONTENT |
| Manager.FirstOutside | src/features/manager.ts:41-53 | the first position outside the allowed set; none exactly when every element is allowed |
| Manager.Validation | src/features/manager.ts:28-54 | no error exactly when the type, every requirement and every DOM impact are in their enumerations; an unknown type is reported first, then the first bad requirement, then the first bad impact; cleanup steps are not checked |
| Manager.BlueprintManager.ValidateBlueprint | src/features/manager.ts:28-54 | the loops throw exactly the error `Validation` describes |
| Manager.BlueprintManager.RegisterBlueprint | src/features/manager.ts:16-20 | a rejected blueprint leaves the store unchanged; an accepted one is then returned by lookup; an existing name keeps its place and the number of names, a new name is appended |
| Manager.BlueprintManager.GetBlueprint | src/features/manager.ts:12-14 | the registered blueprint, or absent for an unknown name |
| Manager.BlueprintManager.HasBlueprint | src/features/manager.ts:56-58 | true exactly when the lookup finds the name; in a valid store, exactly when the name is listed |
| Manager.BlueprintManager.RemoveBlueprint | src/features/manager.ts:60-62 | the name is gone and every other entry and its order are kept |
| Manager.BlueprintManager.GetAllBlueprints | src/features/manager.ts:64-66 | each registered name once, and only those |
| Manager.Without | src/features/manager.ts:60-62 | the names except the removed one, with no name repeated |
| Manager.BlueprintManager.RegisterAll | src/features/manager.ts:22-26 | registering the table in order yields the table's map with its keys in table order |
| Manager.BlueprintManager.constructor | src/features/manager.ts:7-10 | after construction the store holds the built-in table, and its names are the table's keys in order |
| Manager.BasicBlueprintsWellFormed | src/features/blueprints.ts:3-123 | every built-in blueprint validates and no name repeats, so construction never throws |
| Blueprints.TableRows | src/features/blueprints.ts:3-123 | the built-in table has fifteen entries, and entry i is row i, by name and by blueprint |
| Blueprints.BasicTableShape | src/features/blueprints.ts:3-123 | fifteen entries under fifteen distinct names |
| Blueprints.BasicKinds | src/features/blueprints.ts:3-123 | every entry's type is inline, block or void |
| Blueprints.HistoryEntriesAreVoid | src/features/blueprints.ts:60-74 | undo and redo are void, with no requirements and no cleanup steps |
| Blueprints.GeneratorCalls | src/features/blueprints.ts:9-121 | every generator text contains `return` and calls the command of its entry |
| Blueprints.AlignmentKeysAreCamelCase | src/features/blueprints.ts:84-106 | alignLeft/alignCenter/alignRight are keys; align-left/align-center/align-right are not |
| Blueprints.TableMap | src/features/manager.ts:22-26 | every entry's name is a key, and every key maps to a blueprint of an entry under that name |
| Size.Utf8Encode | src/utils/size.ts:5-10 | one to four octets per character, exactly one per character for ASCII text |
| Size.EncodeChar | src/utils/size.ts:5-10 | one to four octets per code point, by RFC 3629, section 3: a lead octet announcing the length, then continuation octets |
| Size.MeasureFeatureSize | src/utils/size.ts:5-10 | between one and four bytes per character; the length itself for ASCII text |
| Size.DecodeEncode | src/utils/size.ts:5-10 | decoding the UTF-8 bytes gives back the code points: the measured encoding loses nothing |
| Size.MeasureConcat | src/utils/size.ts:5-10 | the size of a concatenation is the sum of the sizes |
| Size.MeasureBundleSize | src/utils/size.ts:12-26 | 512 plus the sum of the features' sizes; 512 for no features |
| Size.TotalSizePermutation | src/utils/size.ts:20-23 | the total does not depend on the iteration order |
| Size.AddingFeatureAddsItsSize | src/utils/size.ts:20-23 | one more feature raises the total by exactly its size, wherever it lands in the order |
| GeneratorText.Trim | src/core/generator.ts:52 | neither end of the result is whitespace |
| GeneratorText.TrimCutsOnlyWs | src/core/generator.ts:68 | trimming removes whitespace runs at both ends and keeps the text between them |
| GeneratorText.StripComments | src/core/generator.ts:62 | comment removal never lengthens the text and leaves text without a slash unchanged |
| GeneratorText.RemoveWs | src/core/generator.ts:63 | the result has no whitespace and is no longer than the input |
| GeneratorText.RespaceOnlyMovesWs | src/core/generator.ts:64-67 | a keyword pass only adds or removes whitespace |
| GeneratorText.KeywordPassSpacing | src/core/generator.ts:64-67 | one keyword pass over whitespace-free text puts each space directly after the keyword and directly before a non-whitespace character |
| GeneratorText.PassChangesIffMatch | src/core/generator.ts:64-67 | a keyword pass changes the text exactly when the keyword occurs directly followed by a non-whitespace character |
| GeneratorText.OptimizeSpacesFollowKeywordEnd | src/core/generator.ts:60-69 | the minified code does not start with a space, and every space in it comes right after `n`, `t` or `r`, the last letter of a keyword |
| GeneratorText.LaterPassSplitsKeyword | src/core/generator.ts:64-67 | `vareturn1` minifies to `var eturn 1`: a later pass can put a space inside a keyword an earlier pass spaced, so a space need not follow a whole keyword |
| GeneratorText.OptimizeIsTidy | src/core/generator.ts:60-69 | the minified code has single plain spaces only between non-whitespace characters and none at either end; the final trim changes nothing |
| GeneratorText.OptimizeKeepsText | src/core/generator.ts:60-69 | whitespace aside, the minified code is the input with comments removed |
| GeneratorText.StripOpensNoComment | src/core/generator.ts:62 | comment removal leaves alone a text in which every slash is followed by a character other than `/`, `*` or whitespace |
| GeneratorText.NormalizeOpensNoComment | src/core/generator.ts:52-56 | normalization keeps every slash of such a text followed by the character that followed it |
| GeneratorText.CompiledKeepsWrapper | src/core/generator.ts:49-69 | for a generator text in which every slash is followed by a character other than `/`, `*` or whitespace, compiled code keeps (whitespace aside) the opening and the closing part of the object literal |
| GeneratorText.CompiledIsNonEmpty | src/core/generator.ts:20-26 | whatever the generator text, compiled code starts (whitespace aside) with the opening part of the object literal, so it is never empty and a cached entry is always found again |
| GeneratorText.IntendedKeepsWrapper | src/core/generator.ts:57-69 | with the closing part on its own line, compiled code keeps both parts of the object literal whatever the generator text holds |
| GeneratorText.CommentsKeepWrapper | src/core/generator.ts:57-62 | with the closing part on its own line, removing comments keeps both parts of the wrapper, whatever the generator text holds |
| GeneratorText.AsWrittenLineCommentCuts | src/core/generator.ts:57-62 | as written, a generator text ending in a line comment loses the closing part of the wrapper to comment removal |
| GeneratorText.TrailingCommentNormalized | src/core/generator.ts:52-56 | `return 1//` is left unchanged by normalization, so the case above occurs |
| Generator.Generated | src/core/generator.ts:15-47 | unknown name fails with not-found, and only then; a success is the compiled blueprint, at most 256 bytes, and code that evaluates |
| Generator.FeatureGenerator.constructor | src/core/generator.ts:10-13 | a fresh blueprint store holding the built-in table, and an empty cache |
| Generator.FeatureGenerator.GenerateFeature | src/core/generator.ts:15-47 | not-found and too-large leave the cache alone; otherwise the compiled code is cached, even when evaluation then fails; the result never depends on the cache; every cached entry stays the compiled code, at most 256 bytes |
| Generator.FeatureGenerator.ClearCache | src/core/generator.ts:71-73 | the cache is empty, and the cache invariant holds |
| Generator.CacheAfterAllKeys | src/core/generator.ts:15-47 | after a run of `generateFeature` calls the cache holds the old entries and the registered names whose code fits in 256 bytes, and nothing else |
| Generator.CacheAfterAllValues | src/core/generator.ts:15-47 | after a run of calls each name that fits is cached with its compiled code, and every other old entry keeps its value |
| Generator.CachedIffPastSizeCheck | src/core/generator.ts:15-47 | a name is cached exactly when its generation succeeds or fails only in evaluation |
| EditorCore.Editor.constructor | src/editor.ts:16-57 | the store starts from the element's content; the built-in table is loaded; nothing is active; the features are exactly the listed names whose generation succeeds, each with its generated feature; the key order is those names in the order of their first successful call; the log is one FEATURE_ENABLE per successful call, in call order (a name listed twice is logged twice), capped at 100; the generator cache holds exactly the listed names `generateFeature` caches |
| EditorCore.Editor.GenerateAll | src/editor.ts:54-56 | each listed name is generated in call order before any is stored, and the generator cache gains exactly the names `generateFeature` caches, in that order |
| EditorCore.Editor.StoreAll | src/editor.ts:67-74 | the features, the key order and the log become what the successful calls store and log, in call order; the other fields are unchanged |
| EditorCore.EnableEntries | src/editor.ts:70-74 | only FEATURE_ENABLE entries, stamped with the clock reading, each naming a call that succeeded, at most one per call |
| EditorCore.StoredKeys | src/editor.ts:67-68 | storing keeps the key order free of repeats and in step with the features, keeps the old keys first, adds exactly the names of successful calls, each with the feature of one of its calls |
| EditorCore.ConstructedFeatures | src/editor.ts:54-74 | the constructor stores exactly the listed names whose generation succeeds, each with its generated feature |
| EditorCore.Editor.Store | src/editor.ts:67-74 | the feature is stored under its name (a new name goes last in the order) and one FEATURE_ENABLE is logged |
| EditorCore.Editor.Enable | src/editor.ts:59-78 | an enabled name changes nothing; a failed generation is thrown with nothing stored or logged; a success stores the generated feature and logs exactly one FEATURE_ENABLE; for a name not yet enabled, the generator cache gains its compiled code exactly when it is registered and within 256 bytes, and is otherwise unchanged |
| EditorCore.Editor.Execute | src/editor.ts:80-97 | an unknown name throws and changes nothing; a returning exec logs one CONTENT_UPDATE and reports the content once; a throwing exec is swallowed, logging and reporting nothing |
| EditorCore.Editor.Disable | src/editor.ts:99-119 | an unknown name changes nothing; a throwing cleanup is rethrown with nothing changed; otherwise the name leaves the features, the order and the active set, and one FEATURE_DISABLE is logged |
| EditorCore.Editor.HasFeature | src/editor.ts:121-123 | true exactly when the name is in the key order of enabled features |
| EditorCore.Editor.IsActive | src/editor.ts:125-127 | only an enabled feature is active |
| EditorCore.Editor.SetContent | src/editor.ts:129-142 | the element and the store hold the new content, so `getContent` returns it; SET_CONTENT is logged and the content reported |
| EditorCore.Editor.HandleInput | src/editor.ts:155-164 | CONTENT_UPDATE with the element's content is logged and reported; the store's content is not changed |
| EditorCore.Editor.HandleSelection | src/editor.ts:166-201 | no range empties the active set; otherwise a feature is active exactly when it is enabled and the state of the command `#getCommand`, as written, maps it to is on |
| EditorCore.Editor.Destroy | src/editor.ts:203-226 | listeners detached; features disabled in key order; the first throwing cleanup is rethrown with it and the later features still enabled, the disabled ones gone from the active set, and every remaining feature unchanged; otherwise nothing is enabled or active and the last log entry is SET_CONTENT of the empty text |
| EditorCore.Editor.DisableAll | src/editor.ts:211-214 | the features are disabled in order up to the first throwing cleanup, whose position is returned, with one FEATURE_DISABLE logged per disabled feature; exactly the disabled features leave the active set, and the remaining ones keep their values |
| EditorCore.FirstThrowing | src/editor.ts:211-214 | the first feature whose cleanup throws; none exactly when no cleanup throws |
| EditorCore.Editor.GetBundleSizeAsWritten | src/editor.ts:228-230 | as written, 512 plus 15 bytes per feature, whatever the features' code |
| EditorCore.Editor.GetBundleSize | src/editor.ts:228-230 | 512 plus the UTF-8 size of every enabled feature's code |
| EditorCore.ObjectTextsSize | src/utils/size.ts:21 | n copies of the text `[object Object]` measure 15·n bytes |
| EditorCore.GetCommandAsWritten | src/editor.ts:190-201 | the name itself, except for link, heading, list and code, which are renamed |
| EditorCore.GetCommand | src/editor.ts:190-201 | the corrected mapping: the name itself except for the ten built-in names whose command differs; it agrees with the as-written mapping except on the six names it adds |
| EditorCore.AsWrittenQueriesOtherCommand | src/editor.ts:190-201 | as written, the queried command is the called command for exactly nine of the fifteen built-in features |
| EditorCore.QueriedCommandIsCalled | src/editor.ts:190-201 | the queried command of every built-in feature is the command its generator text calls |

## Left out

- DOM wiring is not modelled: `contentEditable`, `spellcheck`, the placeholder attribute, and attaching and detaching listeners. Listening is a flag.
- The paste handler (src/editor.ts:184-188) is not modelled: it only forwards clipboard text to a host command.
- The `isBrowser` guards are taken to pass, and the constructor's checks on the element are taken to succeed.
- The constructor's `initialContent` option is not modelled. In the source it calls `setContent` before the state store exists, so it throws.
- Evaluating code with `new Function` is not modelled: a predicate says whether it succeeds. The feature object is represented by its code.
- `exec`, `cleanup` and `queryCommandState` are inputs: an `ExecResult`, a bool (a set of names for `destroy`), and a set of commands whose state is on.
- `Date.now()` is an integer parameter. `console.log` and `console.error` are not modelled.
- Asynchrony is modelled only for the constructor's un-awaited `enable` calls: they generate in call order, then store in call order. `Enable` itself is sequential.
- EditorCore.Editor.constructor: its postcondition is the state once the pending `enable` calls (src/editor.ts:54-56) have resumed. In the source `new Editor(...)` returns before any of them stores or logs, so `hasFeature` is still false right after construction, and a `setContent` made before the resumptions is logged before their FEATURE_ENABLE entries. Calls made between the return and the resumptions are not modelled.
- EditorCore.Editor.Destroy: one clock reading stamps every entry of one call, as it does for the constructor's FEATURE_ENABLE entries. The source reads `Date.now()` once per entry.
- The selection is an opaque text. `getState`'s shallow copy, which shares the feature set with the store, is not modelled.
- `toString` of the editor (src/editor.ts:232-234) is not modelled: it only formats text.
- Strings are sequences of Unicode scalar values. Lone surrogates, which `TextEncoder` replaces with U+FFFD, are not modelled.
- Whether each built-in blueprint compiles within 256 bytes is not proved. `Generated` reports the too-large case for any blueprint.
- GeneratorText.CompiledKeepsWrapper: proved only for generator texts in which every slash is followed by a character other than `/`, `*` or whitespace. Every built-in text is of that kind: the one slash, in the colour prompt `hex/name` (src/features/blueprints.ts:75-83), stands between two letters. That the built-in texts meet the condition is read off the table and is not proved.
- GeneratorText.OptimizeSpacesFollowKeywordEnd: states that each space follows the last letter of a keyword, not a whole keyword, because the passes run one after another and a later one can split an earlier keyword (`LaterPassSplitsKeyword`).
- GeneratorText.AsWrittenLineCommentCuts: shows the lost wrapper for texts ending in a line comment. The instance `return 1//` is proved to reach it. Texts where the comment is followed by more lines are not covered.
- EditorCore.Editor.GetBundleSize: the as-written measurement uses `toString` of the evaluated object. The model takes that object to be a plain object literal, which gives `[object Object]`.
- `onChange` is recorded in `notified` whether or not a callback is set.

## Findings

| source | as written | input that shows it | evidently intended | confidence | as-written member | corrected member |
|---|---|---|---|---|---|---|
| src/core/generator.ts:57-62 | the normalized text is placed directly before `},cleanup:function(){},handlers:{}}`, and comment removal strips `//` to the end of the line | a registered blueprint whose generator text is `return 1//`: the closing part of the object literal is removed with the comment. Latent: no built-in text has a comment | the closing part survives comment removal, for example on a line of its own | not executed; high | GeneratorText.AsWrittenLineCommentCuts | GeneratorText.IntendedKeepsWrapper |
| src/utils/size.ts:21 | each feature is measured through `feature.toString()`, which gives `[object Object]` for the evaluated object | any enabled feature counts 15 bytes, whatever its code | each feature counts the size of its code | not executed; high | EditorCore.Editor.GetBundleSizeAsWritten | EditorCore.Editor.GetBundleSize |
| src/editor.ts:190-201 | `#getCommand` maps seven names and returns every other name unchanged | the `alignLeft` feature calls `justifyLeft`, but the selection handler queries `alignLeft`; the same holds for image, color, alignCenter, alignRight and blockquote | the queried command is the one the feature calls | not executed; medium | EditorCore.AsWrittenQueriesOtherCommand | EditorCore.QueriedCommandIsCalled |
