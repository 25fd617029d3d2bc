/** Shapes shared by the editor core: the records of src/types.ts and the
    usual failure-carrying wrappers that stand in for thrown errors. */
module Types {

  datatype Option<+T> = None | Some(value: T)

  /** A value or the error the source would have thrown. */
  datatype Result<+R, +E> = Success(value: R) | Failure(error: E)

  /** The outcome of an operation that returns nothing but may throw. */
  datatype Outcome<+E> = Pass | Fail(error: E)

  /** FeatureBlueprint. The source field `type` is called `kind` here, because
      `type` is a Dafny keyword. The enumerated fields are plain strings, as
      in the source, so that the validator can reject bad values. */
  datatype Blueprint = Blueprint(
    kind: string,
    requirements: seq<string>,
    domImpact: seq<string>,
    cleanupSteps: seq<string>,
    generate: string)

  /** The `type` tag of a StateUpdate. The seven tags the editor uses are
      constructors; any other string is `Other`. `Other` never carries one
      of the seven tag names (SET_CONTENT, SET_SELECTION, ENABLE_FEATURE,
      DISABLE_FEATURE, CONTENT_UPDATE, FEATURE_ENABLE, FEATURE_DISABLE):
      those are always written as their own constructor. */
  datatype UpdateKind =
    | SetContent | SetSelection | EnableFeature | DisableFeature
    | ContentUpdate | FeatureEnable | FeatureDisable
    | Other(tag: string)

  /** StateUpdate. The payload is text; a selection is represented by an
      opaque text reference. `timestamp` is whatever clock value the caller
      supplies. */
  datatype StateUpdate = StateUpdate(kind: UpdateKind, payload: string, timestamp: int)

  /** EditorState, the snapshot StateManager.getState hands out. */
  datatype EditorState = EditorState(
    content: string,
    selection: Option<string>,
    activeFeatures: set<string>,
    history: seq<StateUpdate>)

  /** GeneratedFeature. Its `exec` and `cleanup` closures are not modelled as
      code: the unit is identified by the minified text it was built from,
      and running its actions is an input of the operations that do so. */
  datatype GeneratedFeature = GeneratedFeature(code: string)
}
