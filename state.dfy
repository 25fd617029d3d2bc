/** The state store of src/core/state.ts: the current content, selection and
    feature set, plus a bounded log of the updates applied, from which
    `undo` reverts the most recent one. */
module State {

  import opened Types

  /** How many updates the log keeps. */
  const MaxHistory: nat := 100

  /** The log after `push` and, when it grew past the bound, `shift`. */
  function Appended(h: seq<StateUpdate>, u: StateUpdate): (r: seq<StateUpdate>)
    requires |h| <= MaxHistory
    ensures |r| <= MaxHistory && r != [] && r[|r| - 1] == u
    ensures |h| < MaxHistory ==> r == h + [u]
    ensures |h| == MaxHistory ==> r == h[1..] + [u]
  {
    var pushed := h + [u];
    if |pushed| > MaxHistory then pushed[1..] else pushed
  }

  /** The last `MaxHistory` elements of a sequence of updates, in order. */
  function Window(us: seq<StateUpdate>): (w: seq<StateUpdate>)
    ensures |w| <= MaxHistory
  {
    if |us| <= MaxHistory then us else us[|us| - MaxHistory..]
  }

  /** The log that results from applying `us` one at a time to an empty
      log. */
  function Replay(us: seq<StateUpdate>): (h: seq<StateUpdate>)
    ensures |h| <= MaxHistory
  {
    if us == [] then [] else Appended(Replay(us[..|us| - 1]), us[|us| - 1])
  }

  lemma AppendedWindow(us: seq<StateUpdate>, u: StateUpdate)
    ensures Appended(Window(us), u) == Window(us + [u])
  {
    var w := Window(us);
    var all := us + [u];
    if |all| > MaxHistory {
      assert (w + [u])[1..] == all[|all| - MaxHistory..];
    }
  }

  /** Whatever the updates, the log holds exactly the most recent
      `MaxHistory` of them, oldest first. */
  lemma {:induction false} ReplayIsWindow(us: seq<StateUpdate>)
    ensures Replay(us) == Window(us)
    decreases |us|
  {
    if us != [] {
      var init := us[..|us| - 1];
      ReplayIsWindow(init);
      AppendedWindow(init, us[|us| - 1]);
      assert init + [us[|us| - 1]] == us;
    }
  }

  /** Popping the entry just pushed gives the log back, unless the push
      dropped the oldest entry, which is then lost. */
  lemma PopUndoesAppend(h: seq<StateUpdate>, u: StateUpdate)
    requires |h| <= MaxHistory
    ensures var r := Appended(h, u);
      r[..|r| - 1] == (if |h| < MaxHistory then h else h[1..])
  {
  }

  /** The position of the most recent SET_CONTENT entry, if there is one. */
  function LastSetContent(h: seq<StateUpdate>): (r: Option<nat>)
    ensures r.None? <==> forall i :: 0 <= i < |h| ==> h[i].kind != SetContent
    ensures r.Some? ==> r.value < |h| && h[r.value].kind == SetContent
    ensures r.Some? ==> forall j :: r.value < j < |h| ==> h[j].kind != SetContent
  {
    if h == [] then None
    else if h[|h| - 1].kind == SetContent then Some(|h| - 1)
    else LastSetContent(h[..|h| - 1])
  }

  /** The content `undo` restores from the remaining log: the payload of its
      most recent SET_CONTENT entry, or the empty text when there is none. */
  function RestoredContent(h: seq<StateUpdate>): string {
    match LastSetContent(h)
    case Some(i) => h[i].payload
    case None => ""
  }

  /** The feature set after an update is applied. */
  function FeaturesAfter(f: set<string>, u: StateUpdate): set<string> {
    match u.kind
    case EnableFeature => f + {u.payload}
    case DisableFeature => f - {u.payload}
    case _ => f
  }

  /** The feature set after the update `last` is undone. */
  function FeaturesUndone(f: set<string>, last: StateUpdate): set<string> {
    match last.kind
    case EnableFeature => f - {last.payload}
    case DisableFeature => f + {last.payload}
    case _ => f
  }

  /** Undoing ENABLE_FEATURE or DISABLE_FEATURE brings back the feature set
      exactly when the update changed it; undoing any other update leaves
      the set alone. */
  lemma UndoFeaturesRoundTrip(f: set<string>, u: StateUpdate)
    ensures u.kind == EnableFeature ==> (FeaturesUndone(FeaturesAfter(f, u), u) == f <==> u.payload !in f)
    ensures u.kind == DisableFeature ==> (FeaturesUndone(FeaturesAfter(f, u), u) == f <==> u.payload in f)
    ensures !u.kind.EnableFeature? && !u.kind.DisableFeature? ==> FeaturesUndone(FeaturesAfter(f, u), u) == f
  {
    if u.kind == EnableFeature && u.payload in f {
      assert u.payload !in FeaturesUndone(FeaturesAfter(f, u), u);
    }
    if u.kind == DisableFeature && u.payload !in f {
      assert u.payload in FeaturesUndone(FeaturesAfter(f, u), u);
    }
  }

  /** Undoing a SET_CONTENT pushed onto a log that was not full brings the
      content back to the payload of the previous SET_CONTENT in the log, or
      to the empty text when the log has none, whatever the content was
      before the update. */
  lemma UndoSetContentRestores(h: seq<StateUpdate>, u: StateUpdate)
    requires |h| < MaxHistory && u.kind == SetContent
    ensures var r := Appended(h, u);
      RestoredContent(r[..|r| - 1]) == RestoredContent(h)
    ensures (forall i :: 0 <= i < |h| ==> h[i].kind != SetContent) ==> RestoredContent(h) == ""
  {
    PopUndoesAppend(h, u);
  }

  class StateManager {
    var content: string
    /** An opaque reference to the selection, or None for `null`. */
    var selection: Option<string>
    var activeFeatures: set<string>
    var history: seq<StateUpdate>

    ghost predicate Valid()
      reads this
    {
      |history| <= MaxHistory
    }

    /** `initialState.content || ''`: the given content, the empty text
        when none is given; no selection, no features, an empty log. */
    constructor (initialContent: Option<string>)
      ensures Valid()
      ensures content == (if initialContent.Some? then initialContent.value else "")
      ensures selection == None && activeFeatures == {} && history == []
    {
      content := if initialContent.Some? then initialContent.value else "";
      selection := None;
      activeFeatures := {};
      history := [];
    }

    /** Applies the update to the state (only the four state tags have an
        effect), then logs it, dropping the oldest entry past the bound. */
    method Update(u: StateUpdate)
      requires Valid()
      modifies this
      ensures Valid()
      ensures history == Appended(old(history), u)
      ensures content == (if u.kind == SetContent then u.payload else old(content))
      ensures selection == (if u.kind == SetSelection then Some(u.payload) else old(selection))
      ensures activeFeatures == FeaturesAfter(old(activeFeatures), u)
    {
      match u.kind {
        case SetContent => content := u.payload;
        case SetSelection => selection := Some(u.payload);
        case EnableFeature => activeFeatures := activeFeatures + {u.payload};
        case DisableFeature => activeFeatures := activeFeatures - {u.payload};
        case _ =>
      }
      history := history + [u];
      if |history| > MaxHistory {
        history := history[1..];
      }
    }

    /** A snapshot of the state. Its `history` field is the one the state
        record was created with, which nothing ever changes: always empty. */
    function GetState(): (s: EditorState)
      reads this
      ensures s.history == []
      ensures s.content == content && s.selection == selection && s.activeFeatures == activeFeatures
    {
      EditorState(content, selection, activeFeatures, [])
    }

    /** A copy of the log, oldest first; never longer than the bound. */
    function GetHistory(): (h: seq<StateUpdate>)
      reads this
      requires Valid()
      ensures |h| <= MaxHistory
      ensures h == history
    {
      history
    }

    /** Removes the most recent log entry and reverts its effect: a
        SET_CONTENT restores the content from the remaining log, a feature
        update is inverted, anything else only leaves the log. An empty log
        changes nothing. */
    method Undo()
      requires Valid()
      modifies this
      ensures Valid()
      ensures old(history) == [] ==>
        history == [] && content == old(content) && activeFeatures == old(activeFeatures)
      ensures old(history) != [] ==>
        var last := old(history)[|old(history)| - 1];
        && history == old(history)[..|old(history)| - 1]
        && content == (if last.kind == SetContent then RestoredContent(history) else old(content))
        && activeFeatures == FeaturesUndone(old(activeFeatures), last)
      ensures selection == old(selection)
    {
      if history == [] {
        return;
      }
      var last := history[|history| - 1];
      history := history[..|history| - 1];
      match last.kind {
        case SetContent => content := RestoredContent(history);
        case EnableFeature => activeFeatures := activeFeatures - {last.payload};
        case DisableFeature => activeFeatures := activeFeatures + {last.payload};
        case _ =>
      }
    }
  }
}
