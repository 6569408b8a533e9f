/** The state of the single image annotation (SIA) view and the reducer that
    moves it from one action to the next. */
module SiaReducer {
  import opened Js
  import opened Opt

  /** One field per key of the state object. */
  datatype State = State(
    annos: Val,
    selectedAnno: Obj,
    keyUp: Val,
    keyDown: Val,
    uiConfig: Obj,
    showSingleAnno: Val,
    selectedTool: Val,
    showLabelInput: Val,
    possibleLabels: seq<Val>,
    getNextImage: Val,
    getPrevImage: Val,
    fullscreenMode: Val,
    imageLoaded: Val,
    requestAnnoUpdate: int,
    appliedFullscreen: Val)

  /** One constructor per action kind the reducer recognises, and Unknown for every other kind.
      SelectAnno carries None for a falsy payload and Some(properties) for an object payload;
      KeyDown and KeyUp carry `payload.key`. */
  datatype Action =
    | GetSiaAnnos(payload: Val)
    | SelectAnno(selection: Option<Obj>)
    | GetSiaLabels(labels: seq<Val>)
    | KeyDown(key: Val)
    | KeyUp(key: Val)
    | SetUiConfig(config: Obj)
    | ShowSingleAnno(payload: Val)
    | SelectTool(payload: Val)
    | ShowLabelInput(payload: Val)
    | GetNextImage(payload: Val)
    | GetPrevImage(payload: Val)
    | Fullscreen(payload: Val)
    | ImageLoaded(payload: Val)
    | UpdateReduxAnnos(payload: Val)
    | RequestAnnoUpdate
    | AppliedFullscreen(payload: Val)
    | Unknown(kind: string)

  /** Names of the state's fields, so that frame conditions can be stated per field. */
  datatype Field =
    | AnnosField | SelectedAnnoField | KeyUpField | KeyDownField | UiConfigField
    | ShowSingleAnnoField | SelectedToolField | ShowLabelInputField | PossibleLabelsField
    | GetNextImageField | GetPrevImageField | FullscreenModeField | ImageLoadedField
    | RequestAnnoUpdateField | AppliedFullscreenField

  /** s and t hold the same value in field f. */
  predicate SameOn(s: State, t: State, f: Field) {
    match f
    case AnnosField => s.annos == t.annos
    case SelectedAnnoField => s.selectedAnno == t.selectedAnno
    case KeyUpField => s.keyUp == t.keyUp
    case KeyDownField => s.keyDown == t.keyDown
    case UiConfigField => s.uiConfig == t.uiConfig
    case ShowSingleAnnoField => s.showSingleAnno == t.showSingleAnno
    case SelectedToolField => s.selectedTool == t.selectedTool
    case ShowLabelInputField => s.showLabelInput == t.showLabelInput
    case PossibleLabelsField => s.possibleLabels == t.possibleLabels
    case GetNextImageField => s.getNextImage == t.getNextImage
    case GetPrevImageField => s.getPrevImage == t.getPrevImage
    case FullscreenModeField => s.fullscreenMode == t.fullscreenMode
    case ImageLoadedField => s.imageLoaded == t.imageLoaded
    case RequestAnnoUpdateField => s.requestAnnoUpdate == t.requestAnnoUpdate
    case AppliedFullscreenField => s.appliedFullscreen == t.appliedFullscreen
  }

  /** The fields an action is meant to write: the one it names, both key fields for a
      key event, none for an unknown action. */
  function Writes(a: Action): set<Field> {
    match a
    case GetSiaAnnos(_) => {AnnosField}
    case SelectAnno(_) => {SelectedAnnoField}
    case GetSiaLabels(_) => {PossibleLabelsField}
    case KeyDown(_) => {KeyDownField, KeyUpField}
    case KeyUp(_) => {KeyDownField, KeyUpField}
    case SetUiConfig(_) => {UiConfigField}
    case ShowSingleAnno(_) => {ShowSingleAnnoField}
    case SelectTool(_) => {SelectedToolField}
    case ShowLabelInput(_) => {ShowLabelInputField}
    case GetNextImage(_) => {GetNextImageField}
    case GetPrevImage(_) => {GetPrevImageField}
    case Fullscreen(_) => {FullscreenModeField}
    case ImageLoaded(_) => {ImageLoadedField}
    case UpdateReduxAnnos(_) => {AnnosField}
    case RequestAnnoUpdate => {RequestAnnoUpdateField}
    case AppliedFullscreen(_) => {AppliedFullscreenField}
    case Unknown(_) => {}
  }

  /** The key-event invariant: keyDown and keyUp are never both defined. */
  predicate KeysExclusive(s: State) {
    s.keyDown == Undefined || s.keyUp == Undefined
  }

  /** The state the reducer starts from (it is also the default for an undefined state).
      The initial selection uses the key annoId, not id. */
  function Initial(): (s: State)
    ensures KeysExclusive(s) && s.keyDown == Undefined && s.keyUp == Undefined
    ensures s.requestAnnoUpdate == 0 && s.possibleLabels == []
    ensures s.selectedAnno.Keys == {"annoId", "anno", "type"} && "id" !in s.selectedAnno
    ensures forall k :: k in s.selectedAnno ==> s.selectedAnno[k] == Undefined
    ensures s.uiConfig.Keys == {"nodeRadius", "strokeWidth"}
    ensures s.uiConfig["nodeRadius"] == Num(4) && s.uiConfig["strokeWidth"] == Num(4)
    ensures s.annos.Ref?
    ensures s.showSingleAnno == Undefined && s.selectedTool == Undefined
    ensures s.getNextImage == Undefined && s.getPrevImage == Undefined
    ensures s.showLabelInput == Bool(false) && s.fullscreenMode == Bool(false)
    ensures s.imageLoaded == Bool(false) && s.appliedFullscreen == Bool(false)
  {
    State(
      annos := Ref(0),
      selectedAnno := map["annoId" := Undefined, "anno" := Undefined, "type" := Undefined],
      keyUp := Undefined,
      keyDown := Undefined,
      uiConfig := map["nodeRadius" := Num(4), "strokeWidth" := Num(4)],
      showSingleAnno := Undefined,
      selectedTool := Undefined,
      showLabelInput := Bool(false),
      possibleLabels := [],
      getNextImage := Undefined,
      getPrevImage := Undefined,
      fullscreenMode := Bool(false),
      imageLoaded := Bool(false),
      requestAnnoUpdate := 0,
      appliedFullscreen := Bool(false))
  }

  /** The reducer: a total, pure transition from a state and an action to the next state. */
  function Reduce(s: State, a: Action): (r: State)
    // an unrecognised action returns the state itself
    ensures a.Unknown? ==> r == s
    // only RequestAnnoUpdate moves the counter, and by exactly one
    ensures r.requestAnnoUpdate == s.requestAnnoUpdate + (if a.RequestAnnoUpdate? then 1 else 0)
    // key events: the one set, the other cleared; so the invariant is preserved
    ensures a.KeyDown? ==> r.keyDown == a.key && r.keyUp == Undefined
    ensures a.KeyUp? ==> r.keyUp == a.key && r.keyDown == Undefined
    ensures KeysExclusive(s) ==> KeysExclusive(r)
    // selection: merged with an object payload, reset to {id: undefined} without one
    ensures a.SelectAnno? && a.selection.Some? ==>
              IsShallowMerge(s.selectedAnno, a.selection.value, r.selectedAnno)
    ensures a.SelectAnno? && a.selection.None? ==> r.selectedAnno == map["id" := Undefined]
    // the UI configuration is merged, never replaced
    ensures a.SetUiConfig? ==> IsShallowMerge(s.uiConfig, a.config, r.uiConfig)
    // the labels are an element-wise copy of the payload
    ensures a.GetSiaLabels? ==>
              |r.possibleLabels| == |a.labels| &&
              forall i :: 0 <= i < |a.labels| ==> r.possibleLabels[i] == a.labels[i]
    // every plain setter stores its payload
    ensures (a.GetSiaAnnos? || a.UpdateReduxAnnos?) ==> r.annos == a.payload
    ensures a.ShowSingleAnno? ==> r.showSingleAnno == a.payload
    ensures a.SelectTool? ==> r.selectedTool == a.payload
    ensures a.ShowLabelInput? ==> r.showLabelInput == a.payload
    ensures a.GetNextImage? ==> r.getNextImage == a.payload
    ensures a.GetPrevImage? ==> r.getPrevImage == a.payload
    ensures a.Fullscreen? ==> r.fullscreenMode == a.payload
    ensures a.ImageLoaded? ==> r.imageLoaded == a.payload
    ensures a.AppliedFullscreen? ==> r.appliedFullscreen == a.payload
  {
    match a
    case GetSiaAnnos(p) => s.(annos := p)
    case SelectAnno(sel) =>
      if sel.Some? then s.(selectedAnno := Spread(s.selectedAnno, sel.value))
      else s.(selectedAnno := map["id" := Undefined])
    case GetSiaLabels(ls) => s.(possibleLabels := ls[..])
    case KeyDown(k) => s.(keyDown := k, keyUp := Undefined)
    case KeyUp(k) => s.(keyUp := k, keyDown := Undefined)
    case SetUiConfig(c) => s.(uiConfig := Spread(s.uiConfig, c))
    case ShowSingleAnno(p) => s.(showSingleAnno := p)
    case SelectTool(p) => s.(selectedTool := p)
    case ShowLabelInput(p) => s.(showLabelInput := p)
    case GetNextImage(p) => s.(getNextImage := p)
    case GetPrevImage(p) => s.(getPrevImage := p)
    case Fullscreen(p) => s.(fullscreenMode := p)
    case ImageLoaded(p) => s.(imageLoaded := p)
    case UpdateReduxAnnos(p) => s.(annos := p)
    case RequestAnnoUpdate => s.(requestAnnoUpdate := s.requestAnnoUpdate + 1)
    case AppliedFullscreen(p) => s.(appliedFullscreen := p)
    case Unknown(_) => s
  }

  /** Every field an action does not name is carried over unchanged by the spread. */
  lemma ReduceFrame(s: State, a: Action, f: Field)
    requires f !in Writes(a)
    ensures SameOn(s, Reduce(s, a), f)
  {
  }

  /** The state after dispatching the actions of a trace in order. */
  function Run(s: State, trace: seq<Action>): State
    decreases |trace|
  {
    if trace == [] then s else Run(Reduce(s, trace[0]), trace[1..])
  }

  /** How many actions of a trace request an annotation update. */
  function Requests(trace: seq<Action>): (n: nat)
    ensures n <= |trace|
  {
    if trace == [] then 0
    else (if trace[0].RequestAnnoUpdate? then 1 else 0) + Requests(trace[1..])
  }

  /** Along any trace the counter grows by exactly the number of update requests,
      so it never decreases. */
  lemma {:induction false} RunCountsRequests(s: State, trace: seq<Action>)
    ensures Run(s, trace).requestAnnoUpdate == s.requestAnnoUpdate + Requests(trace)
    ensures Run(s, trace).requestAnnoUpdate >= s.requestAnnoUpdate
    decreases |trace|
  {
    if trace != [] {
      RunCountsRequests(Reduce(s, trace[0]), trace[1..]);
    }
  }

  /** Every state reachable from the initial state has at most one key field defined. */
  lemma {:induction false} RunKeepsKeysExclusive(s: State, trace: seq<Action>)
    requires KeysExclusive(s)
    ensures KeysExclusive(Run(s, trace))
    decreases |trace|
  {
    if trace != [] {
      RunKeepsKeysExclusive(Reduce(s, trace[0]), trace[1..]);
    }
  }

  /** A trace with no update request leaves the counter where it was. */
  lemma {:induction false} NoRequestNoChange(s: State, trace: seq<Action>)
    requires forall i :: 0 <= i < |trace| ==> !trace[i].RequestAnnoUpdate?
    ensures Run(s, trace).requestAnnoUpdate == s.requestAnnoUpdate
    decreases |trace|
  {
    if trace != [] {
      NoRequestNoChange(Reduce(s, trace[0]), trace[1..]);
    }
  }

  /** Deselecting forgets the prior selection entirely: two states with different
      selections deselect to the same selection. */
  lemma DeselectForgetsSelection(s: State, t: State)
    ensures Reduce(s, SelectAnno(None)).selectedAnno == Reduce(t, SelectAnno(None)).selectedAnno
  {
  }

  /** Selecting {type: "box"} over {id: 5, annotation: A, type: "point"} keeps id and annotation. */
  lemma SelectMergesExample(s: State, ann: Val)
    requires s.selectedAnno == map["id" := Num(5), "annotation" := ann, "type" := Str("point")]
    ensures Reduce(s, SelectAnno(Some(map["type" := Str("box")]))).selectedAnno
            == map["id" := Num(5), "annotation" := ann, "type" := Str("box")]
  {
  }

  /** Setting {strokeWidth: 2} on the initial configuration keeps nodeRadius at 4. */
  lemma UiConfigKeepsNodeRadius()
    ensures Reduce(Initial(), SetUiConfig(map["strokeWidth" := Num(2)])).uiConfig
            == map["nodeRadius" := Num(4), "strokeWidth" := Num(2)]
  {
  }
}
