/** The label info box of the SIA view: which label it describes, whether it shows
    the annotation's type, and what dismissing it does. The box owns no state. */
module LabelInfoView {
  import opened Js
  import opened Opt

  /** An entry of possibleLabels. */
  datatype Label = Label(id: Val, name: Val, description: Val)  // name is the JS key `label`

  /** The annotation passed as the anno prop. */
  datatype Anno = Anno(id: Val, annoType: Val)

  /** What the description slot of the box holds. */
  datatype Description =
    | Found(name: Val, description: Val)  // the matching label's name and description
    | NoLabel                              // the text "No Label"
    | Nothing                              // no content at all

  /** `labels.find(e => key === e.id)`: the index of the first label whose id is key. */
  function FindById(labels: seq<Label>, key: Val): (r: Option<nat>)
    ensures r.Some? ==> r.value < |labels| && labels[r.value].id == key
    ensures r.Some? ==> forall j :: 0 <= j < r.value ==> labels[j].id != key
    ensures r.None? <==> forall j :: 0 <= j < |labels| ==> labels[j].id != key
  {
    if labels == [] then None
    else if labels[0].id == key then Some(0)
    else match FindById(labels[1..], key)
      case None => None
      case Some(i) => Some(i + 1)
  }

  /** `selectedLabelIds[0]`, which is undefined for an empty list. */
  function FirstId(ids: seq<Val>): Val {
    if ids == [] then Undefined else ids[0]
  }

  /** renderDescription: None stands for an absent or falsy selectedLabelIds prop. */
  function RenderDescription(selectedLabelIds: Option<seq<Val>>, possibleLabels: seq<Label>): (r: Description)
    // without selected ids there is no content, not even "No Label"
    ensures selectedLabelIds.None? <==> r.Nothing?
    // a match shows the first matching label
    ensures r.Found? ==>
      exists i :: (&& 0 <= i < |possibleLabels|
                   && possibleLabels[i].id == FirstId(selectedLabelIds.value)
                   && (forall j :: 0 <= j < i ==> possibleLabels[j].id != FirstId(selectedLabelIds.value))
                   && r == Found(possibleLabels[i].name, possibleLabels[i].description))
    // "No Label" exactly when ids were given and no label carries the first one
    ensures r.NoLabel? <==>
      (selectedLabelIds.Some? &&
       forall j :: 0 <= j < |possibleLabels| ==> possibleLabels[j].id != FirstId(selectedLabelIds.value))
  {
    match selectedLabelIds
    case None => Nothing
    case Some(ids) =>
      match FindById(possibleLabels, FirstId(ids))
      case None => NoLabel
      case Some(i) => Found(possibleLabels[i].name, possibleLabels[i].description)
  }

  /** Only the first selected id is consulted. */
  lemma OnlyFirstIdMatters(a: seq<Val>, b: seq<Val>, labels: seq<Label>)
    requires a != [] && b != [] && a[0] == b[0]
    ensures RenderDescription(Some(a), labels) == RenderDescription(Some(b), labels)
  {
  }

  /** With labels [{id: 1, label: "Cat", description: "A cat"}] the ids [1] show the cat,
      while [2] show "No Label". */
  lemma CatExample()
    ensures RenderDescription(Some([Num(1)]), [Label(Num(1), Str("Cat"), Str("A cat"))])
            == Found(Str("Cat"), Str("A cat"))
    ensures RenderDescription(Some([Num(2)]), [Label(Num(1), Str("Cat"), Str("A cat"))]) == NoLabel
    ensures RenderDescription(Some([]), [Label(Num(1), Str("Cat"), Str("A cat"))]) == NoLabel
  {
  }

  /** An empty selection reads the id undefined, so it finds a label whose id is undefined. */
  lemma EmptySelectionMatchesUndefinedId(description: Val)
    ensures RenderDescription(Some([]), [Label(Undefined, Str("x"), description)])
            == Found(Str("x"), description)
  {
  }

  /** renderMeta: the "Type: ..." line, shown only for an annotation with a truthy id. */
  function RenderMeta(anno: Anno): (r: Option<Val>)
    ensures r.Some? <==> Truthy(anno.id)
    ensures r.Some? ==> r.value == anno.annoType
  {
    if Truthy(anno.id) then Some(anno.annoType) else None
  }

  /** onDismiss: the callbacks invoked, in order; the onDismiss prop is called once
      when it is truthy and nothing happens otherwise. */
  function Dismiss(onDismiss: Val): (calls: seq<Val>)
    ensures Truthy(onDismiss) ==> calls == [onDismiss]
    ensures !Truthy(onDismiss) ==> calls == []
  {
    if Truthy(onDismiss) then [onDismiss] else []
  }
}
