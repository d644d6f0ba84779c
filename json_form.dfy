/** The edits the form component computes locally (JsonForm.jsx): the
    root-level change handler and the three array-editing helpers. */
module JsonForm {
  import opened JsonValues
  import opened JsonUpdater
  import opened TypeInference

  /** handleChange: the component's data with newValue written at its path.
      At the root the new value is forwarded as it is. */
  function HandleChange(data: Json, path: Path, newValue: Json): (r: Result<Json>)
    ensures path == [] ==> r == Ok(newValue)
    ensures IsPrimitive(data) ==> r == Ok(newValue)
  {
    UpdateNestedPath(data, path, newValue)
  }

  /** handleItemChange: a copy of the items with the one at index replaced. */
  function HandleItemChange(items: seq<Json>, index: nat, newValue: Json): (r: seq<Json>)
    ensures index < |items| ==> |r| == |items|
    ensures index < |items| ==> r[index] == newValue
    ensures index < |items| ==> forall j :: 0 <= j < |items| && j != index ==> r[j] == items[j]
  {
    Put(items, index, newValue)
  }

  /** The empty value of each kind, as the switch in handleAddItem picks it. */
  function DefaultItem(k: Kind): (v: Json)
    ensures InferType(v) == k
    ensures v in {Str(""), Num(0), Bool(false), Obj([]), Arr([]), Null}
  {
    match k
    case StringKind => Str("")
    case NumberKind => Num(0)
    case BooleanKind => Bool(false)
    case ObjectKind => Obj([])
    case ArrayKind => Arr([])
    case NullKind => Null
  }

  /** The item handleAddItem appends: the empty value of the first item's
      kind, or an empty object when there are no items. */
  function NewItem(items: seq<Json>): (v: Json)
    ensures InferType(v) == if |items| > 0 then InferType(items[0]) else ObjectKind
    ensures v in {Str(""), Num(0), Bool(false), Obj([]), Arr([]), Null}
  {
    DefaultItem(if |items| > 0 then InferType(items[0]) else ObjectKind)
  }

  /** handleAddItem: the items followed by one new item. */
  function HandleAddItem(items: seq<Json>): (r: seq<Json>)
    ensures |r| == |items| + 1
    ensures r[..|items|] == items
    ensures r[|items|] == NewItem(items)
    ensures InferType(r[|items|]) == if items == [] then ObjectKind else InferType(items[0])
  {
    items + [NewItem(items)]
  }

  /** The items at positions other than index, the first of them at
      position `position`: the filter in handleRemoveItem. */
  function KeepOthers(items: seq<Json>, index: int, position: int): (r: seq<Json>)
    ensures |r| == if position <= index < position + |items| then |items| - 1 else |items|
    ensures multiset(r) <= multiset(items)
    decreases |items|
  {
    if items == [] then []
    else
      assert items == [items[0]] + items[1..];
      (if position == index then [] else [items[0]]) + KeepOthers(items[1..], index, position + 1)
  }

  /** handleRemoveItem: `items.filter((_, i) => i !== index)`. An index in
      range drops exactly that item and keeps the rest in order; any other
      index leaves the items unchanged. */
  function HandleRemoveItem(items: seq<Json>, index: int): (r: seq<Json>)
    ensures 0 <= index < |items| ==> r == items[..index] + items[index + 1..]
    ensures 0 <= index < |items| ==> |r| == |items| - 1
    ensures !(0 <= index < |items|) ==> r == items
  {
    KeepOthersDropsOne(items, index, 0);
    KeepOthers(items, index, 0)
  }

  lemma {:induction false} KeepOthersDropsOne(items: seq<Json>, index: int, position: int)
    ensures position <= index < position + |items| ==>
      KeepOthers(items, index, position) == items[..index - position] + items[index - position + 1..]
    ensures !(position <= index < position + |items|) ==> KeepOthers(items, index, position) == items
    decreases |items|
  {
    if items != [] {
      var x, tail := items[0], items[1..];
      assert items == [x] + tail;
      KeepOthersDropsOne(tail, index, position + 1);
      if position == index {
        assert KeepOthers(items, index, position) == KeepOthers(tail, index, position + 1);
      } else if position < index < position + |items| {
        var i := index - position;
        assert KeepOthers(tail, index, position + 1) == tail[..i - 1] + tail[i..];
        assert items[..i] == [x] + tail[..i - 1];
        assert items[i + 1..] == tail[i..];
      }
    }
  }

  /** The form's filter and the engine's splice remove the same element. */
  lemma HandleRemoveItemIsSplice(items: seq<Json>, index: nat)
    ensures HandleRemoveItem(items, index) == Splice(items, index)
  {
  }

  /** Appending and then removing the appended item gives the items back. */
  lemma RemoveAddedItem(items: seq<Json>)
    ensures HandleRemoveItem(HandleAddItem(items), |items|) == items
  {
  }
}
