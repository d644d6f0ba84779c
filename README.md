# JSON form editor: path engine, type classifier and array edits

This project models the core of a React editor for JSON configuration
documents. The editor renders a form from any JSON value. Each edit builds a
new document, and the old one is never changed. Three parts are modelled:

- **Path engine** (`src/utils/jsonUpdater.js`), in module `JsonUpdater`.
  - `updateNestedPath` writes a value at a path.
  - `deleteNestedPath` removes the value at a path.
  - `getNestedPath` reads the value at a path.
  - `pathToString` formats a path for display; it is in module `PathFormat`.
  - Each write or delete copies only the containers on the path.
  - The only error is `Invalid array index`, raised when a segment that does not parse as an integer addresses an array.
- **Type classifier** (`src/utils/typeInference.js`), in module `TypeInference`.
  - `inferType` sorts every value into one of six kinds.
  - `isPrimitive` and `isComplex` split those kinds into two groups.
- **Local array edits of the form component** (`src/components/JsonForm/JsonForm.jsx`), in module `JsonForm`.
  - Replace an item, append an item whose default depends on the kind of the first item, remove an item.
  - `handleChange` at the root level.

Values are the datatype `JsonValues.Json`:

- null, undefined, booleans, integers, strings;
- arrays (`seq<Json>`);
- objects, kept as ordered member lists (`seq<(string, Json)>`).

An object keeps its insertion order. Overwriting a key leaves it in place, and
a new key goes last, as with JavaScript's object spread. A path is a sequence of
`Key(name)` and `Idx(n)` segments. Every segment turns into a JavaScript property
name (`PropertyKey`): an index becomes its decimal text (`Decimal.NatToString`).
So an index used on an object addresses the key `"n"`, as it does in JavaScript.

Errors are a `Result`. `Err(InvalidArrayIndex(seg))` carries the segment
that the source puts into its error message.

What is proved, in module `PathLaws`:

- Read-after-write along every path whose steps all go into fitting containers.
- A write leaves every path that branches off elsewhere reading as before.
- The exact condition under which update and delete fail, and which segment the error names.
- Delete-then-absent for object members, and that deleting an array element shifts the next element into its place.
- Update and delete keep object keys unique.

Also proved:

- The loop in `getNestedPath` computes the recursive reading function `ValueAt`.
- `pathToString` can be inverted on paths whose keys are plain names. Separators in keys, and a single key spelled `root`, make two paths display the same.
- The classifier's two groups split the six kinds.
- The form's filter removes the same element as the engine's splice.

## Model

| member | source | states |
|---|---|---|
| `JsonUpdater.UpdateNestedPath` | src/utils/jsonUpdater.js:1-51 | a null, undefined or primitive root, and an empty path, give the value itself; a key segment on an array gives InvalidArrayIndex for that segment; a successful write on a container keeps its kind |
| `JsonUpdater.DeleteNestedPath` | src/utils/jsonUpdater.js:59-100 | an empty path gives undefined; a leaf root is returned unchanged; a key segment on an array gives InvalidArrayIndex; a successful delete on a container keeps its kind |
| `JsonUpdater.ValueAt` | src/utils/jsonUpdater.js:108-122 | the reading function every path law is stated in; past a leaf (null, undefined or a primitive) any further segment reads as undefined |
| `JsonUpdater.GetNestedPath` | src/utils/jsonUpdater.js:108-122 | the loop returns exactly the value at the path: the root for an empty path, undefined once null or undefined is met before the path ends |
| `JsonUpdater.UpdateInArray` | src/utils/jsonUpdater.js:13-31 | with an index in range: same length, the index holds the value (or the nested update of the old element), every other element unchanged; it fails only when the nested update fails |
| `JsonUpdater.UpdateInObject` | src/utils/jsonUpdater.js:33-47 | the addressed key maps to the value (or the nested update of the old member); every other key keeps its value; key order is kept and a new key is appended |
| `JsonUpdater.DeleteArrayElement` | src/utils/jsonUpdater.js:73-76 | splicing out an element in range: length drops by one, earlier elements stay, later ones move down by one |
| `JsonUpdater.DeleteObjectMember` | src/utils/jsonUpdater.js:88-91 | the key is gone, every other key keeps its value, the remaining keys keep their order |
| `JsonUpdater.DeleteInArray` | src/utils/jsonUpdater.js:77-81 | a nested delete replaces only the addressed element, with the same length |
| `JsonUpdater.DeleteInObject` | src/utils/jsonUpdater.js:92-96 | a nested delete replaces only the addressed member; a missing member is written as undefined |
| `JsonValues.PropertyKey` | src/utils/jsonUpdater.js:43 | a key is used as it is; an index becomes a non-empty digit string that reads back as the index |
| `JsonValues.Field` | src/utils/jsonUpdater.js:43 | `obj[k]` is undefined when k is not a key of the object |
| `JsonValues.LookupIsMember` | src/utils/jsonUpdater.js:43 | for a key of the object, `obj[k]` is the value of one of its members named k |
| `JsonValues.At` | src/utils/jsonUpdater.js:27 | `arr[i]` is the element for an index in range and undefined past the end |
| `JsonValues.Property` | src/utils/jsonUpdater.js:118 | `v[seg]` is undefined unless v is an object or an array addressed by an index; an index in range gives that element; on an object without the segment's property key it gives undefined |
| `JsonValues.SetField` | src/utils/jsonUpdater.js:36-40 | after writing a member, the key reads as the new value, other keys read as before, keys keep their order with a new key last |
| `JsonValues.RemoveField` | src/utils/jsonUpdater.js:86-90 | after `delete`, the key reads as absent, other keys read as before, the key sequence loses only that key |
| `JsonValues.Put` | src/utils/jsonUpdater.js:14-24 | the copied array holds the value at the index and the old element everywhere else; a write past the end grows the array to index + 1 |
| `JsonValues.Splice` | src/utils/jsonUpdater.js:75 | splice(i, 1) removes exactly element i and shifts the later ones; past the end it removes nothing |
| `JsonValues.SetFieldAppends` | src/utils/jsonUpdater.js:36-40 | a key not yet present is appended after all existing members |
| `JsonValues.SetFieldKeepsKeysUnique` | src/utils/jsonUpdater.js:36-40 | writing a member keeps object keys unique |
| `JsonValues.RemoveFieldKeepsKeysUnique` | src/utils/jsonUpdater.js:86-90 | deleting a member keeps object keys unique |
| `Decimal.NatToString` | src/utils/jsonUpdater.js:137 | an index's decimal text is non-empty, all digits, and has no leading zero |
| `Decimal.NatToStringInjective` | src/utils/jsonUpdater.js:137 | different indices get different decimal texts |
| `Decimal.DigitsValueOfNatToString` | src/utils/jsonUpdater.js:137 | reading back an index's decimal text gives the index |
| `PathLaws.ValueAtConcat` | src/utils/jsonUpdater.js:113-121 | reading along p and then along q equals reading along p + q |
| `PathLaws.ValueAtPastNull` | src/utils/jsonUpdater.js:115-117 | once the walk meets null or undefined, every longer path reads as undefined |
| `PathLaws.AddressableCons` | src/utils/jsonUpdater.js:13-47 | a path can be followed from a root exactly when its first step enters a container and the rest can be followed from the child |
| `PathLaws.PropertyAfterUpdate` | src/utils/jsonUpdater.js:13-47 | one level of a write into a container the segment can enter: it succeeds when the nested write does, and the written property of the new container holds the value or the child's updated value |
| `PathLaws.ReadAfterWrite` | src/utils/jsonUpdater.js:1-51 | when every proper prefix of the path is an object, or an array with an index segment next, the write succeeds and reading the path gives the value written |
| `PathLaws.MissingIntermediateKey` | src/utils/jsonUpdater.js:41-44 | a missing key before the end of the path becomes a member holding the value itself, with no nested object built |
| `PathLaws.NonInterference` | src/utils/jsonUpdater.js:13-47 | after a write along an addressable path, every path that shares a prefix and then names a different property reads as before |
| `PathLaws.UpdateFailsAt` | src/utils/jsonUpdater.js:16-20 | if some segment is a key used on an array reached through containers, the update raises InvalidArrayIndex for that segment |
| `PathLaws.UpdateSucceeds` | src/utils/jsonUpdater.js:1-51 | if no segment is such a key, the update succeeds |
| `PathLaws.DeleteFailsAt` | src/utils/jsonUpdater.js:67-71 | the delete raises InvalidArrayIndex under the same condition, for the same segment |
| `PathLaws.DeleteSucceeds` | src/utils/jsonUpdater.js:59-100 | otherwise the delete succeeds |
| `PathLaws.DeleteThenAbsent` | src/utils/jsonUpdater.js:84-96 | deleting along an addressable path whose last container is an object leaves the path reading as undefined |
| `PathLaws.DeleteShiftsNextElement` | src/utils/jsonUpdater.js:73-76 | after deleting element i of an array, index i reads as the former element i + 1 |
| `PathLaws.PutKeepsWellFormed` | src/utils/jsonUpdater.js:14-27 | writing a well-formed element into an array of well-formed elements keeps every element well-formed |
| `PathLaws.UpdateKeepsWellFormed` | src/utils/jsonUpdater.js:1-51 | writing a well-formed value into a tree whose object keys are unique keeps them unique |
| `PathLaws.DeleteKeepsWellFormed` | src/utils/jsonUpdater.js:59-100 | deleting from a tree whose object keys are unique keeps them unique |
| `PathFormat.PathToString` | src/utils/jsonUpdater.js:129-142 | the empty path displays as `root`; a non-empty path starts with its first key, or with `[` for a first index; every non-empty path whose keys are plain names is recovered by parsing its display form |
| `PathFormat.SegmentText` | src/utils/jsonUpdater.js:135-140 | away from the first position, and for any index, a segment's text starts with a separator |
| `PathFormat.SegmentTextShape` | src/utils/jsonUpdater.js:135-140 | an index displays as `[`, digits that read back as the index, `]`; a key displays as itself in first position and as `.key` after that |
| `PathFormat.RenderFrom` | src/utils/jsonUpdater.js:134-141 | the joined text of a non-empty path rendered after the first position starts with a separator |
| `PathFormat.PathToStringOfKeys` | src/utils/jsonUpdater.js:134-141 | `["server", "port"]` displays as `server.port` |
| `PathFormat.PathToStringOfMixed` | src/utils/jsonUpdater.js:134-141 | `["items", 0, "name"]` displays as `items[0].name` |
| `PathFormat.PathToStringSnoc` | src/utils/jsonUpdater.js:134-141 | extending a non-empty path by a key appends `.key`, by an index appends `[N]` |
| `PathFormat.RenderFromLater` | src/utils/jsonUpdater.js:139 | only the first position changes how a key is displayed |
| `PathFormat.RootKeyCollision` | src/utils/jsonUpdater.js:129-142 | `[]` and `["root"]` display the same |
| `PathFormat.DottedKeyCollision` | src/utils/jsonUpdater.js:134-141 | `["a.b"]` and `["a", "b"]` display the same |
| `PathFormat.BracketKeyCollision` | src/utils/jsonUpdater.js:134-141 | `["[0]"]` and `[0]` display the same |
| `PathFormat.ParseRenderFrom` | src/utils/jsonUpdater.js:134-141 | parsing the joined segment texts of a path with plain keys gives the path back |
| `PathFormat.PathToStringInjective` | src/utils/jsonUpdater.js:129-142 | two non-empty paths with plain keys and the same display form are equal |
| `TypeInference.InferType` | src/utils/typeInference.js:12-29 | null and undefined are `null`; arrays are `array`; other objects are `object`; strings, numbers and booleans get their own kinds, each in both directions |
| `TypeInference.KindName` | src/utils/typeInference.js:4 | every kind is named by one of the six strings the classifier returns |
| `TypeInference.KindNameInjective` | src/utils/typeInference.js:4 | distinct kinds have distinct names |
| `TypeInference.IsPrimitive` | src/utils/typeInference.js:36-39 | the membership test on the inferred name holds exactly for null, undefined, booleans, numbers and strings |
| `TypeInference.IsComplex` | src/utils/typeInference.js:46-49 | the membership test on the inferred name holds exactly for arrays and objects |
| `TypeInference.PrimitiveOrComplex` | src/utils/typeInference.js:36-49 | exactly one of isPrimitive and isComplex holds for every value |
| `JsonForm.HandleChange` | src/components/JsonForm/JsonForm.jsx:20-22 | at the root, and on primitive data, the new value is forwarded unchanged |
| `JsonForm.HandleItemChange` | src/components/JsonForm/JsonForm.jsx:101-105 | for an index in range: same length, the index holds the new value, every other item unchanged |
| `JsonForm.DefaultItem` | src/components/JsonForm/JsonForm.jsx:112-130 | the value chosen for each kind has that kind and is one of `''`, `0`, `false`, `{}`, `[]`, `null`, which together fix it |
| `JsonForm.NewItem` | src/components/JsonForm/JsonForm.jsx:109-130 | the new item has the kind of the first item, or is an object when there are no items, and is one of the six empty values |
| `JsonForm.HandleAddItem` | src/components/JsonForm/JsonForm.jsx:107-133 | exactly one item is appended, the existing items are unchanged, and the new item is the default item: the empty value of the first item's kind (an empty object for an empty array) |
| `JsonForm.KeepOthersDropsOne` | src/components/JsonForm/JsonForm.jsx:136 | the index filter drops exactly the element at the index when it is in range, and nothing otherwise |
| `JsonForm.KeepOthers` | src/components/JsonForm/JsonForm.jsx:136 | the filter keeps one item fewer when the index falls within the items and all of them otherwise, and keeps only items it was given |
| `JsonForm.HandleRemoveItem` | src/components/JsonForm/JsonForm.jsx:135-138 | an index in range removes exactly that item and keeps the others in order, so the length drops by one; any other index leaves the items unchanged |
| `JsonForm.HandleRemoveItemIsSplice` | src/components/JsonForm/JsonForm.jsx:136 | the form's filter and the engine's splice remove the same element |
| `JsonForm.RemoveAddedItem` | src/components/JsonForm/JsonForm.jsx:132-136 | removing the item just appended gives the items back |
| `Scenarios.WriteIntoNestedArray` | src/utils/jsonUpdater.js:13-47 | writing 99 at `a[1]` of `{"a": [1, 2, 3]}` gives `{"a": [1, 99, 3]}` |
| `Scenarios.DeleteNestedMember` | src/utils/jsonUpdater.js:84-96 | deleting `a.b` from `{"a": {"b": 1, "c": 2}}` gives `{"a": {"c": 2}}` |
| `Scenarios.KeyOnArrayRejected` | src/utils/jsonUpdater.js:16-20 | a key segment on an array is rejected by both update and delete |
| `Scenarios.EditSamplePort` | src/sampleConfig.js:5-7 | changing `server.port` in a fragment of the sample configuration changes only that member |

## Left out

- Rendering, collapse state, page controls and serialisation are not modelled. This covers the JSX output, the `useState` collapse map keyed by path string, the App.jsx toggles, reset and submit, `JSON.stringify` and `console.log`. They are UI and I/O.
- The wiring of nested change handlers (JsonForm.jsx:20-27, 79-83, 176-179) is not modelled as whole-document edits.
  - Each nested form calls `updateNestedPath` on its own subtree, but with the path measured from the document root.
  - Only the local computations of each level are modelled.
- Numbers are integers. FormField.jsx's `parseFloat` coercion, float64 arithmetic and NaN are not modelled, and neither are the input widgets.
- A key segment on an array is always invalid for a write or a delete, and reads as undefined.
  - In JavaScript, `parseInt` also accepts strings such as `"2"`, `"2x"` or `" 3"`.
  - A read also finds an element under its decimal-string key, and finds `length`.
  - The renderer only ever uses number segments for array elements.
- Property reads on primitives give undefined. JavaScript's string character indexing and built-in properties such as `length` are not modelled.
- Writing past the end of an array fills the gap with explicit undefined elements.
  - JavaScript leaves holes there.
  - Holes read as undefined too, but `map`, `filter` and `Object.keys` skip them; the model does not.
  - The JavaScript array length limit of 2^32 - 1 is not modelled either.
- `Decimal.NatToString` writes every index as plain digits. JavaScript's `String(n)` switches to exponent form (`1e+21`) from 10^21 on; indices that large are not modelled.
- Negative indices are not modelled.
  - In the source, a segment such as `-1` or `"-1"` on an array parses to -1, which is not NaN, so no error is raised (jsonUpdater.js:16-20, 67-71).
  - A delete with it then splices from the end, dropping the last element (:75); an update writes an array property named `"-1"` (:24).
  - The model cannot express this: `Idx` holds a `nat`, and `Key("-1")` on an array is an error.
- JavaScript puts integer-like object keys first, in ascending order, ahead of the other keys. The model keeps plain insertion order. The special `__proto__` key is not modelled.
- Inherited object properties are not modelled.
  - In the source, `current[key]` (jsonUpdater.js:118) and `obj[first]` (:43, :94) also find properties an object inherits, such as `constructor` or `toString`.
  - So reading `["constructor"]` from `{}` gives a function, and deleting `["constructor", "x"]` from `{}` writes that function back as an own member (:94).
  - In the model `Field` sees only own members, so both read as undefined.
- Sharing of untouched subtrees by reference is not modelled: the model has value semantics. "Only the spine is copied" is stated as "every sibling is equal to its old value".
- The text of the thrown error message is not modelled; the error carries the offending segment instead.
- A general "delete, then the path reads as absent" law does not hold for arrays. Deleting element i moves the former element i + 1 into slot i (`PathLaws.DeleteShiftsNextElement`). The absent-after-delete law is proved for object members only (`PathLaws.DeleteThenAbsent`).
- `PathLaws.NonInterference`: the whole written path must be addressable, a stronger requirement than the proof strictly needs past the point where the two paths part.
- `src/sampleConfig.js` is static data. Only a fragment of it is used, as a concrete document in `Scenarios.EditSamplePort`.
