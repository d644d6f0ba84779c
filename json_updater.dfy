/** The path engine: write, delete and read a value at a path inside a
    JSON tree, always building a new tree (jsonUpdater.js). */
module JsonUpdater {
  import opened JsonValues

  /** The one error the engine raises: a segment that is not an index was
      used to address an array element. */
  datatype PathError = InvalidArrayIndex(segment: Segment)

  datatype Result<T> = Ok(value: T) | Err(error: PathError)

  /** Neither an array nor an object: null, undefined or a primitive. */
  predicate IsLeaf(v: Json) {
    !v.Arr? && !v.Obj?
  }

  /** updateNestedPath: a copy of root with value written at path. Only the
      containers along the path are rebuilt. */
  function UpdateNestedPath(root: Json, path: Path, value: Json): (r: Result<Json>)
    ensures IsLeaf(root) ==> r == Ok(value)
    ensures path == [] ==> r == Ok(value)
    ensures root.Arr? && path != [] && path[0].Key? ==> r == Err(InvalidArrayIndex(path[0]))
    ensures r.Ok? && path != [] && !IsLeaf(root) ==> r.value.Arr? == root.Arr? && r.value.Obj? == root.Obj?
    decreases path
  {
    if root.Null? || root.Undefined? then Ok(value)
    else if path == [] then Ok(value)
    else
      match root
      case Arr(items) =>
        (match path[0]
         case Key(_) => Err(InvalidArrayIndex(path[0]))
         case Idx(i) =>
           if |path| == 1 then Ok(Arr(Put(items, i, value)))
           else
             match UpdateNestedPath(At(items, i), path[1..], value)
             case Err(e) => Err(e)
             case Ok(child) => Ok(Arr(Put(items, i, child))))
      case Obj(fields) =>
        var k := PropertyKey(path[0]);
        if |path| == 1 then Ok(Obj(SetField(fields, k, value)))
        else
          (match UpdateNestedPath(Field(fields, k), path[1..], value)
           case Err(e) => Err(e)
           case Ok(child) => Ok(Obj(SetField(fields, k, child))))
      case _ => Ok(value)
  }

  /** deleteNestedPath: a copy of root with the value at path removed. An
      empty path yields undefined; a leaf root comes back unchanged. */
  function DeleteNestedPath(root: Json, path: Path): (r: Result<Json>)
    ensures path == [] ==> r == Ok(Undefined)
    ensures path != [] && IsLeaf(root) ==> r == Ok(root)
    ensures root.Arr? && path != [] && path[0].Key? ==> r == Err(InvalidArrayIndex(path[0]))
    ensures r.Ok? && path != [] ==> r.value.Arr? == root.Arr? && r.value.Obj? == root.Obj?
    decreases path
  {
    if path == [] then Ok(Undefined)
    else
      match root
      case Arr(items) =>
        (match path[0]
         case Key(_) => Err(InvalidArrayIndex(path[0]))
         case Idx(i) =>
           if |path| == 1 then Ok(Arr(Splice(items, i)))
           else
             match DeleteNestedPath(At(items, i), path[1..])
             case Err(e) => Err(e)
             case Ok(child) => Ok(Arr(Put(items, i, child))))
      case Obj(fields) =>
        var k := PropertyKey(path[0]);
        if |path| == 1 then Ok(Obj(RemoveField(fields, k)))
        else
          (match DeleteNestedPath(Field(fields, k), path[1..])
           case Err(e) => Err(e)
           case Ok(child) => Ok(Obj(SetField(fields, k, child))))
      case _ => Ok(root)
  }

  /** The value at path: the walk stops with undefined as soon as it meets
      null or undefined before the path ends. */
  function ValueAt(root: Json, path: Path): (r: Json)
    ensures path != [] && IsLeaf(root) ==> r == Undefined
    decreases path
  {
    if path == [] then root
    else if root.Null? || root.Undefined? then Undefined
    else ValueAt(Property(root, path[0]), path[1..])
  }

  /** getNestedPath: the loop that walks the path one property at a time. */
  method GetNestedPath(root: Json, path: Path) returns (r: Json)
    ensures r == ValueAt(root, path)
    ensures path == [] ==> r == root
    ensures path != [] && (root.Null? || root.Undefined?) ==> r == Undefined
  {
    if |path| == 0 {
      return root;
    }
    var current := root;
    for i := 0 to |path|
      invariant ValueAt(current, path[i..]) == ValueAt(root, path)
    {
      if current.Null? || current.Undefined? {
        return Undefined;
      }
      assert path[i..][1..] == path[i + 1..];
      current := Property(current, path[i]);
    }
    assert path[|path|..] == [];
    return current;
  }

  // -----------------------------------------------------------------------
  // One level of the engine

  /** Writing inside an array at an index in range keeps its length, puts
      the new value (or the updated old element) at the index and leaves
      every other element alone. */
  lemma UpdateInArray(items: seq<Json>, i: nat, rest: Path, value: Json)
    requires i < |items|
    ensures var r := UpdateNestedPath(Arr(items), [Idx(i)] + rest, value);
      var inner := UpdateNestedPath(items[i], rest, value);
      && (r.Ok? <==> rest == [] || inner.Ok?)
      && (r.Ok? ==>
            && r.value.Arr?
            && |r.value.items| == |items|
            && r.value.items[i] == (if rest == [] then value else inner.value)
            && forall j :: 0 <= j < |items| && j != i ==> r.value.items[j] == items[j])
  {
    assert ([Idx(i)] + rest)[1..] == rest;
  }

  /** Writing inside an object sets the addressed key to the new value (or
      the updated old member) and leaves every other key, and the key
      order, alone; a new key goes last. */
  lemma UpdateInObject(fields: seq<(string, Json)>, seg: Segment, rest: Path, value: Json)
    ensures var k := PropertyKey(seg);
      var r := UpdateNestedPath(Obj(fields), [seg] + rest, value);
      var inner := UpdateNestedPath(Field(fields, k), rest, value);
      && (r.Ok? <==> rest == [] || inner.Ok?)
      && (r.Ok? ==>
            && r.value.Obj?
            && Lookup(r.value.fields, k) == Some(if rest == [] then value else inner.value)
            && (forall k' :: k' != k ==> Lookup(r.value.fields, k') == Lookup(fields, k'))
            && Keys(r.value.fields) == if k in Keys(fields) then Keys(fields) else Keys(fields) + [k])
  {
    assert ([seg] + rest)[1..] == rest;
  }

  /** Deleting the last segment of an array path splices out exactly that
      element: one shorter, earlier elements stay, later ones move down. */
  lemma DeleteArrayElement(items: seq<Json>, i: nat)
    requires i < |items|
    ensures var r := DeleteNestedPath(Arr(items), [Idx(i)]);
      && r.Ok? && r.value.Arr?
      && |r.value.items| == |items| - 1
      && (forall j :: 0 <= j < i ==> r.value.items[j] == items[j])
      && (forall j :: i <= j < |items| - 1 ==> r.value.items[j] == items[j + 1])
  {
  }

  /** Deleting the last segment of an object path drops that key only. */
  lemma DeleteObjectMember(fields: seq<(string, Json)>, seg: Segment)
    ensures var k := PropertyKey(seg);
      var r := DeleteNestedPath(Obj(fields), [seg]);
      && r.Ok? && r.value.Obj?
      && Lookup(r.value.fields, k) == None
      && (forall k' :: k' != k ==> Lookup(r.value.fields, k') == Lookup(fields, k'))
      && Keys(r.value.fields) == Without(Keys(fields), k)
  {
  }

  /** Deleting deeper inside an array replaces only the addressed element
      by the result of the nested delete. */
  lemma DeleteInArray(items: seq<Json>, i: nat, rest: Path)
    requires i < |items| && rest != []
    ensures var r := DeleteNestedPath(Arr(items), [Idx(i)] + rest);
      var inner := DeleteNestedPath(items[i], rest);
      && (r.Ok? <==> inner.Ok?)
      && (r.Ok? ==>
            && r.value.Arr?
            && |r.value.items| == |items|
            && r.value.items[i] == inner.value
            && forall j :: 0 <= j < |items| && j != i ==> r.value.items[j] == items[j])
  {
    assert ([Idx(i)] + rest)[1..] == rest;
  }

  /** Deleting deeper inside an object replaces only the addressed member by
      the result of the nested delete; a missing member is added as
      undefined, as the assignment in the source does. */
  lemma DeleteInObject(fields: seq<(string, Json)>, seg: Segment, rest: Path)
    requires rest != []
    ensures var k := PropertyKey(seg);
      var r := DeleteNestedPath(Obj(fields), [seg] + rest);
      var inner := DeleteNestedPath(Field(fields, k), rest);
      && (r.Ok? <==> inner.Ok?)
      && (r.Ok? ==>
            && r.value.Obj?
            && Lookup(r.value.fields, k) == Some(inner.value)
            && (forall k' :: k' != k ==> Lookup(r.value.fields, k') == Lookup(fields, k'))
            && (k !in Keys(fields) ==> inner.value == Undefined))
  {
    assert ([seg] + rest)[1..] == rest;
  }
}
