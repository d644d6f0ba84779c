/** Laws that relate the engine's operations to one another: reading back
    what was written, writes leaving other paths alone, exactly when the
    engine fails, and that object keys stay unique. */
module PathLaws {
  import opened JsonValues
  import opened JsonUpdater

  // -----------------------------------------------------------------------
  // Reading along a path

  /** Reading along p and then along q is reading along p + q. */
  lemma {:induction false} ValueAtConcat(root: Json, p: Path, q: Path)
    ensures ValueAt(root, p + q) == ValueAt(ValueAt(root, p), q)
    decreases p
  {
    if p == [] {
      assert p + q == q;
    } else if !root.Null? && !root.Undefined? {
      assert (p + q)[1..] == p[1..] + q;
      ValueAtConcat(Property(root, p[0]), p[1..], q);
    }
  }

  /** Once the walk meets null or undefined, every longer path reads as undefined. */
  lemma ValueAtPastNull(root: Json, p: Path, q: Path)
    requires ValueAt(root, p).Null? || ValueAt(root, p).Undefined?
    requires q != []
    ensures ValueAt(root, p + q) == Undefined
  {
    ValueAtConcat(root, p, q);
  }

  /** Stepping into root by s and reading rest[..j] is reading ([s] + rest)[..j + 1]. */
  lemma ValueAtCons(root: Json, s: Segment, rest: Path, j: nat)
    requires !root.Null? && !root.Undefined?
    requires j <= |rest|
    ensures ValueAt(root, ([s] + rest)[..j + 1]) == ValueAt(Property(root, s), rest[..j])
  {
    var p := ([s] + rest)[..j + 1];
    assert p == [s] + rest[..j];
    assert p[1..] == rest[..j];
  }

  // -----------------------------------------------------------------------
  // Paths the engine can follow

  /** Every proper prefix of path addresses a container that the next
      segment can step into: an object, or an array with an index segment. */
  ghost predicate Addressable(root: Json, path: Path) {
    forall j :: 0 <= j < |path| ==> Enterable(ValueAt(root, path[..j]), path[j])
  }

  lemma AddressableCons(root: Json, s: Segment, rest: Path)
    ensures Addressable(root, [s] + rest) <==> Enterable(root, s) && Addressable(Property(root, s), rest)
  {
    var p := [s] + rest;
    assert p[..0] == [];
    if Enterable(root, s) {
      forall j | 0 <= j < |rest|
        ensures Enterable(ValueAt(root, p[..j + 1]), p[j + 1]) <==> Enterable(ValueAt(Property(root, s), rest[..j]), rest[j])
      {
        ValueAtCons(root, s, rest, j);
      }
      if Addressable(Property(root, s), rest) {
        forall j | 0 <= j < |p| ensures Enterable(ValueAt(root, p[..j]), p[j]) {
          if j > 0 {
            assert Enterable(ValueAt(Property(root, s), rest[..j - 1]), rest[j - 1]);
          }
        }
      }
      if Addressable(root, p) {
        forall j | 0 <= j < |rest| ensures Enterable(ValueAt(Property(root, s), rest[..j]), rest[j]) {
          assert Enterable(ValueAt(root, p[..j + 1]), p[j + 1]);
        }
      }
    }
  }

  /** One level of a write: stepping into the written property of the new
      container gives the value, or the child's own updated value. */
  lemma PropertyAfterUpdate(root: Json, s: Segment, rest: Path, value: Json)
    requires Enterable(root, s)
    requires rest == [] || UpdateNestedPath(Property(root, s), rest, value).Ok?
    ensures UpdateNestedPath(root, [s] + rest, value).Ok?
    ensures Property(UpdateNestedPath(root, [s] + rest, value).value, s)
         == if rest == [] then value else UpdateNestedPath(Property(root, s), rest, value).value
  {
    assert ([s] + rest)[1..] == rest;
  }

  /** Read-after-write: along an addressable path, the write succeeds and
      reading the path back gives the value written. */
  lemma {:induction false} ReadAfterWrite(root: Json, path: Path, value: Json)
    requires Addressable(root, path)
    ensures UpdateNestedPath(root, path, value).Ok?
    ensures ValueAt(UpdateNestedPath(root, path, value).value, path) == value
    decreases path
  {
    if path != [] {
      var s, rest := path[0], path[1..];
      assert path == [s] + rest;
      AddressableCons(root, s, rest);
      if rest != [] {
        ReadAfterWrite(Property(root, s), rest, value);
      }
      PropertyAfterUpdate(root, s, rest, value);
    }
  }

  /** A missing key before the end of the path is not created as a nested
      object: the new member is the value itself. */
  lemma MissingIntermediateKey(fields: seq<(string, Json)>, seg: Segment, rest: Path, value: Json)
    requires PropertyKey(seg) !in Keys(fields)
    requires rest != []
    ensures UpdateNestedPath(Obj(fields), [seg] + rest, value) == Ok(Obj(fields + [(PropertyKey(seg), value)]))
  {
    assert ([seg] + rest)[1..] == rest;
    SetFieldAppends(fields, PropertyKey(seg), value);
  }

  // -----------------------------------------------------------------------
  // Non-interference

  /** p1 and p2 share a prefix and then name different properties. */
  predicate Diverge(p1: Path, p2: Path)
    decreases |p1|
  {
    && p1 != [] && p2 != []
    && (PropertyKey(p1[0]) != PropertyKey(p2[0]) || (p1[0] == p2[0] && Diverge(p1[1..], p2[1..])))
  }

  /** A write along an addressable path leaves every diverging path reading
      as before. */
  lemma {:induction false} NonInterference(root: Json, p1: Path, p2: Path, value: Json)
    requires Addressable(root, p1)
    requires Diverge(p1, p2)
    ensures UpdateNestedPath(root, p1, value).Ok?
    ensures ValueAt(UpdateNestedPath(root, p1, value).value, p2) == ValueAt(root, p2)
    decreases p1
  {
    ReadAfterWrite(root, p1, value);
    var s, rest := p1[0], p1[1..];
    assert p1 == [s] + rest;
    AddressableCons(root, s, rest);
    var r := UpdateNestedPath(root, p1, value).value;
    if PropertyKey(s) != PropertyKey(p2[0]) {
      match root
      case Arr(items) =>
        var child := if rest == [] then value else UpdateNestedPath(At(items, s.index), rest, value).value;
        assert r == Arr(Put(items, s.index, child));
        if p2[0].Idx? {
          assert p2[0].index != s.index;
          assert At(Put(items, s.index, child), p2[0].index) == At(items, p2[0].index);
        }
        assert Property(r, p2[0]) == Property(root, p2[0]);
      case Obj(fields) =>
        assert Property(r, p2[0]) == Property(root, p2[0]);
    } else {
      NonInterference(Property(root, s), rest, p2[1..], value);
    }
  }

  // -----------------------------------------------------------------------
  // When the engine fails

  /** Segment k of path is a key used on an array, and every earlier step
      went into a container. */
  ghost predicate BadIndexAt(root: Json, path: Path, k: nat) {
    && k < |path|
    && path[k].Key?
    && ValueAt(root, path[..k]).Arr?
    && forall j :: 0 <= j < k ==> Enterable(ValueAt(root, path[..j]), path[j])
  }

  lemma BadIndexCons(root: Json, s: Segment, rest: Path, k: nat)
    requires Enterable(root, s)
    ensures BadIndexAt(root, [s] + rest, k + 1) <==> BadIndexAt(Property(root, s), rest, k)
  {
    var p := [s] + rest;
    assert p[..0] == [];
    if k < |rest| {
      ValueAtCons(root, s, rest, k);
      forall j | 0 <= j < k
        ensures Enterable(ValueAt(root, p[..j + 1]), p[j + 1]) <==> Enterable(ValueAt(Property(root, s), rest[..j]), rest[j])
      {
        ValueAtCons(root, s, rest, j);
      }
      if BadIndexAt(Property(root, s), rest, k) {
        forall j | 0 <= j < k + 1 ensures Enterable(ValueAt(root, p[..j]), p[j]) {
          if j > 0 {
            assert Enterable(ValueAt(Property(root, s), rest[..j - 1]), rest[j - 1]);
          }
        }
      }
      if BadIndexAt(root, p, k + 1) {
        forall j | 0 <= j < k ensures Enterable(ValueAt(Property(root, s), rest[..j]), rest[j]) {
          assert Enterable(ValueAt(root, p[..j + 1]), p[j + 1]);
        }
      }
    }
  }

  /** Before the first step, no later segment can be bad unless the root is a container. */
  lemma BadIndexNeedsEnterable(root: Json, path: Path, k: nat)
    requires BadIndexAt(root, path, k)
    ensures k == 0 ==> root.Arr? && path[0].Key?
    ensures k > 0 ==> Enterable(root, path[0])
  {
    assert path[..0] == [];
  }

  /** An update raises InvalidArrayIndex, naming the offending segment,
      when some segment is a key used on an array. */
  lemma {:induction false} UpdateFailsAt(root: Json, path: Path, value: Json, k: nat)
    requires BadIndexAt(root, path, k)
    ensures UpdateNestedPath(root, path, value) == Err(InvalidArrayIndex(path[k]))
    decreases path
  {
    BadIndexNeedsEnterable(root, path, k);
    if k > 0 {
      var s, rest := path[0], path[1..];
      assert path == [s] + rest;
      BadIndexCons(root, s, rest, k - 1);
      UpdateFailsAt(Property(root, s), rest, value, k - 1);
    }
  }

  /** Otherwise the update succeeds. */
  lemma {:induction false} UpdateSucceeds(root: Json, path: Path, value: Json)
    requires forall k: nat :: !BadIndexAt(root, path, k)
    ensures UpdateNestedPath(root, path, value).Ok?
    decreases path
  {
    if path != [] && !IsLeaf(root) {
      var s, rest := path[0], path[1..];
      assert path == [s] + rest;
      assert path[..0] == [];
      assert !BadIndexAt(root, path, 0);
      if rest != [] {
        forall k: nat ensures !BadIndexAt(Property(root, s), rest, k) {
          BadIndexCons(root, s, rest, k);
        }
        UpdateSucceeds(Property(root, s), rest, value);
      }
    }
  }

  /** A delete raises InvalidArrayIndex under exactly the same condition. */
  lemma {:induction false} DeleteFailsAt(root: Json, path: Path, k: nat)
    requires BadIndexAt(root, path, k)
    ensures DeleteNestedPath(root, path) == Err(InvalidArrayIndex(path[k]))
    decreases path
  {
    BadIndexNeedsEnterable(root, path, k);
    if k > 0 {
      var s, rest := path[0], path[1..];
      assert path == [s] + rest;
      BadIndexCons(root, s, rest, k - 1);
      DeleteFailsAt(Property(root, s), rest, k - 1);
    }
  }

  lemma {:induction false} DeleteSucceeds(root: Json, path: Path)
    requires forall k: nat :: !BadIndexAt(root, path, k)
    ensures DeleteNestedPath(root, path).Ok?
    decreases path
  {
    if path != [] && !IsLeaf(root) {
      var s, rest := path[0], path[1..];
      assert path == [s] + rest;
      assert path[..0] == [];
      assert !BadIndexAt(root, path, 0);
      if rest != [] {
        forall k: nat ensures !BadIndexAt(Property(root, s), rest, k) {
          BadIndexCons(root, s, rest, k);
        }
        DeleteSucceeds(Property(root, s), rest);
      }
    }
  }

  // -----------------------------------------------------------------------
  // Delete then read

  /** Deleting an object member along an addressable path: the path then
      reads as undefined. */
  lemma {:induction false} DeleteThenAbsent(root: Json, path: Path)
    requires path != [] && Addressable(root, path)
    requires ValueAt(root, path[..|path| - 1]).Obj?
    ensures DeleteNestedPath(root, path).Ok?
    ensures ValueAt(DeleteNestedPath(root, path).value, path) == Undefined
    decreases path
  {
    var s, rest := path[0], path[1..];
    assert path == [s] + rest;
    AddressableCons(root, s, rest);
    if rest == [] {
      assert path[..0] == [];
    } else {
      ValueAtCons(root, s, rest, |rest| - 1);
      assert path[..|path| - 1] == ([s] + rest)[..|rest| - 1 + 1];
      DeleteThenAbsent(Property(root, s), rest);
    }
  }

  /** Deleting an array element does not leave the index empty: the next
      element moves into it. */
  lemma DeleteShiftsNextElement(items: seq<Json>, i: nat)
    requires i + 1 < |items|
    ensures DeleteNestedPath(Arr(items), [Idx(i)]).Ok?
    ensures ValueAt(DeleteNestedPath(Arr(items), [Idx(i)]).value, [Idx(i)]) == items[i + 1]
  {
  }

  // -----------------------------------------------------------------------
  // Unique keys are preserved

  lemma PutKeepsWellFormed(items: seq<Json>, i: nat, v: Json)
    requires forall j :: 0 <= j < |items| ==> WellFormed(items[j])
    requires WellFormed(v)
    ensures forall j :: 0 <= j < |Put(items, i, v)| ==> WellFormed(Put(items, i, v)[j])
  {
    var r := Put(items, i, v);
    forall j | 0 <= j < |r| ensures WellFormed(r[j]) {
      if j != i {
        assert r[j] == At(items, j);
      }
    }
  }

  /** Writing a well-formed value into a well-formed tree gives a
      well-formed tree. */
  lemma {:induction false} UpdateKeepsWellFormed(root: Json, path: Path, value: Json)
    requires WellFormed(root) && WellFormed(value)
    requires UpdateNestedPath(root, path, value).Ok?
    ensures WellFormed(UpdateNestedPath(root, path, value).value)
    decreases path
  {
    if path != [] && !IsLeaf(root) {
      var s, rest := path[0], path[1..];
      match root
      case Arr(items) =>
        var i := s.index;
        var child := if rest == [] then value else UpdateNestedPath(At(items, i), rest, value).value;
        if rest != [] {
          UpdateKeepsWellFormed(At(items, i), rest, value);
        }
        PutKeepsWellFormed(items, i, child);
      case Obj(fields) =>
        var k := PropertyKey(s);
        var child := if rest == [] then value else UpdateNestedPath(Field(fields, k), rest, value).value;
        if rest != [] {
          FieldWellFormed(fields, k);
          UpdateKeepsWellFormed(Field(fields, k), rest, value);
        }
        SetFieldKeepsKeysUnique(fields, k, child);
        SetFieldKeepsValuesWellFormed(fields, k, child);
    }
  }

  /** A successful delete from a well-formed tree gives a well-formed tree. */
  lemma {:induction false} DeleteKeepsWellFormed(root: Json, path: Path)
    requires WellFormed(root)
    ensures DeleteNestedPath(root, path).Ok? ==> WellFormed(DeleteNestedPath(root, path).value)
    decreases path
  {
    if path != [] && !IsLeaf(root) && DeleteNestedPath(root, path).Ok? {
      var s, rest := path[0], path[1..];
      match root
      case Arr(items) =>
        var i := s.index;
        if rest != [] {
          DeleteKeepsWellFormed(At(items, i), rest);
          PutKeepsWellFormed(items, i, DeleteNestedPath(At(items, i), rest).value);
        }
      case Obj(fields) =>
        var k := PropertyKey(s);
        if rest == [] {
          RemoveFieldKeepsKeysUnique(fields, k);
          RemoveFieldKeepsValuesWellFormed(fields, k);
        } else {
          var child := DeleteNestedPath(Field(fields, k), rest).value;
          FieldWellFormed(fields, k);
          DeleteKeepsWellFormed(Field(fields, k), rest);
          SetFieldKeepsKeysUnique(fields, k, child);
          SetFieldKeepsValuesWellFormed(fields, k, child);
        }
    }
  }
}
