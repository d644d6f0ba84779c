/** The JSON-like values the editor works on, path segments, and the
    JavaScript property access (`v[seg]`) the path operations use. */
module JsonValues {
  import opened Decimal

  datatype Option<T> = None | Some(value: T)

  /** A JavaScript value as the editor sees it. Numbers are integers here;
      an object keeps its members in insertion order. */
  datatype Json =
    | Null
    | Undefined
    | Bool(b: bool)
    | Num(n: int)
    | Str(s: string)
    | Arr(items: seq<Json>)
    | Obj(fields: seq<(string, Json)>)

  /** One step of a path: an object key or an array index. */
  datatype Segment = Key(name: string) | Idx(index: nat)

  type Path = seq<Segment>

  /** The property name JavaScript uses for a segment: numbers are
      converted to their decimal text. */
  function PropertyKey(seg: Segment): (k: string)
    ensures seg.Key? ==> k == seg.name
    ensures seg.Idx? ==> k != [] && AllDigits(k) && DigitsValue(k) == seg.index
  {
    match seg
    case Key(k) => k
    case Idx(n) => DigitsValueOfNatToString(n); NatToString(n)
  }

  // ---------------------------------------------------------------------
  // Objects as ordered member lists

  function Keys(fields: seq<(string, Json)>): (ks: seq<string>)
    ensures |ks| == |fields|
    ensures forall i :: 0 <= i < |fields| ==> ks[i] == fields[i].0
  {
    if fields == [] then [] else [fields[0].0] + Keys(fields[1..])
  }

  /** The value of the first member named k. */
  function Lookup(fields: seq<(string, Json)>, k: string): (r: Option<Json>)
    ensures r.None? <==> k !in Keys(fields)
  {
    if fields == [] then None
    else if fields[0].0 == k then Some(fields[0].1)
    else Lookup(fields[1..], k)
  }

  /** `obj[k]`: the member's value, or undefined when there is none. */
  function Field(fields: seq<(string, Json)>, k: string): (r: Json)
    ensures k !in Keys(fields) ==> r == Undefined
  {
    match Lookup(fields, k)
    case Some(v) => v
    case None => Undefined
  }

  /** The value `obj[k]` finds for a key present in the object is the value
      of one of its members named k. */
  lemma {:induction false} LookupIsMember(fields: seq<(string, Json)>, k: string)
    ensures k in Keys(fields) ==> (k, Field(fields, k)) in fields
    decreases |fields|
  {
    if fields != [] && fields[0].0 != k {
      LookupIsMember(fields[1..], k);
    }
  }

  /** `obj[k] = v` on a copy: overwrites the member in its place, or
      appends a new member after all existing ones. */
  function SetField(fields: seq<(string, Json)>, k: string, v: Json): (r: seq<(string, Json)>)
    ensures Lookup(r, k) == Some(v)
    ensures forall k' :: k' != k ==> Lookup(r, k') == Lookup(fields, k')
    ensures Keys(r) == if k in Keys(fields) then Keys(fields) else Keys(fields) + [k]
  {
    if fields == [] then [(k, v)]
    else
      assert fields == [fields[0]] + fields[1..];
      LookupKeysCons(fields[0], fields[1..]);
      if fields[0].0 == k then
        LookupKeysCons((k, v), fields[1..]);
        [(k, v)] + fields[1..]
      else
        var rest := SetField(fields[1..], k, v);
        LookupKeysCons(fields[0], rest);
        PrependOtherKey(fields[0].0, Keys(fields[1..]), k);
        [fields[0]] + rest
  }

  /** Prepending a key other than k changes neither whether k is present nor
      where an appended k goes. */
  lemma PrependOtherKey(a: string, ks: seq<string>, k: string)
    requires a != k
    ensures k in [a] + ks <==> k in ks
    ensures [a] + (ks + [k]) == [a] + ks + [k]
  {
  }

  /** Lookup and Keys of a member list that starts with x. */
  lemma LookupKeysCons(x: (string, Json), rest: seq<(string, Json)>)
    ensures forall k' :: Lookup([x] + rest, k') == if x.0 == k' then Some(x.1) else Lookup(rest, k')
    ensures Keys([x] + rest) == [x.0] + Keys(rest)
  {
    assert ([x] + rest)[1..] == rest;
  }

  /** The key sequence with every k removed. */
  function Without(ks: seq<string>, k: string): (r: seq<string>)
    ensures k !in r
    ensures forall k' :: k' != k ==> (k' in r <==> k' in ks)
  {
    if ks == [] then []
    else if ks[0] == k then Without(ks[1..], k)
    else [ks[0]] + Without(ks[1..], k)
  }

  /** `delete obj[k]` on a copy: the member is gone, the rest keep their order. */
  function RemoveField(fields: seq<(string, Json)>, k: string): (r: seq<(string, Json)>)
    ensures Lookup(r, k) == None
    ensures forall k' :: k' != k ==> Lookup(r, k') == Lookup(fields, k')
    ensures Keys(r) == Without(Keys(fields), k)
  {
    if fields == [] then []
    else if fields[0].0 == k then RemoveField(fields[1..], k)
    else [fields[0]] + RemoveField(fields[1..], k)
  }

  // ---------------------------------------------------------------------
  // Arrays

  /** `arr[i]`: the element, or undefined past the end. */
  function At(items: seq<Json>, i: nat): (r: Json)
    ensures i < |items| ==> r == items[i]
    ensures i >= |items| ==> r == Undefined
  {
    if i < |items| then items[i] else Undefined
  }

  /** `copy[i] = v` on a copy of the array. Writing past the end grows the
      array to length i + 1; the gap reads as undefined. */
  function Put(items: seq<Json>, i: nat, v: Json): (r: seq<Json>)
    ensures |r| == if i < |items| then |items| else i + 1
    ensures r[i] == v
    ensures forall j :: 0 <= j < |r| && j != i ==> r[j] == At(items, j)
  {
    if i < |items| then items[i := v]
    else items + seq(i - |items|, _ => Undefined) + [v]
  }

  /** `copy.splice(i, 1)`: removes element i; an index past the end removes nothing. */
  function Splice(items: seq<Json>, i: nat): (r: seq<Json>)
    ensures i < |items| ==> |r| == |items| - 1
    ensures i < |items| ==> forall j :: 0 <= j < i ==> r[j] == items[j]
    ensures i < |items| ==> forall j :: i <= j < |r| ==> r[j] == items[j + 1]
    ensures i >= |items| ==> r == items
  {
    if i < |items| then items[..i] + items[i + 1..] else items
  }

  // ---------------------------------------------------------------------
  // Property access

  /** `v[seg]` for a value v that is neither null nor undefined. A key on an
      array and any segment on a primitive read as undefined. */
  function Property(v: Json, seg: Segment): (r: Json)
    ensures !Enterable(v, seg) ==> r == Undefined
    ensures v.Arr? && seg.Idx? && seg.index < |v.items| ==> r == v.items[seg.index]
    ensures v.Obj? && PropertyKey(seg) !in Keys(v.fields) ==> r == Undefined
  {
    match v
    case Arr(items) => if seg.Idx? then At(items, seg.index) else Undefined
    case Obj(fields) => Field(fields, PropertyKey(seg))
    case _ => Undefined
  }

  /** A container the segment can step into: any object, or an array
      addressed by an index. */
  predicate Enterable(v: Json, seg: Segment) {
    v.Obj? || (v.Arr? && seg.Idx?)
  }

  // ---------------------------------------------------------------------
  // Well-formedness: keys of every object are unique, as in JavaScript

  predicate UniqueKeys(fields: seq<(string, Json)>) {
    forall i, j :: 0 <= i < j < |fields| ==> fields[i].0 != fields[j].0
  }

  predicate WellFormed(v: Json)
    decreases v
  {
    match v
    case Arr(items) => forall i :: 0 <= i < |items| ==> WellFormed(items[i])
    case Obj(fields) =>
      UniqueKeys(fields) && forall i :: 0 <= i < |fields| ==> WellFormed(fields[i].1)
    case _ => true
  }

  /** Overwriting or appending a member keeps the keys unique. */
  lemma SetFieldKeepsKeysUnique(fields: seq<(string, Json)>, k: string, v: Json)
    requires UniqueKeys(fields)
    ensures UniqueKeys(SetField(fields, k, v))
  {
    var r := SetField(fields, k, v);
    forall i, j | 0 <= i < j < |r| ensures r[i].0 != r[j].0 {
      assert Keys(r)[i] == r[i].0 && Keys(r)[j] == r[j].0;
      if j < |fields| {
        assert Keys(fields)[i] == fields[i].0 && Keys(fields)[j] == fields[j].0;
      } else {
        assert Keys(fields)[i] == fields[i].0;
      }
    }
  }

  /** Writing a key other than the first member's leaves that member first. */
  lemma SetFieldPastOther(x: (string, Json), tail: seq<(string, Json)>, k: string, v: Json)
    requires x.0 != k
    ensures SetField([x] + tail, k, v) == [x] + SetField(tail, k, v)
  {
    assert ([x] + tail)[1..] == tail;
  }

  lemma AppendAfterCons<T>(x: T, tail: seq<T>, y: T)
    ensures [x] + (tail + [y]) == [x] + tail + [y]
  {
  }

  /** A missing key is appended after every existing member. */
  lemma {:induction false} SetFieldAppends(fields: seq<(string, Json)>, k: string, v: Json)
    requires Lookup(fields, k).None?
    ensures SetField(fields, k, v) == fields + [(k, v)]
  {
    if fields != [] {
      var x, tail := fields[0], fields[1..];
      assert fields == [x] + tail;
      LookupKeysCons(x, tail);
      SetFieldAppends(tail, k, v);
      SetFieldPastOther(x, tail, k, v);
      AppendAfterCons(x, tail, (k, v));
    }
  }

  /** Overwriting or appending a well-formed member keeps every member well-formed. */
  lemma {:induction false} SetFieldKeepsValuesWellFormed(fields: seq<(string, Json)>, k: string, v: Json)
    requires forall i :: 0 <= i < |fields| ==> WellFormed(fields[i].1)
    requires WellFormed(v)
    ensures forall i :: 0 <= i < |SetField(fields, k, v)| ==> WellFormed(SetField(fields, k, v)[i].1)
  {
    var r := SetField(fields, k, v);
    if fields == [] {
      assert r == [(k, v)];
    } else if fields[0].0 == k {
      assert r == [(k, v)] + fields[1..];
      forall i | 0 <= i < |r| ensures WellFormed(r[i].1) {
        if i > 0 { assert r[i] == fields[i]; }
      }
    } else {
      var rest := SetField(fields[1..], k, v);
      SetFieldKeepsValuesWellFormed(fields[1..], k, v);
      assert r == [fields[0]] + rest;
      forall i | 0 <= i < |r| ensures WellFormed(r[i].1) {
        if i > 0 { assert r[i] == rest[i - 1]; }
      }
    }
  }

  /** Removing a member keeps the keys unique. */
  lemma {:induction false} RemoveFieldKeepsKeysUnique(fields: seq<(string, Json)>, k: string)
    requires UniqueKeys(fields)
    ensures UniqueKeys(RemoveField(fields, k))
  {
    if fields != [] {
      RemoveFieldKeepsKeysUnique(fields[1..], k);
      if fields[0].0 != k {
        var rest := RemoveField(fields[1..], k);
        var r := [fields[0]] + rest;
        assert r == RemoveField(fields, k);
        forall j | 0 <= j < |Keys(fields[1..])| ensures Keys(fields[1..])[j] != fields[0].0 {
          assert Keys(fields[1..])[j] == fields[j + 1].0;
        }
        assert fields[0].0 !in Keys(rest);
        forall i, j | 0 <= i < j < |r| ensures r[i].0 != r[j].0 {
          if i == 0 {
            assert r[j].0 == Keys(rest)[j - 1];
          }
        }
      }
    }
  }

  /** Removing a member keeps every remaining member well-formed. */
  lemma {:induction false} RemoveFieldKeepsValuesWellFormed(fields: seq<(string, Json)>, k: string)
    requires forall i :: 0 <= i < |fields| ==> WellFormed(fields[i].1)
    ensures forall i :: 0 <= i < |RemoveField(fields, k)| ==> WellFormed(RemoveField(fields, k)[i].1)
  {
    if fields != [] {
      var rest := RemoveField(fields[1..], k);
      RemoveFieldKeepsValuesWellFormed(fields[1..], k);
      if fields[0].0 != k {
        var r := [fields[0]] + rest;
        assert r == RemoveField(fields, k);
        forall i | 0 <= i < |r| ensures WellFormed(r[i].1) {
          if i > 0 { assert r[i] == rest[i - 1]; }
        }
      }
    }
  }

  /** A member of well-formed members is well-formed. */
  lemma {:induction false} FieldWellFormed(fields: seq<(string, Json)>, k: string)
    requires forall i :: 0 <= i < |fields| ==> WellFormed(fields[i].1)
    ensures WellFormed(Field(fields, k))
  {
    if fields != [] && fields[0].0 != k {
      FieldWellFormed(fields[1..], k);
    }
  }
}
