/** Concrete edits on small documents, including a fragment of the sample
    configuration the application starts from (src/sampleConfig.js). */
module Scenarios {
  import opened JsonValues
  import opened JsonUpdater

  /** One level of a write into an object, before the last segment. */
  lemma UpdateObjectStep(fields: seq<(string, Json)>, seg: Segment, rest: Path, value: Json)
    requires rest != []
    ensures UpdateNestedPath(Obj(fields), [seg] + rest, value)
         == match UpdateNestedPath(Field(fields, PropertyKey(seg)), rest, value)
            case Err(e) => Err(e)
            case Ok(child) => Ok(Obj(SetField(fields, PropertyKey(seg), child)))
  {
    assert ([seg] + rest)[1..] == rest;
  }

  /** A write into an object at its last segment. */
  lemma UpdateObjectLast(fields: seq<(string, Json)>, seg: Segment, value: Json)
    ensures UpdateNestedPath(Obj(fields), [seg], value) == Ok(Obj(SetField(fields, PropertyKey(seg), value)))
  {
  }

  /** { "a": [1, 2, 3] }: writing 99 at a[1] touches only that element. */
  lemma WriteIntoNestedArray()
    ensures UpdateNestedPath(Obj([("a", Arr([Num(1), Num(2), Num(3)]))]), [Key("a"), Idx(1)], Num(99))
         == Ok(Obj([("a", Arr([Num(1), Num(99), Num(3)]))]))
  {
    var items := [Num(1), Num(2), Num(3)];
    var fields := [("a", Arr(items))];
    assert Field(fields, "a") == Arr(items);
    assert UpdateNestedPath(Arr(items), [Idx(1)], Num(99)) == Ok(Arr(items[1 := Num(99)]));
    assert [Key("a"), Idx(1)][1..] == [Idx(1)];
    assert SetField(fields, "a", Arr(items[1 := Num(99)])) == [("a", Arr(items[1 := Num(99)]))];
    assert items[1 := Num(99)] == [Num(1), Num(99), Num(3)];
  }

  /** { "a": { "b": 1, "c": 2 } }: deleting a.b leaves { "a": { "c": 2 } }. */
  lemma DeleteNestedMember()
    ensures DeleteNestedPath(Obj([("a", Obj([("b", Num(1)), ("c", Num(2))]))]), [Key("a"), Key("b")])
         == Ok(Obj([("a", Obj([("c", Num(2))]))]))
  {
    var inner := [("b", Num(1)), ("c", Num(2))];
    var fields := [("a", Obj(inner))];
    assert Field(fields, "a") == Obj(inner);
    assert RemoveField(inner, "b") == [("c", Num(2))] by {
      assert inner[1..] == [("c", Num(2))];
      assert RemoveField(inner[1..][1..], "b") == [];
    }
    assert [Key("a"), Key("b")][1..] == [Key("b")];
    assert DeleteNestedPath(Obj(inner), [Key("b")]) == Ok(Obj([("c", Num(2))]));
    assert SetField(fields, "a", Obj([("c", Num(2))])) == [("a", Obj([("c", Num(2))]))];
  }

  /** A key used on an array is rejected. */
  lemma KeyOnArrayRejected(v: Json)
    ensures UpdateNestedPath(Arr([Str("a"), Str("b")]), [Key("x")], v) == Err(InvalidArrayIndex(Key("x")))
    ensures DeleteNestedPath(Arr([Str("a"), Str("b")]), [Key("x")]) == Err(InvalidArrayIndex(Key("x")))
  {
  }

  /** Changing server.port in a fragment of the sample configuration keeps
      the host and the neighbouring members. */
  lemma EditSamplePort()
    ensures UpdateNestedPath(
              Obj([("appName", Str("My Application")),
                   ("server", Obj([("host", Str("localhost")), ("port", Num(3000))]))]),
              [Key("server"), Key("port")], Num(8080))
         == Ok(Obj([("appName", Str("My Application")),
                    ("server", Obj([("host", Str("localhost")), ("port", Num(8080))]))]))
  {
    var host, port := ("host", Str("localhost")), ("port", Num(3000));
    var server := [host, port];
    var app := ("appName", Str("My Application"));
    var fields := [app, ("server", Obj(server))];
    var server' := Obj([host, ("port", Num(8080))]);
    assert Field(fields, "server") == Obj(server) by {
      assert fields == [app] + [("server", Obj(server))];
      LookupKeysCons(app, [("server", Obj(server))]);
      assert Lookup([("server", Obj(server))], "server") == Some(Obj(server));
    }
    assert SetField(server, "port", Num(8080)) == [host, ("port", Num(8080))] by {
      SetFieldPastOther(host, [port], "port", Num(8080));
      assert [port][1..] == [];
      assert SetField([port], "port", Num(8080)) == [("port", Num(8080))];
    }
    assert [Key("server"), Key("port")] == [Key("server")] + [Key("port")];
    UpdateObjectStep(fields, Key("server"), [Key("port")], Num(8080));
    UpdateObjectLast(server, Key("port"), Num(8080));
    assert SetField(fields, "server", server') == [app, ("server", server')] by {
      SetFieldPastOther(app, [("server", Obj(server))], "server", server');
      assert [("server", Obj(server))][1..] == [];
      assert SetField([("server", Obj(server))], "server", server') == [("server", server')];
    }
  }
}
