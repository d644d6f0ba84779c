/** The runtime type classifier (typeInference.js). */
module TypeInference {
  import opened JsonValues

  /** The six kinds inferType can report. */
  datatype Kind = NullKind | ArrayKind | ObjectKind | StringKind | NumberKind | BooleanKind

  /** The name inferType returns for each kind. */
  function KindName(k: Kind): (name: string)
    ensures name in ["null", "array", "object", "string", "number", "boolean"]
  {
    match k
    case NullKind => "null"
    case ArrayKind => "array"
    case ObjectKind => "object"
    case StringKind => "string"
    case NumberKind => "number"
    case BooleanKind => "boolean"
  }

  /** inferType: null and undefined are both 'null'; arrays are recognised
      before the generic object test; everything else reports its typeof. */
  function InferType(v: Json): (k: Kind)
    ensures k == NullKind <==> v.Null? || v.Undefined?
    ensures k == ArrayKind <==> v.Arr?
    ensures k == ObjectKind <==> v.Obj?
    ensures k == StringKind <==> v.Str?
    ensures k == NumberKind <==> v.Num?
    ensures k == BooleanKind <==> v.Bool?
  {
    if v.Null? || v.Undefined? then NullKind
    else if v.Arr? then ArrayKind
    else if v.Obj? then ObjectKind
    else if v.Str? then StringKind
    else if v.Num? then NumberKind
    else BooleanKind
  }

  /** isPrimitive: the inferred name is one of the four primitive names. */
  function IsPrimitive(v: Json): (b: bool)
    ensures b <==> v.Null? || v.Undefined? || v.Bool? || v.Num? || v.Str?
  {
    KindName(InferType(v)) in ["string", "number", "boolean", "null"]
  }

  /** isComplex: the inferred name is 'object' or 'array'. */
  function IsComplex(v: Json): (b: bool)
    ensures b <==> v.Arr? || v.Obj?
  {
    KindName(InferType(v)) in ["object", "array"]
  }

  /** Distinct kinds have distinct names. */
  lemma KindNameInjective(k1: Kind, k2: Kind)
    ensures KindName(k1) == KindName(k2) ==> k1 == k2
  {
  }

  /** The two groups split the kinds: every value is in exactly one. */
  lemma PrimitiveOrComplex(v: Json)
    ensures IsPrimitive(v) != IsComplex(v)
  {
  }
}
