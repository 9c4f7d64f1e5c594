/**
 * The slice of JavaScript's value model that the handlers observe:
 * truthiness, strict equality, property reads that yield `undefined`,
 * and plain objects. Stored documents, request bodies, the form and the
 * list entries are all objects, written here as maps from field name to value.
 */
module JsValues {
  import opened Wrappers
  import opened Hex

  datatype JsValue =
    | Undefined
    | Null
    | Bool(b: bool)
    | Num(x: real)
    | Str(s: string)
    | Oid(bytes: seq<Byte>)            // a MongoDB ObjectId, by its 12 bytes
    | Obj(fields: map<string, JsValue>)

  type Doc = map<string, JsValue>

  /** JavaScript's `!!v`. */
  predicate Truthy(v: JsValue)
    ensures v == Undefined || v == Null ==> !Truthy(v)
    ensures v.Str? ==> (Truthy(v) <==> v.s != "")
    ensures v.Obj? || v.Oid? ==> Truthy(v)
  {
    match v
    case Undefined => false
    case Null => false
    case Bool(b) => b
    case Num(x) => x != 0.0
    case Str(s) => s != ""
    case Oid(_) => true
    case Obj(_) => true
  }

  /** `d.key`: a missing field reads as undefined. */
  function Get(d: Doc, key: string): (r: JsValue)
    ensures key !in d ==> r == Undefined
    ensures key in d ==> r == d[key]
  {
    if key in d then d[key] else Undefined
  }

  /** `v.key` on any value: only objects carry the fields asked for here. */
  function Member(v: JsValue, key: string): (r: JsValue)
    ensures !v.Obj? ==> r == Undefined
  {
    if v.Obj? then Get(v.fields, key) else Undefined
  }

  /**
   * The index of the first document whose `key` field is strictly equal
   * to `value`, the element `Array.prototype.find` and MongoDB's
   * `deleteOne` pick.
   */
  function FirstIndex(docs: seq<Doc>, key: string, value: JsValue): (r: Option<nat>)
    ensures r.Some? ==> r.value < |docs| && Get(docs[r.value], key) == value
    ensures r.Some? ==> forall j :: 0 <= j < r.value ==> Get(docs[j], key) != value
    ensures r.None? <==> forall j :: 0 <= j < |docs| ==> Get(docs[j], key) != value
  {
    if docs == [] then None
    else if Get(docs[0], key) == value then Some(0)
    else match FirstIndex(docs[1..], key, value)
      case Some(k) => Some(k + 1)
      case None => None
  }
}
