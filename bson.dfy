/**
 * The values the server stores: JSON values from request bodies plus the two
 * kinds the server itself creates (dates and ObjectIds), and the single-document
 * updates (`$set`, `$inc`) the handlers ask the store for.
 */
module Bson {
  import opened Wrappers

  /**
   * A MongoDB ObjectId. Its byte format belongs to the driver; the model only
   * needs it to be a value distinct from every string.
   */
  datatype ObjectId = ObjectId(hex: string)

  /** `new ObjectId(s)`: a constructor, so two different strings give two different ids. */
  function ToObjectId(s: string): ObjectId
  {
    ObjectId(s)
  }

  /** The instant a `new Date()` call returns, in milliseconds; chosen by the caller. */
  type Timestamp = int

  /**
   * A stored field value. Equality of two values is BSON equality: in particular
   * `VStr(s) != VOid(id)` for every `s` and `id`. Numbers are integers.
   */
  datatype Value =
    | VNull
    | VBool(b: bool)
    | VNum(n: int)
    | VStr(s: string)
    | VDate(t: Timestamp)
    | VOid(id: ObjectId)
    | VArray(items: seq<Value>)
    | VObject(members: map<string, Value>)

  /** A document: field names to values (the `_id` is kept apart, as the collection's key). */
  type Doc = map<string, Value>

  /** `doc.key` in JavaScript; `None` is `undefined`. */
  function Field(d: Doc, key: string): Option<Value>
  {
    if key in d then Some(d[key]) else None
  }

  /** JavaScript truthiness of a field read: `!x` is false exactly when this holds. */
  predicate Truthy(v: Option<Value>)
  {
    match v
    case None => false
    case Some(VNull) => false
    case Some(VBool(b)) => b
    case Some(VNum(n)) => n != 0
    case Some(VStr(s)) => s != ""
    case Some(_) => true
  }

  /**
   * A MongoDB equality filter `{field: target}` on a scalar target: the field holds
   * the target, or holds an array one of whose elements is the target.
   */
  predicate EqualityMatch(field: Option<Value>, target: Value)
  {
    match field
    case None => false
    case Some(v) => v == target || (v.VArray? && target in v.items)
  }

  /**
   * The number `$inc` starts from: 0 when the field is absent, the number when it is
   * one, and `None` when the field holds something `$inc` refuses (the store errors).
   */
  function IncBase(d: Doc, field: string): Option<int>
  {
    match Field(d, field)
    case None => Some(0)
    case Some(VNum(n)) => Some(n)
    case Some(_) => None
  }

  /** `{$inc: {field: delta}}` applied to one document; `None` when the store rejects it. */
  function Increment(d: Doc, field: string, delta: int): (r: Option<Doc>)
    ensures r.Some? <==> IncBase(d, field).Some?
    ensures r.Some? ==> Field(r.value, field) == Some(VNum(IncBase(d, field).value + delta))
    ensures r.Some? ==> IncBase(r.value, field) == Some(IncBase(d, field).value + delta)
    ensures r.Some? ==> forall k :: k != field ==> Field(r.value, k) == Field(d, k)
  {
    match IncBase(d, field)
    case None => None
    case Some(n) => Some(d[field := VNum(n + delta)])
  }

  /** `{$set: upd}` applied to one document. */
  function SetFields(d: Doc, upd: Doc): (r: Doc)
    ensures forall k :: Field(r, k) == if k in upd then Some(upd[k]) else Field(d, k)
    ensures r.Keys == d.Keys + upd.Keys
  {
    d + upd
  }
}
