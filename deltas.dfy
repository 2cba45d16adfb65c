/** The part of the rich-text delta format that a pasted table fragment uses:
    a list of insert operations, each a piece of text with a map of formatting
    attributes. Clipboard deltas hold inserts only, so retain and delete
    operations are not modelled. */
module Deltas {

  datatype Option<T> = None | Some(value: T)

  /** The JavaScript values that appear as attribute values: row and cell
      numbers, attribute strings, a missing attribute read (null) and nested
      objects such as the `table-cell` map `{ 'data-row': … }`. */
  datatype Value =
    | Null
    | Bool(b: bool)
    | Num(n: int)
    | Str(s: string)
    | Obj(fields: map<string, Value>)

  /** JavaScript truthiness of a value. */
  predicate Truthy(v: Value) {
    match v
    case Null => false
    case Bool(b) => b
    case Num(n) => n != 0
    case Str(s) => s != ""
    case Obj(_) => true
  }

  type Attributes = map<string, Value>

  /** An insert operation; an operation without attributes has the empty map. */
  datatype Op = Op(insert: string, attributes: Attributes)

  type Delta = seq<Op>

  /** The test made before an operation is touched: the key is present and
      its value is truthy. */
  predicate HasTruthy(attributes: Attributes, key: string) {
    key in attributes && Truthy(attributes[key])
  }

  /** The falsy attribute values are exactly null, false, zero and the empty
      string; every other present value passes the test. */
  lemma HasTruthyMeaning(attributes: Attributes, key: string)
    ensures HasTruthy(attributes, key) <==>
      && key in attributes
      && attributes[key] != Null && attributes[key] != Bool(false)
      && attributes[key] != Num(0) && attributes[key] != Str("")
  {
  }

  /** The logical-or of two values: the first when it is truthy, else the second. */
  function JsOr(a: Value, b: Value): Value
  {
    if Truthy(a) then a else b
  }

  /** Reading an element attribute: its text when present, null otherwise. */
  function AttributeRead(attribute: Option<string>): Value
  {
    if attribute.Some? then Str(attribute.value) else Null
  }

  /** A shallow merge of a one-entry map and the operation's attributes into
      a fresh map, the operation's entries copied last: every entry of
      `attributes` is kept, and `key` is added only where it is missing. */
  function Extend(key: string, value: Value, attributes: Attributes): (r: Attributes)
    ensures r.Keys == attributes.Keys + {key}
    ensures forall k :: k in attributes ==> r[k] == attributes[k]
    ensures key !in attributes ==> r[key] == value
  {
    map[key := value] + attributes
  }

  /** Spreading a value into a fresh object: the fields of an object; other
      values spread to nothing. */
  function Spread(v: Value): map<string, Value>
  {
    if v.Obj? then v.fields else map[]
  }

  /** Spreading a value and then setting one field keeps every other field of
      an object, and of any other value leaves only the field set. */
  lemma SpreadThenSet(v: Value, k: string, x: Value)
    ensures var m := Spread(v)[k := x];
      && k in m && m[k] == x
      && (v.Obj? ==> m.Keys == v.fields.Keys + {k})
      && (v.Obj? ==> forall f :: f in v.fields && f != k ==> m[f] == v.fields[f])
      && (!v.Obj? ==> m.Keys == {k})
  {
  }

  /** Inserting text onto the end of a delta: empty text adds nothing. */
  function InsertOp(d: Delta, text: string, attributes: Attributes): Delta
  {
    if text == "" then d else d + [Op(text, attributes)]
  }

  /** The inserted text of a delta, read left to right. */
  function Text(d: Delta): string
  {
    if d == [] then "" else Text(d[..|d| - 1]) + d[|d| - 1].insert
  }

  /** The delta's length: the sum of the lengths of its inserts, counted in
      characters. */
  function Length(d: Delta): nat
  {
    if d == [] then 0 else Length(d[..|d| - 1]) + |d[|d| - 1].insert|
  }

  /** No insert is empty; every delta built by `InsertOp` alone keeps this. */
  predicate NoEmptyInserts(d: Delta) {
    forall i :: 0 <= i < |d| ==> d[i].insert != ""
  }

  lemma TextPush(d: Delta, op: Op)
    ensures Text(d + [op]) == Text(d) + op.insert
    ensures Length(d + [op]) == Length(d) + |op.insert|
  {
    assert (d + [op])[..|d|] == d;
  }

  lemma {:induction false} TextConcat(a: Delta, b: Delta)
    ensures Text(a + b) == Text(a) + Text(b)
    ensures Length(a + b) == Length(a) + Length(b)
    decreases |b|
  {
    if b == [] {
      assert a + b == a;
    } else {
      var b' := b[..|b| - 1];
      var last := b[|b| - 1];
      assert a + b == (a + b') + [last];
      assert b == b' + [last];
      TextConcat(a, b');
      TextPush(a + b', last);
      TextPush(b', last);
    }
  }

  /** The length is the number of characters of the concatenated text. */
  lemma {:induction false} LengthIsTextSize(d: Delta)
    ensures Length(d) == |Text(d)|
    decreases |d|
  {
    if d != [] {
      LengthIsTextSize(d[..|d| - 1]);
    }
  }

  /** A delta whose length is zero has only empty inserts. */
  lemma {:induction false} ZeroLengthMeansEmptyText(d: Delta)
    requires Length(d) == 0
    ensures Text(d) == ""
    ensures forall i :: 0 <= i < |d| ==> d[i].insert == ""
  {
    LengthIsTextSize(d);
    if d != [] {
      ZeroLengthMeansEmptyText(d[..|d| - 1]);
    }
  }

  /** A delta whose operations are updated in place. */
  class MutableDelta {
    var ops: Delta

    constructor (ops: Delta)
      ensures this.ops == ops
    {
      this.ops := ops;
    }

    /** Inserting text with attributes: appends an operation unless the text is empty. */
    method Insert(text: string, attributes: Attributes)
      modifies this
      ensures ops == InsertOp(old(ops), text, attributes)
    {
      if text != "" {
        ops := ops + [Op(text, attributes)];
      }
    }
  }
}
