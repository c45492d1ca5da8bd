/** The object graph JSROOT.parse produces and JSROOT.toJSON consumes. Object
    identity is an index: `VRef(k)` is the k-th object of the object table (or of
    the heap handed to the encoder). Objects that the decoder never registers are
    not shared with anything, so they are kept inline as `VRec`. */
module Graph {
  import opened Json
  import opened TypedArrays

  datatype Val =
    | VUndef                                   // `undefined`, also a hole of a sparse array
    | VNull
    | VBool(b: bool)
    | VNum(n: int)
    | VStr(s: string)
    | VFunc(id: nat)                           // a function-valued property, e.g. an attached method
    | VArr(items: seq<Val>)                    // a plain Array
    | VBuf(kind: ElemKind, cells: seq<int>)    // a typed array, element view
    | VBytes(kind: ElemKind, bytes: seq<byte>)  // a typed array filled through its byte buffer
    | VRec(fields: seq<Field>)                 // an object outside the object table
    | VRef(id: nat)                            // the object with this table index

  datatype Field = Field(name: string, val: Val)

  /** The members of one object, in key order. */
  datatype Obj = Obj(fields: seq<Field>)

  function Names(fs: seq<Field>): seq<string> {
    seq(|fs|, i requires 0 <= i < |fs| => fs[i].name)
  }

  /** A JSON value as JavaScript holds it before (or without) any decoding. */
  function Embed(j: Json): Val {
    match j
    case JNull => VNull
    case JBool(b) => VBool(b)
    case JNum(n) => VNum(n)
    case JStr(s) => VStr(s)
    case JArr(items) => VArr(seq(|items|, i requires 0 <= i < |items| => Embed(items[i])))
    case JObj(ms) => VRec(seq(|ms|, i requires 0 <= i < |ms| => Field(ms[i].key, Embed(ms[i].value))))
  }

  /** The table indices a value refers to. */
  function Refs(v: Val): set<nat>
    decreases v, 1
  {
    match v
    case VRef(k) => {k}
    case VArr(items) => ItemRefs(items)
    case VRec(fs) => FieldRefs(fs)
    case _ => {}
  }

  function ItemRefs(items: seq<Val>): set<nat>
    decreases items, 0
  {
    if items == [] then {} else Refs(items[0]) + ItemRefs(items[1..])
  }

  function FieldRefs(fs: seq<Field>): set<nat>
    decreases fs, 0
  {
    if fs == [] then {} else Refs(fs[0].val) + FieldRefs(fs[1..])
  }

  predicate Below(s: set<nat>, n: nat) {
    forall x | x in s :: x < n
  }

  /** A JSON value as JavaScript holds it refers to no table entry. */
  lemma {:induction false} EmbedHasNoRefs(j: Json)
    ensures Refs(Embed(j)) == {}
    decreases j, 1
  {
    match j
    case JArr(items) =>
      EmbedItemsHaveNoRefs(items, Embed(j).items);
    case JObj(ms) =>
      EmbedMembersHaveNoRefs(ms, Embed(j).fields);
    case _ =>
  }

  lemma {:induction false} EmbedItemsHaveNoRefs(items: seq<Json>, vs: seq<Val>)
    requires |vs| == |items| && forall i :: 0 <= i < |items| ==> vs[i] == Embed(items[i])
    ensures ItemRefs(vs) == {}
    decreases items, 0
  {
    if items != [] {
      EmbedHasNoRefs(items[0]);
      EmbedItemsHaveNoRefs(items[1..], vs[1..]);
    }
  }

  lemma {:induction false} EmbedMembersHaveNoRefs(ms: seq<Member>, fs: seq<Field>)
    requires |fs| == |ms| && forall i :: 0 <= i < |ms| ==> fs[i] == Field(ms[i].key, Embed(ms[i].value))
    ensures FieldRefs(fs) == {}
    decreases ms, 0
  {
    if ms != [] {
      EmbedHasNoRefs(ms[0].value);
      EmbedMembersHaveNoRefs(ms[1..], fs[1..]);
    }
  }
}
