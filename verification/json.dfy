/** JSON documents as JSON.parse hands them to the decoder: objects keep their
    members in key order, numbers are integers. */
module Json {
  import opened Results

  datatype Json =
    | JNull
    | JBool(b: bool)
    | JNum(n: int)
    | JStr(s: string)
    | JArr(items: seq<Json>)
    | JObj(members: seq<Member>)

  datatype Member = Member(key: string, value: Json)

  /** `Object.keys` of an object. */
  function Keys(ms: seq<Member>): seq<string> {
    seq(|ms|, i requires 0 <= i < |ms| => ms[i].key)
  }

  /** `value[key]`, `None` standing for `undefined`. */
  function Lookup(ms: seq<Member>, key: string): Option<Json> {
    if ms == [] then None
    else if ms[0].key == key then Some(ms[0].value)
    else Lookup(ms[1..], key)
  }

  /** JavaScript truthiness of a JSON value (objects and arrays are always truthy). */
  predicate Truthy(j: Json) {
    match j
    case JNull => false
    case JBool(b) => b
    case JNum(n) => n != 0
    case JStr(s) => s != ""
    case _ => true
  }

  /** `obj[key] = value`: an existing member keeps its place, a new one is appended. */
  function SetMember(ms: seq<Member>, key: string, value: Json): (r: seq<Member>)
    ensures Lookup(r, key) == Some(value)
    ensures forall k :: k != key ==> Lookup(r, k) == Lookup(ms, k)
  {
    if ms == [] then [Member(key, value)]
    else if ms[0].key == key then [Member(key, value)] + ms[1..]
    else [ms[0]] + SetMember(ms[1..], key, value)
  }

  /** The object form of a back-reference, `{"$ref": k}`. */
  function RefObject(k: nat): Json {
    JObj([Member("$ref", JNum(k))])
  }

  /** Key shapes JSROOT.parse treats specially (JSRootCore.js lines 705, 712, 767). */
  predicate IsRefShape(ks: seq<string>) {
    |ks| == 1 && ks[0] == "$ref"
  }

  predicate IsArrShape(ks: seq<string>) {
    |ks| > 1 && ks[0] == "$arr" && ks[1] == "len"
  }

  predicate IsPairShape(ks: seq<string>) {
    |ks| == 3 && ks[0] == "$pair" && ks[1] == "first" && ks[2] == "second"
  }
}
