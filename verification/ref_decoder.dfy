/** `JSROOT.parse` (JSRootCore.js lines 672-794): a depth-first walk over the
    document JSON.parse produced that resolves back-references through an object
    table, expands ROOT-coded arrays and rewrites `$pair` objects in place.

    The JavaScript walk mutates shared objects; here it threads a `DecState`
    through pure functions. An object that is appended to the table is
    represented by `VRef(index)` wherever it appears, and its decoded members are
    recorded in `done` once the walk leaves it. */
module RefDecoder {
  import opened Results
  import opened Json
  import opened JsText
  import opened TypedArrays
  import opened Graph
  import opened RootArrays

  /** The `newfmt` flag: `undefined` until the first resolved reference or pair
      decides between the legacy string references (`false`) and the current
      object references (`true`). */
  datatype Dialect = Undecided | Legacy | Current

  /** `map.length`, the table entries whose members are decoded, and `newfmt`.
      An object is numbered when it is met and finished when its members are. */
  datatype DecState = DecState(count: nat, done: map<nat, Obj>, dialect: Dialect)

  const Initial := DecState(0, map[], Undecided)

  /** Every finished entry has an index below `count` and refers only to
      numbered objects. */
  predicate Valid(st: DecState) {
    forall k | k in st.done :: k < st.count && Below(FieldRefs(st.done[k].fields), st.count)
  }

  /** What a walk may do to the state: number more objects, finish every object
      it numbered and no other, leave finished entries alone, and move the
      dialect only away from `Undecided`. */
  predicate Grows(a: DecState, b: DecState) {
    && a.count <= b.count
    && (forall k | k in a.done :: k in b.done && b.done[k] == a.done[k])
    && (forall k | k in b.done :: k in a.done || a.count <= k)
    && (forall k | a.count <= k < b.count :: k in b.done)
    && (a.dialect != Undecided ==> b.dialect == a.dialect)
  }

  /** The value that ends up in the parent's slot: the replacement `unref_value`
      returns, or the (possibly rewritten) original when it returns `undefined`. */
  datatype Out = Out(val: Val, st: DecState)
  datatype ItemsOut = ItemsOut(vals: seq<Val>, st: DecState)
  datatype FieldsOut = FieldsOut(fields: seq<Field>, st: DecState)

  function LeadingDigit(n: nat): nat {
    if n < 10 then n else LeadingDigit(n / 10)
  }

  /** `parseInt(value.$ref)`: the reference is converted to a string first. A
      number of 10^21 or more prints in exponent form, so only its first digit
      is read; an array prints as its items joined by commas, so its first item
      decides; `true`, `false`, `null` and objects give NaN (`None`). */
  function RefIndex(j: Json): Option<int> {
    match j
    case JNum(n) => Some(if n >= 1_000_000_000_000_000_000_000 then LeadingDigit(n) else n)
    case JStr(s) => ParseInt(s)
    case JArr(items) => if items == [] then None else RefIndex(items[0])
    case _ => None
  }

  /** `!isNaN(ref) && ref >= 0 && ref < map.length` */
  predicate Resolves(ref: Option<int>, st: DecState) {
    ref.Some? && 0 <= ref.value < st.count
  }

  /** A string is a legacy reference candidate only before the object dialect
      is locked in, and only with the `$ref:` prefix and at least one more
      character (lines 683-687). */
  predicate IsRefString(s: string, st: DecState) {
    st.dialect != Current && |s| >= 6 && StartsWith(s, "$ref:")
  }

  /** `unref_value(value)` on one value. */
  function Unref(j: Json, st: DecState, atob: Base64): (r: Result<Out>)
    requires Valid(st)
    ensures r.Ok? ==> Grows(st, r.value.st) && Valid(r.value.st)
    ensures r.Ok? ==> Below(Refs(r.value.val), r.value.st.count)
    decreases j, 1
  {
    match j
    case JStr(s) => Ok(UnrefString(s, st))
    case JArr(items) =>
      var r :- UnrefItems(items, st, atob);
      Ok(Out(VArr(r.vals), r.st))
    case JObj(ms) => UnrefMembers(ms, st, atob)
    case _ =>
      EmbedHasNoRefs(j);
      Ok(Out(Embed(j), st))
  }

  /** A string value: a legacy reference is replaced, anything else is kept. */
  function UnrefString(s: string, st: DecState): (r: Out)
    requires Valid(st)
    ensures Grows(st, r.st) && Valid(r.st) && Below(Refs(r.val), r.st.count)
  {
    if IsRefString(s, st) && Resolves(ParseInt(s[5..]), st) then
      Lock(st, Legacy);
      Out(VRef(ParseInt(s[5..]).value), st.(dialect := Legacy))
    else Out(VStr(s), st)
  }

  /** An object value: the member names decide between a reference, a coded
      array, a pair and an ordinary object (lines 701-787). */
  function UnrefMembers(ms: seq<Member>, st: DecState, atob: Base64): (r: Result<Out>)
    requires Valid(st)
    ensures r.Ok? ==> Grows(st, r.value.st) && Valid(r.value.st)
    ensures r.Ok? ==> Below(Refs(r.value.val), r.value.st.count)
    decreases ms, 2
  {
    var ks := Keys(ms);
    if st.dialect != Legacy && IsRefShape(ks) then
      var ref := RefIndex(ms[0].value);
      if Resolves(ref, st) then
        Lock(st, Current);
        Ok(Out(VRef(ref.value), st.(dialect := Current)))
      else
        EmbedHasNoRefs(JObj(ms));
        Ok(Out(Embed(JObj(ms)), st))
    else if st.dialect != Legacy && IsArrShape(ks) then
      var v :- DecodeArray(ms, atob);
      ArrayHasNoRefs(ms, atob);
      Ok(Out(v, st))
    else if st.dialect != Legacy && IsPairShape(ks) then
      UnrefPair(ms, st, atob)
    else
      UnrefObject(ms, st, atob)
  }

  /** The `$pair` branch of lines 767-776: `newfmt` becomes true before the
      members are visited, the `$pair` member moves to `_typename`, and the
      object is not numbered. */
  function UnrefPair(ms: seq<Member>, st: DecState, atob: Base64): (r: Result<Out>)
    requires Valid(st) && st.dialect != Legacy && IsPairShape(Keys(ms))
    ensures r.Ok? ==> Grows(st, r.value.st) && Valid(r.value.st)
    ensures r.Ok? ==> Below(Refs(r.value.val), r.value.st.count)
    decreases ms, 0
  {
    Lock(st, Current);
    var f :- Unref(ms[1].value, st.(dialect := Current), atob);
    var s :- Unref(ms[2].value, f.st, atob);
    var fs := [Field("first", f.val), Field("second", s.val), Field("_typename", Embed(ms[0].value))];
    PairRefs(f.val, s.val, ms[0].value, f.st.count, s.st.count);
    GrowsTrans(st, st.(dialect := Current), f.st);
    GrowsTrans(st, f.st, s.st);
    Ok(Out(VRec(fs), s.st))
  }

  /** Lines 778-787: the object is appended to the table, then its members are
      visited; its entry is finished when the last member is. */
  function UnrefObject(ms: seq<Member>, st: DecState, atob: Base64): (r: Result<Out>)
    requires Valid(st)
    ensures r.Ok? ==> Grows(st, r.value.st) && Valid(r.value.st)
    ensures r.Ok? ==> Below(Refs(r.value.val), r.value.st.count)
    decreases ms, 1
  {
    var c := st.count;
    Number(st);
    var r :- UnrefFields(ms, st.(count := c + 1), atob);
    Finish(st, r.st, r.fields);
    Ok(Out(VRef(c), r.st.(done := r.st.done[c := Obj(r.fields)])))
  }

  lemma Lock(st: DecState, d: Dialect)
    requires Valid(st) && (st.dialect == Undecided || st.dialect == d)
    ensures Valid(st.(dialect := d)) && Grows(st, st.(dialect := d))
  {
  }

  lemma Number(st: DecState)
    requires Valid(st)
    ensures Valid(st.(count := st.count + 1))
  {
  }

  lemma Finish(st: DecState, after: DecState, fields: seq<Field>)
    requires Valid(st) && Grows(st.(count := st.count + 1), after) && Valid(after)
    requires Below(FieldRefs(fields), after.count)
    ensures var fin := after.(done := after.done[st.count := Obj(fields)]);
      Grows(st, fin) && Valid(fin) && st.count < fin.count
  {
  }

  lemma GrowsTrans(a: DecState, b: DecState, c: DecState)
    requires Grows(a, b) && Grows(b, c)
    ensures Grows(a, c)
  {
  }

  lemma PairRefs(first: Val, second: Val, tag: Json, n: nat, m: nat)
    requires Below(Refs(first), n) && Below(Refs(second), m) && n <= m
    ensures Below(Refs(VRec([Field("first", first), Field("second", second), Field("_typename", Embed(tag))])), m)
  {
    EmbedHasNoRefs(tag);
    var fs := [Field("first", first), Field("second", second), Field("_typename", Embed(tag))];
    assert fs[1..][1..][1..] == [];
    assert FieldRefs(fs[1..][1..]) == Refs(Embed(tag));
    assert FieldRefs(fs[1..]) == Refs(second) + FieldRefs(fs[1..][1..]);
    assert FieldRefs(fs) == Refs(first) + FieldRefs(fs[1..]);
  }

  /** The array loop of lines 693-699: every item is visited in order. */
  function UnrefItems(items: seq<Json>, st: DecState, atob: Base64): (r: Result<ItemsOut>)
    requires Valid(st)
    ensures r.Ok? ==> Grows(st, r.value.st) && Valid(r.value.st)
    ensures r.Ok? ==> |r.value.vals| == |items| && Below(ItemRefs(r.value.vals), r.value.st.count)
    decreases items, 0
  {
    if items == [] then Ok(ItemsOut([], st))
    else
      var h :- Unref(items[0], st, atob);
      var t :- UnrefItems(items[1..], h.st, atob);
      var vals := [h.val] + t.vals;
      assert vals[0] == h.val && vals[1..] == t.vals;
      Ok(ItemsOut(vals, t.st))
  }

  /** The member loop of lines 783-787, after the object has been numbered. */
  function UnrefFields(ms: seq<Member>, st: DecState, atob: Base64): (r: Result<FieldsOut>)
    requires Valid(st)
    ensures r.Ok? ==> Grows(st, r.value.st) && Valid(r.value.st)
    ensures r.Ok? ==> |r.value.fields| == |ms| && Below(FieldRefs(r.value.fields), r.value.st.count)
    decreases ms, 0
  {
    if ms == [] then Ok(FieldsOut([], st))
    else
      var h :- Unref(ms[0].value, st, atob);
      var t :- UnrefFields(ms[1..], h.st, atob);
      var fields := [Field(ms[0].key, h.val)] + t.fields;
      assert fields[0].val == h.val && fields[1..] == t.fields;
      Ok(FieldsOut(fields, t.st))
  }

  /** The decoded members keep their names and order. */
  lemma UnrefFieldsKeepsNames(ms: seq<Member>, st: DecState, atob: Base64)
    requires Valid(st)
    ensures var r := UnrefFields(ms, st, atob);
      r.Ok? ==> Names(r.value.fields) == Keys(ms)
  {
    var r := UnrefFields(ms, st, atob);
    if r.Ok? {
      UnrefFieldsNamesAt(ms, st, atob);
      assert Names(r.value.fields) == Keys(ms);
    }
  }

  lemma {:induction false} UnrefFieldsNamesAt(ms: seq<Member>, st: DecState, atob: Base64)
    requires Valid(st)
    ensures var r := UnrefFields(ms, st, atob);
      r.Ok? ==> forall i | 0 <= i < |ms| :: r.value.fields[i].name == ms[i].key
    decreases ms
  {
    if ms != [] {
      var h := Unref(ms[0].value, st, atob);
      if h.Ok? {
        UnrefFieldsNamesAt(ms[1..], h.value.st, atob);
        var t := UnrefFields(ms[1..], h.value.st, atob);
        if t.Ok? {
          var fields := [Field(ms[0].key, h.value.val)] + t.value.fields;
          assert UnrefFields(ms, st, atob).value.fields == fields;
          forall i | 0 <= i < |ms|
            ensures fields[i].name == ms[i].key
          {
            if i > 0 {
              assert fields[i] == t.value.fields[i - 1] && ms[i] == ms[1..][i - 1];
            }
          }
        }
      }
    }
  }

  /** The first decoded member is the first member, decoded against the state
      the loop starts from. */
  lemma UnrefFieldsHead(ms: seq<Member>, st: DecState, atob: Base64)
    requires Valid(st) && ms != []
    ensures var r := UnrefFields(ms, st, atob);
      r.Ok? ==> (Unref(ms[0].value, st, atob).Ok?
                 && r.value.fields[0] == Field(ms[0].key, Unref(ms[0].value, st, atob).value.val))
  {
  }

  /** What JSROOT.parse hands back: the returned value, and the object table
      (`map`) as it stands at the end, entry k being the object numbered k. */
  datatype Decoded = Decoded(root: Val, table: seq<Obj>)

  /** Every reference in the result names an entry of the table. */
  predicate Closed(d: Decoded) {
    && Below(Refs(d.root), |d.table|)
    && forall k | 0 <= k < |d.table| :: Below(FieldRefs(d.table[k].fields), |d.table|)
  }

  function Table(st: DecState): seq<Obj>
    requires forall k | 0 <= k < st.count :: k in st.done
  {
    seq(st.count, k requires 0 <= k < st.count => st.done[k])
  }

  /** `unref_value(obj); return obj;` on a parsed document. The root's own
      replacement is discarded, so a root-level `$arr` object comes back
      undecoded although its decoding runs (and can throw). */
  function Decode(doc: Json, atob: Base64): (r: Result<Decoded>)
    ensures r.Ok? ==> Closed(r.value)
  {
    var out :- Unref(doc, Initial, atob);
    EmbedHasNoRefs(doc);
    var root := if doc.JObj? && IsArrShape(Keys(doc.members)) then Embed(doc) else out.val;
    Ok(Decoded(root, Table(out.st)))
  }

  /** `JSON.parse`, `None` standing for a SyntaxError. */
  type JsonParse = string -> Option<Json>

  /** `JSROOT.parse(json)`: a falsy argument gives null, a string is JSON text,
      anything else is decoded as it is. */
  function Parse(arg: Json, jsonParse: JsonParse, atob: Base64): (r: Result<Decoded>)
    ensures !Truthy(arg) ==> r == Ok(Decoded(VNull, []))
    ensures Truthy(arg) && arg.JStr? && jsonParse(arg.s).None? ==> r == Err(SyntaxError)
    ensures Truthy(arg) && arg.JStr? && jsonParse(arg.s).Some? ==> r == Decode(jsonParse(arg.s).value, atob)
    ensures r.Ok? ==> Closed(r.value)
  {
    if !Truthy(arg) then Ok(Decoded(VNull, []))
    else if arg.JStr? then
      match jsonParse(arg.s)
      case None => Err(SyntaxError)
      case Some(doc) => Decode(doc, atob)
    else Decode(arg, atob)
  }

  /** A legacy reference `"$ref:N"`, as `String(N)` writes it, is replaced by
      table entry N exactly when the object dialect is not locked in and N is
      already numbered; resolving it locks the legacy dialect. Otherwise the
      string stays a string and nothing changes. */
  lemma LegacyStringRef(k: nat, st: DecState, atob: Base64)
    requires Valid(st)
    ensures var r := Unref(JStr("$ref:" + DecimalText(k)), st, atob);
      && r.Ok?
      && (st.dialect != Current && k < st.count ==> r.value == Out(VRef(k), st.(dialect := Legacy)))
      && (st.dialect == Current || k >= st.count ==> r.value == Out(VStr("$ref:" + DecimalText(k)), st))
  {
    var s := "$ref:" + DecimalText(k);
    DecimalTextDigits(k);
    ParseIntOfDecimalText(k);
    assert s[5..] == DecimalText(k);
    assert StartsWith(s, "$ref:");
    RefStringOut(s, k, st);
    StringIsUnrefString(s, st, atob);
  }

  lemma RefStringOut(s: string, k: nat, st: DecState)
    requires Valid(st) && |s| >= 6 && StartsWith(s, "$ref:") && ParseInt(s[5..]) == Some(k)
    ensures st.dialect != Current && k < st.count ==> UnrefString(s, st) == Out(VRef(k), st.(dialect := Legacy))
    ensures st.dialect == Current || k >= st.count ==> UnrefString(s, st) == Out(VStr(s), st)
  {
  }

  lemma StringIsUnrefString(s: string, st: DecState, atob: Base64)
    requires Valid(st)
    ensures Unref(JStr(s), st, atob) == Ok(UnrefString(s, st))
  {
  }

  /** Once the object dialect is locked in, no string is a reference. */
  lemma StringsStayLiteralAfterObjectRefs(s: string, st: DecState, atob: Base64)
    requires Valid(st) && st.dialect == Current
    ensures Unref(JStr(s), st, atob) == Ok(Out(VStr(s), st))
  {
  }

  /** An object reference `{"$ref": N}` (N printed without an exponent) is
      replaced by entry N exactly when N is already numbered, and that locks the
      object dialect; a reference to an object not yet numbered is left as it is
      and is not numbered itself. Under the legacy dialect it is an ordinary
      object: numbered, with its member kept. */
  lemma ObjectRef(k: nat, st: DecState, atob: Base64)
    requires Valid(st) && k < 1_000_000_000_000_000_000_000
    ensures var r := Unref(RefObject(k), st, atob);
      && r.Ok?
      && (st.dialect != Legacy && k < st.count ==> r.value == Out(VRef(k), st.(dialect := Current)))
      && (st.dialect != Legacy && k >= st.count ==> r.value == Out(Embed(RefObject(k)), st))
      && (st.dialect == Legacy ==>
            && r.value.val == VRef(st.count)
            && r.value.st.count == st.count + 1
            && r.value.st.done[st.count] == Obj([Field("$ref", VNum(k))]))
  {
    if st.dialect != Legacy {
      ObjectRefResolves(k, st, atob);
    } else {
      ObjectRefUnderLegacy(k, st, atob);
    }
  }

  lemma ObjectRefResolves(k: nat, st: DecState, atob: Base64)
    requires Valid(st) && k < 1_000_000_000_000_000_000_000 && st.dialect != Legacy
    ensures Unref(RefObject(k), st, atob)
         == if k < st.count then Ok(Out(VRef(k), st.(dialect := Current))) else Ok(Out(Embed(RefObject(k)), st))
  {
    var ms := [Member("$ref", JNum(k))];
    assert Keys(ms) == ["$ref"];
    DispatchRef(ms, st, atob);
  }

  lemma ObjectRefUnderLegacy(k: nat, st: DecState, atob: Base64)
    requires Valid(st) && st.dialect == Legacy
    ensures var r := Unref(RefObject(k), st, atob);
      && r.Ok?
      && r.value.val == VRef(st.count)
      && r.value.st.count == st.count + 1
      && r.value.st.done[st.count] == Obj([Field("$ref", VNum(k))])
  {
    var ms := [Member("$ref", JNum(k))];
    DispatchObject(ms, st, atob);
    var st1 := st.(count := st.count + 1);
    Number(st);
    ScalarFieldIsKept("$ref", JNum(k), st1, atob);
    assert UnrefObject(ms, st, atob)
        == Ok(Out(VRef(st.count), st1.(done := st1.done[st.count := Obj([Field("$ref", VNum(k))])])));
  }

  /** A lone scalar member is decoded to itself and leaves the state alone. */
  lemma ScalarFieldIsKept(key: string, j: Json, st: DecState, atob: Base64)
    requires Valid(st) && (j.JNull? || j.JBool? || j.JNum?)
    ensures UnrefFields([Member(key, j)], st, atob) == Ok(FieldsOut([Field(key, Embed(j))], st))
  {
    var ms := [Member(key, j)];
    assert ms[1..] == [];
    assert Unref(j, st, atob) == Ok(Out(Embed(j), st));
    assert [Field(key, Embed(j))] + [] == [Field(key, Embed(j))];
  }

  /** An ordinary object is numbered before its members are visited, so a
      member referring to the next free index refers to the object itself. */
  lemma ObjectSeesItself(ms: seq<Member>, st: DecState, atob: Base64)
    requires Valid(st) && st.dialect != Legacy && ms != []
    requires !IsRefShape(Keys(ms)) && !IsArrShape(Keys(ms)) && !IsPairShape(Keys(ms))
    requires ms[0].value == RefObject(st.count) && st.count < 1_000_000_000_000_000_000_000
    ensures var r := Unref(JObj(ms), st, atob);
      r.Ok? ==>
        && r.value.val == VRef(st.count)
        && st.count in r.value.st.done
        && |r.value.st.done[st.count].fields| > 0
        && r.value.st.done[st.count].fields[0] == Field(ms[0].key, VRef(st.count))
  {
    var st1 := st.(count := st.count + 1);
    DispatchObject(ms, st, atob);
    ObjectIsFinished(ms, st, atob);
    Number(st);
    ObjectRefResolves(st.count, st1, atob);
    UnrefFieldsHead(ms, st1, atob);
  }

  /** An object that is numbered ends up in the table with its decoded
      members. */
  lemma ObjectIsFinished(ms: seq<Member>, st: DecState, atob: Base64)
    requires Valid(st)
    ensures var r := UnrefObject(ms, st, atob);
      r.Ok? ==>
        && Valid(st.(count := st.count + 1))
        && UnrefFields(ms, st.(count := st.count + 1), atob).Ok?
        && r.value.val == VRef(st.count)
        && st.count in r.value.st.done
        && r.value.st.done[st.count] == Obj(UnrefFields(ms, st.(count := st.count + 1), atob).value.fields)
        && r.value.st.dialect == UnrefFields(ms, st.(count := st.count + 1), atob).value.st.dialect
  {
    Number(st);
  }

  /** Under the legacy dialect the `$ref`, `$arr` and `$pair` shapes are plain
      objects: every object is numbered and keeps its member names. */
  lemma LegacyObjectsAreNumbered(ms: seq<Member>, st: DecState, atob: Base64)
    requires Valid(st) && st.dialect == Legacy
    ensures var r := Unref(JObj(ms), st, atob);
      r.Ok? ==>
        && r.value.val == VRef(st.count)
        && st.count in r.value.st.done
        && Names(r.value.st.done[st.count].fields) == Keys(ms)
        && r.value.st.dialect == Legacy
  {
    DispatchObject(ms, st, atob);
    ObjectIsFinished(ms, st, atob);
    Number(st);
    UnrefFieldsKeepsNames(ms, st.(count := st.count + 1), atob);
  }

  /** Any `$pair` object becomes `{first, second, _typename}`: `first` is
      decoded under the object dialect, then `second` in the state `first`
      leaves, and the `$pair` value moves to `_typename` unvisited. The pair
      takes no index of its own: the state afterwards is the one `second`
      leaves. The decoding fails exactly when one of the two members fails. */
  lemma PairIsRewritten(tag: Json, a: Json, b: Json, st: DecState, atob: Base64)
    requires Valid(st) && st.dialect != Legacy
    ensures var r := Unref(JObj([Member("$pair", tag), Member("first", a), Member("second", b)]), st, atob);
      var f := Unref(a, st.(dialect := Current), atob);
      && (r.Ok? <==> f.Ok? && Unref(b, f.value.st, atob).Ok?)
      && (r.Ok? ==>
            var s := Unref(b, f.value.st, atob).value;
            r.value == Out(VRec([Field("first", f.value.val), Field("second", s.val), Field("_typename", Embed(tag))]), s.st))
  {
    var ms := [Member("$pair", tag), Member("first", a), Member("second", b)];
    assert Keys(ms) == ["$pair", "first", "second"];
    DispatchPair(ms, st, atob);
    AnyPair(ms, st, atob);
  }

  lemma AnyPair(ms: seq<Member>, st: DecState, atob: Base64)
    requires Valid(st) && st.dialect != Legacy && IsPairShape(Keys(ms))
    ensures var r := UnrefPair(ms, st, atob);
      var f := Unref(ms[1].value, st.(dialect := Current), atob);
      && (r.Ok? <==> f.Ok? && Unref(ms[2].value, f.value.st, atob).Ok?)
      && (r.Ok? ==>
            var s := Unref(ms[2].value, f.value.st, atob).value;
            r.value == Out(VRec([Field("first", f.value.val), Field("second", s.val), Field("_typename", Embed(ms[0].value))]), s.st))
  {
    Lock(st, Current);
  }

  /** A `$pair` of scalars is rewritten with its values kept and only the
      dialect changed: it locks the object dialect, so even a `"$ref:N"` string
      member stays a string. */
  lemma ScalarPairIsRewritten(tag: Json, a: Json, b: Json, st: DecState, atob: Base64)
    requires Valid(st) && st.dialect != Legacy
    requires !a.JArr? && !a.JObj? && !b.JArr? && !b.JObj?
    ensures Unref(JObj([Member("$pair", tag), Member("first", a), Member("second", b)]), st, atob)
         == Ok(Out(VRec([Field("first", Embed(a)), Field("second", Embed(b)), Field("_typename", Embed(tag))]),
                   st.(dialect := Current)))
  {
    var ms := [Member("$pair", tag), Member("first", a), Member("second", b)];
    assert Keys(ms) == ["$pair", "first", "second"];
    DispatchPair(ms, st, atob);
    ScalarPair(ms, st, atob);
  }

  lemma ScalarPair(ms: seq<Member>, st: DecState, atob: Base64)
    requires Valid(st) && st.dialect != Legacy && IsPairShape(Keys(ms))
    requires !ms[1].value.JArr? && !ms[1].value.JObj? && !ms[2].value.JArr? && !ms[2].value.JObj?
    ensures UnrefPair(ms, st, atob)
         == Ok(Out(VRec([Field("first", Embed(ms[1].value)), Field("second", Embed(ms[2].value)),
                         Field("_typename", Embed(ms[0].value))]),
                   st.(dialect := Current)))
  {
    var stC := st.(dialect := Current);
    Lock(st, Current);
    ScalarIsKept(ms[1].value, stC, atob);
    ScalarIsKept(ms[2].value, stC, atob);
  }

  lemma DispatchRef(ms: seq<Member>, st: DecState, atob: Base64)
    requires Valid(st) && st.dialect != Legacy && IsRefShape(Keys(ms))
    ensures Unref(JObj(ms), st, atob)
         == if Resolves(RefIndex(ms[0].value), st) then Ok(Out(VRef(RefIndex(ms[0].value).value), st.(dialect := Current)))
            else Ok(Out(Embed(JObj(ms)), st))
  {
  }

  lemma DispatchPair(ms: seq<Member>, st: DecState, atob: Base64)
    requires Valid(st) && st.dialect != Legacy && IsPairShape(Keys(ms))
    ensures Unref(JObj(ms), st, atob) == UnrefPair(ms, st, atob)
  {
  }

  lemma DispatchObject(ms: seq<Member>, st: DecState, atob: Base64)
    requires Valid(st)
    requires st.dialect == Legacy || (!IsRefShape(Keys(ms)) && !IsArrShape(Keys(ms)) && !IsPairShape(Keys(ms)))
    ensures Unref(JObj(ms), st, atob) == UnrefObject(ms, st, atob)
  {
  }

  lemma ScalarIsKept(a: Json, st: DecState, atob: Base64)
    requires Valid(st) && st.dialect == Current && !a.JArr? && !a.JObj?
    ensures Unref(a, st, atob) == Ok(Out(Embed(a), st))
  {
  }

  /** A ROOT-coded array is replaced by the buffer it codes and is not numbered;
      under the legacy dialect it is an ordinary, numbered object. */
  lemma CodedArrayIsNotNumbered(ms: seq<Member>, st: DecState, atob: Base64)
    requires Valid(st) && IsArrShape(Keys(ms))
    ensures st.dialect != Legacy ==> (Unref(JObj(ms), st, atob).Ok? <==> DecodeArray(ms, atob).Ok?)
    ensures st.dialect != Legacy && DecodeArray(ms, atob).Ok? ==>
      Unref(JObj(ms), st, atob) == Ok(Out(DecodeArray(ms, atob).value, st))
    ensures st.dialect == Legacy && Unref(JObj(ms), st, atob).Ok? ==>
      Unref(JObj(ms), st, atob).value.val == VRef(st.count)
  {
    if st.dialect != Legacy {
      DispatchArr(ms, st, atob);
    } else {
      DispatchObject(ms, st, atob);
      ObjectIsFinished(ms, st, atob);
    }
  }

  lemma DispatchArr(ms: seq<Member>, st: DecState, atob: Base64)
    requires Valid(st) && st.dialect != Legacy && IsArrShape(Keys(ms))
    ensures Unref(JObj(ms), st, atob)
         == if DecodeArray(ms, atob).Ok? then Ok(Out(DecodeArray(ms, atob).value, st))
            else Err(DecodeArray(ms, atob).error)
  {
    assert !IsRefShape(Keys(ms));
    assert Unref(JObj(ms), st, atob) == UnrefMembers(ms, st, atob);
  }

  /** The root's replacement is discarded: a root-level `$arr` comes back as
      the raw object, and the table stays empty. */
  lemma RootArrayIsReturnedRaw(ms: seq<Member>, atob: Base64)
    requires IsArrShape(Keys(ms))
    ensures Decode(JObj(ms), atob).Ok? <==> DecodeArray(ms, atob).Ok?
    ensures Decode(JObj(ms), atob).Ok? ==> Decode(JObj(ms), atob).value == Decoded(Embed(JObj(ms)), [])
  {
    DispatchArr(ms, Initial, atob);
    assert |Table(Initial)| == 0;
  }
}
