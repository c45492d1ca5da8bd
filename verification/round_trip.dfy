/** JSROOT.parse undoes JSROOT.toJSON. For an object graph made of plain
    objects, arrays and scalars (no member value that either side treats
    specially), decoding the document the encoder writes gives back the same
    graph, with the heap objects renumbered in the order the encoder first
    emitted them: the k-th object of the decoder's table is the k-th object the
    encoder put in its map, with every reference renamed the same way. */
module RoundTrip {
  import opened Results
  import opened Json
  import opened JsText
  import opened Graph
  import opened RootArrays
  import opened RefDecoder
  import opened RefEncoder

  /** A value both sides pass through unchanged: no `undefined`, function,
      typed array or embedded record, and no string the decoder could take for
      a legacy reference. */
  predicate PlainVal(v: Val) {
    match v
    case VNull => true
    case VBool(_) => true
    case VNum(_) => true
    case VStr(s) => !StartsWith(s, "$ref:")
    case VArr(items) => forall k | 0 <= k < |items| :: PlainVal(items[k])
    case VRef(_) => true
    case _ => false
  }

  predicate PlainFields(fs: seq<Field>) {
    forall k | 0 <= k < |fs| :: PlainVal(fs[k].val)
  }

  /** Member names the decoder treats as an ordinary object. */
  predicate Ordinary(ks: seq<string>) {
    !IsRefShape(ks) && !IsArrShape(ks) && !IsPairShape(ks)
  }

  /** A heap of ordinary objects with plain members. Below 10^21 objects every
      reference number is printed without an exponent. */
  predicate PlainHeap(heap: seq<Obj>) {
    && HeapGraph(heap)
    && |heap| < 1_000_000_000_000_000_000_000
    && forall i | 0 <= i < |heap| :: PlainFields(heap[i].fields) && Ordinary(Names(heap[i].fields))
  }

  /** The value with every heap index replaced by the number the encoder gave
      that object. */
  function Rename(v: Val, order: seq<nat>): Val
    decreases v, 1
  {
    match v
    case VRef(i) => VRef(IndexOf(order, i).GetOr(0))
    case VArr(items) => VArr(RenameItems(items, order))
    case _ => v
  }

  function RenameItems(items: seq<Val>, order: seq<nat>): seq<Val>
    decreases items, 0
  {
    seq(|items|, k requires 0 <= k < |items| => Rename(items[k], order))
  }

  function RenameFields(fs: seq<Field>, order: seq<nat>): seq<Field> {
    seq(|fs|, k requires 0 <= k < |fs| => Field(fs[k].name, Rename(fs[k].val, order)))
  }

  /** The decoder's table as the encoder's map predicts it. */
  function Renumbered(heap: seq<Obj>, order: seq<nat>): seq<Obj>
    requires forall k | 0 <= k < |order| :: order[k] < |heap|
  {
    seq(|order|, k requires 0 <= k < |order| => Obj(RenameFields(heap[order[k]].fields, order)))
  }

  /** The encoder's map and the decoder's table after the same prefix of the
      document: as many objects numbered on both sides, the object dialect
      still open or locked in, and every finished table entry the renamed copy
      of the heap object the encoder numbered alike. */
  predicate Sync(heap: seq<Obj>, es: EncState, ds: DecState, order: seq<nat>) {
    && ds.count == |es.stored|
    && ds.dialect != Legacy
    && Valid(ds)
    && Extends(es, EncState(order))
    && forall k | k in ds.done :: k < |order| && order[k] < |heap| && ds.done[k] == Obj(RenameFields(heap[order[k]].fields, order))
  }

  lemma {:induction false} PlainHasNoRec(v: Val)
    requires PlainVal(v)
    ensures NoRec(v)
  {
    match v
    case VArr(items) =>
      forall k | 0 <= k < |items|
        ensures NoRec(items[k])
      {
        PlainHasNoRec(items[k]);
      }
    case _ =>
  }

  lemma PlainFieldsHaveNoRec(fs: seq<Field>)
    requires PlainFields(fs)
    ensures NoRecFields(fs)
  {
    forall k | 0 <= k < |fs|
      ensures NoRec(fs[k].val)
    {
      PlainHasNoRec(fs[k].val);
    }
  }

  /** No plain member is dropped. */
  lemma {:induction false} PlainNamesAreDefined(fs: seq<Field>)
    requires PlainFields(fs)
    ensures DefinedNames(fs) == Names(fs)
  {
    if fs != [] {
      PlainNamesAreDefined(fs[1..]);
      assert Names(fs) == [fs[0].name] + Names(fs[1..]);
    }
  }

  lemma ExtendsTrans(a: EncState, b: EncState, c: EncState)
    requires Extends(a, b) && Extends(b, c)
    ensures Extends(a, c)
  {
    assert c.stored[..|a.stored|] == c.stored[..|b.stored|][..|a.stored|];
  }

  lemma ExtendsLast(a: seq<nat>, i: nat, order: seq<nat>)
    requires Extends(EncState(a + [i]), EncState(order))
    ensures |a| < |order| && order[|a|] == i
  {
    assert order[..|a| + 1][|a|] == (a + [i])[|a|];
  }

  /** In a list without repeats an entry's first position is its position. */
  lemma IndexOfDistinct(order: seq<nat>, k: nat)
    requires k < |order| && forall a, b | 0 <= a < b < |order| :: order[a] != order[b]
    ensures IndexOf(order, order[k]) == Some(k)
  {
  }

  lemma PlainFieldsBelow(heap: seq<Obj>, i: nat)
    requires PlainHeap(heap) && i < |heap|
    ensures PlainFields(heap[i].fields) && NoRecFields(heap[i].fields) && Below(FieldRefs(heap[i].fields), |heap|)
    ensures !IsPairObject(heap, i)
  {
  }

  lemma ItemRefsHead(items: seq<Val>)
    requires items != []
    ensures Refs(items[0]) <= ItemRefs(items) && ItemRefs(items[1..]) <= ItemRefs(items)
  {
  }

  lemma FieldRefsHead(fs: seq<Field>)
    requires fs != []
    ensures Refs(fs[0].val) <= FieldRefs(fs) && FieldRefs(fs[1..]) <= FieldRefs(fs)
  {
  }

  /** The copy of an object met for the first time, in terms of the copy of
      its members. */
  lemma CopyNewObject(heap: seq<Obj>, i: nat, es: EncState, pending: set<nat>, floats: FloatView)
    requires HeapGraph(heap) && EncValid(heap, es) && i < |heap| && i !in es.stored && !IsPairObject(heap, i)
    ensures Below(FieldRefs(heap[i].fields), |heap|) && NoRecFields(heap[i].fields)
    ensures EncValid(heap, EncState(es.stored + [i]))
    ensures var m := CopyFields(heap, heap[i].fields, EncState(es.stored + [i]), {}, floats);
      && (CopyValue(heap, VRef(i), es, pending, floats).Ok? <==> m.Ok?)
      && (m.Ok? ==> CopyValue(heap, VRef(i), es, pending, floats).value == Emit(Some(JObj(m.value.members)), m.value.st))
  {
    assert CopyValue(heap, VRef(i), es, pending, floats) == CopyMembers(heap, i, es, floats);
  }

  /** A plain graph is copied without error. */
  lemma {:induction false} PlainCopies(heap: seq<Obj>, v: Val, es: EncState, pending: set<nat>, floats: FloatView)
    requires PlainHeap(heap) && PlainVal(v) && NoRec(v) && Below(Refs(v), |heap|) && EncValid(heap, es)
    ensures CopyValue(heap, v, es, pending, floats).Ok?
    decreases Unvisited(heap, es), Free(heap, pending), v, 1
  {
    match v
    case VArr(items) =>
      PlainItemsCopy(heap, items, es, pending, floats);
    case VRef(i) =>
      if IndexOf(es.stored, i).None? {
        PlainFieldsBelow(heap, i);
        CopyNewObject(heap, i, es, pending, floats);
        var es1 := EncState(es.stored + [i]);
        assert Unvisited(heap, es1) < Unvisited(heap, es) by {
          assert i in Unvisited(heap, es) && i !in Unvisited(heap, es1);
        }
        PlainFieldsCopy(heap, heap[i].fields, es1, {}, floats);
      }
    case _ =>
  }

  lemma {:induction false} PlainItemsCopy(heap: seq<Obj>, items: seq<Val>, es: EncState, pending: set<nat>, floats: FloatView)
    requires PlainHeap(heap) && EncValid(heap, es) && Below(ItemRefs(items), |heap|)
    requires forall k | 0 <= k < |items| :: PlainVal(items[k]) && NoRec(items[k])
    ensures CopyItems(heap, items, es, pending, floats).Ok?
    decreases Unvisited(heap, es), Free(heap, pending), items, 0
  {
    if items != [] {
      ItemRefsHead(items);
      PlainCopies(heap, items[0], es, pending, floats);
      var h := CopyValue(heap, items[0], es, pending, floats).value;
      ExtendsShrinksUnvisited(heap, es, h.st);
      PlainItemsCopy(heap, items[1..], h.st, pending, floats);
    }
  }

  lemma {:induction false} PlainFieldsCopy(heap: seq<Obj>, fs: seq<Field>, es: EncState, pending: set<nat>, floats: FloatView)
    requires PlainHeap(heap) && EncValid(heap, es) && Below(FieldRefs(fs), |heap|)
    requires PlainFields(fs) && NoRecFields(fs)
    ensures CopyFields(heap, fs, es, pending, floats).Ok?
    decreases Unvisited(heap, es), Free(heap, pending), fs, 0
  {
    if fs != [] {
      FieldRefsHead(fs);
      PlainCopies(heap, fs[0].val, es, pending, floats);
      var h := CopyValue(heap, fs[0].val, es, pending, floats).value;
      ExtendsShrinksUnvisited(heap, es, h.st);
      PlainFieldsCopy(heap, fs[1..], h.st, pending, floats);
    }
  }

  /** What decoding the copy of `v` does, given that the copy succeeds and the
      encoder's final map extends the map after it. */
  predicate ValueTrips(heap: seq<Obj>, v: Val, es: EncState, pending: set<nat>, floats: FloatView,
                       ds: DecState, atob: Base64, order: seq<nat>)
    requires PlainHeap(heap) && NoRec(v) && Below(Refs(v), |heap|) && EncValid(heap, es) && Valid(ds)
  {
    var e := CopyValue(heap, v, es, pending, floats);
    && e.Ok? && e.value.out.Some?
    && var d := Unref(e.value.out.value, ds, atob);
    && d.Ok? && d.value.val == Rename(v, order) && Sync(heap, e.value.st, d.value.st, order)
  }

  /** Lemmas `ValueTrip`, `ItemsTrip` and `FieldsTrip`: the walk of the
      decoder over the encoder's output stays in step with the encoder. */
  lemma {:induction false} ValueTrip(heap: seq<Obj>, v: Val, es: EncState, pending: set<nat>, floats: FloatView,
                                     ds: DecState, atob: Base64, order: seq<nat>)
    requires PlainHeap(heap) && PlainVal(v) && NoRec(v) && Below(Refs(v), |heap|) && EncValid(heap, es)
    requires EncValid(heap, EncState(order)) && Sync(heap, es, ds, order)
    requires CopyValue(heap, v, es, pending, floats).Ok?
    requires Extends(CopyValue(heap, v, es, pending, floats).value.st, EncState(order))
    ensures ValueTrips(heap, v, es, pending, floats, ds, atob, order)
    decreases Unvisited(heap, es), Free(heap, pending), v, 1
  {
    match v
    case VArr(items) =>
      ArrayTrip(heap, items, es, pending, floats, ds, atob, order);
    case VRef(i) =>
      if IndexOf(es.stored, i).Some? {
        StoredRefTrip(heap, i, es, pending, floats, ds, atob, order);
      } else {
        NewObjectTrip(heap, i, es, pending, floats, ds, atob, order);
      }
    case VStr(s) =>
      assert !IsRefString(s, ds);
    case _ =>
  }

  lemma StoredRefTrip(heap: seq<Obj>, i: nat, es: EncState, pending: set<nat>, floats: FloatView,
                      ds: DecState, atob: Base64, order: seq<nat>)
    requires PlainHeap(heap) && i < |heap| && EncValid(heap, es) && IndexOf(es.stored, i).Some?
    requires EncValid(heap, EncState(order)) && Sync(heap, es, ds, order)
    ensures ValueTrips(heap, VRef(i), es, pending, floats, ds, atob, order)
  {
    var k := IndexOf(es.stored, i).value;
    MapIsBounded(heap, es);
    assert CopyValue(heap, VRef(i), es, pending, floats) == Ok(Emit(Some(RefObject(k)), es));
    ObjectRef(k, ds, atob);
    assert order[k] == es.stored[k];
    IndexOfDistinct(order, k);
    Lock(ds, Current);
  }

  lemma {:induction false} ArrayTrip(heap: seq<Obj>, items: seq<Val>, es: EncState, pending: set<nat>, floats: FloatView,
                                     ds: DecState, atob: Base64, order: seq<nat>)
    requires PlainHeap(heap) && PlainVal(VArr(items)) && NoRec(VArr(items)) && Below(ItemRefs(items), |heap|)
    requires EncValid(heap, es) && EncValid(heap, EncState(order)) && Sync(heap, es, ds, order)
    requires CopyValue(heap, VArr(items), es, pending, floats).Ok?
    requires Extends(CopyValue(heap, VArr(items), es, pending, floats).value.st, EncState(order))
    ensures ValueTrips(heap, VArr(items), es, pending, floats, ds, atob, order)
    decreases Unvisited(heap, es), Free(heap, pending), VArr(items), 0
  {
    var r := CopyItems(heap, items, es, pending, floats).value;
    ItemsTrip(heap, items, es, pending, floats, ds, atob, order);
  }

  lemma {:induction false} NewObjectTrip(heap: seq<Obj>, i: nat, es: EncState, pending: set<nat>, floats: FloatView,
                                         ds: DecState, atob: Base64, order: seq<nat>)
    requires PlainHeap(heap) && i < |heap| && EncValid(heap, es) && IndexOf(es.stored, i).None?
    requires EncValid(heap, EncState(order)) && Sync(heap, es, ds, order)
    requires CopyValue(heap, VRef(i), es, pending, floats).Ok?
    requires Extends(CopyValue(heap, VRef(i), es, pending, floats).value.st, EncState(order))
    ensures ValueTrips(heap, VRef(i), es, pending, floats, ds, atob, order)
    decreases Unvisited(heap, es), Free(heap, pending), VRef(i), 0
  {
    PlainFieldsBelow(heap, i);
    var es1 := EncState(es.stored + [i]);
    assert Unvisited(heap, es1) < Unvisited(heap, es) by {
      assert i in Unvisited(heap, es) && i !in Unvisited(heap, es1);
    }
    CopyNewObject(heap, i, es, pending, floats);
    var m := CopyFields(heap, heap[i].fields, es1, {}, floats).value;
    Number(ds);
    ExtendsTrans(es1, m.st, EncState(order));
    FieldsTrip(heap, heap[i].fields, es1, {}, floats, ds.(count := ds.count + 1), atob, order);
    NewObjectJoin(heap, i, es, pending, floats, ds, atob, order);
  }

  /** The step of `NewObjectTrip` after the members: numbering the object on
      both sides and finishing its table entry. */
  lemma NewObjectJoin(heap: seq<Obj>, i: nat, es: EncState, pending: set<nat>, floats: FloatView,
                      ds: DecState, atob: Base64, order: seq<nat>)
    requires PlainHeap(heap) && i < |heap| && EncValid(heap, es) && IndexOf(es.stored, i).None?
    requires EncValid(heap, EncState(order)) && Sync(heap, es, ds, order)
    requires CopyValue(heap, VRef(i), es, pending, floats).Ok?
    requires Extends(CopyValue(heap, VRef(i), es, pending, floats).value.st, EncState(order))
    requires Below(FieldRefs(heap[i].fields), |heap|) && NoRecFields(heap[i].fields)
    requires EncValid(heap, EncState(es.stored + [i]))
    requires var e := CopyFields(heap, heap[i].fields, EncState(es.stored + [i]), {}, floats);
      && e.Ok?
      && var d := UnrefFields(e.value.members, ds.(count := ds.count + 1), atob);
      && d.Ok? && d.value.fields == RenameFields(heap[i].fields, order)
      && Sync(heap, e.value.st, d.value.st, order)
    ensures ValueTrips(heap, VRef(i), es, pending, floats, ds, atob, order)
  {
    var fs := heap[i].fields;
    var c := |es.stored|;
    var es1 := EncState(es.stored + [i]);
    CopyNewObject(heap, i, es, pending, floats);
    var m := CopyFields(heap, fs, es1, {}, floats).value;
    PlainFieldsBelow(heap, i);
    CopyKeepsDefinedNames(heap, fs, es1, {}, floats);
    PlainNamesAreDefined(fs);
    DecodeNewObject(m.members, ds, atob);
    ExtendsTrans(es1, m.st, EncState(order));
    ExtendsLast(es.stored, i, order);
    var f := UnrefFields(m.members, ds.(count := c + 1), atob).value;
    var fin := f.st.(done := f.st.done[c := Obj(f.fields)]);
    SyncFinish(heap, i, m.st, ds, f.st, f.fields, order);
    IndexOfDistinct(order, c);
    ValueTripsFrom(heap, VRef(i), es, pending, floats, ds, atob, order, JObj(m.members), m.st, VRef(c), fin);
  }

  lemma ValueTripsFrom(heap: seq<Obj>, v: Val, es: EncState, pending: set<nat>, floats: FloatView,
                       ds: DecState, atob: Base64, order: seq<nat>,
                       j: Json, est: EncState, val: Val, dst: DecState)
    requires PlainHeap(heap) && NoRec(v) && Below(Refs(v), |heap|) && EncValid(heap, es) && Valid(ds)
    requires CopyValue(heap, v, es, pending, floats) == Ok(Emit(Some(j), est))
    requires Unref(j, ds, atob) == Ok(Out(val, dst))
    requires val == Rename(v, order) && Sync(heap, est, dst, order)
    ensures ValueTrips(heap, v, es, pending, floats, ds, atob, order)
  {
  }

  /** The decoding of an ordinary object, in terms of the decoding of its
      members. */
  lemma DecodeNewObject(ms: seq<Member>, ds: DecState, atob: Base64)
    requires Valid(ds) && Ordinary(Keys(ms))
    ensures Valid(ds.(count := ds.count + 1))
    ensures var f := UnrefFields(ms, ds.(count := ds.count + 1), atob);
      && (Unref(JObj(ms), ds, atob).Ok? <==> f.Ok?)
      && (f.Ok? ==> Unref(JObj(ms), ds, atob).value
                    == Out(VRef(ds.count), f.value.st.(done := f.value.st.done[ds.count := Obj(f.value.fields)])))
  {
    DispatchObject(ms, ds, atob);
    Number(ds);
  }

  /** Finishing table entry `c` with the renamed members of heap object
      `order[c]` keeps the two sides in step. */
  lemma SyncFinish(heap: seq<Obj>, i: nat, es: EncState, ds: DecState, after: DecState, fields: seq<Field>, order: seq<nat>)
    requires Valid(ds) && Grows(ds.(count := ds.count + 1), after) && Valid(after)
    requires Below(FieldRefs(fields), after.count)
    requires Sync(heap, es, after, order) && ds.count < |order| && order[ds.count] == i && i < |heap|
    requires fields == RenameFields(heap[i].fields, order)
    ensures Sync(heap, es, after.(done := after.done[ds.count := Obj(fields)]), order)
  {
    Finish(ds, after, fields);
  }

  lemma CopyItemsCons(heap: seq<Obj>, items: seq<Val>, es: EncState, pending: set<nat>, floats: FloatView)
    requires HeapGraph(heap) && EncValid(heap, es) && Below(ItemRefs(items), |heap|)
    requires forall k | 0 <= k < |items| :: NoRec(items[k])
    requires items != [] && CopyItems(heap, items, es, pending, floats).Ok?
    ensures Below(Refs(items[0]), |heap|) && Below(ItemRefs(items[1..]), |heap|)
    ensures var h := CopyValue(heap, items[0], es, pending, floats);
      && h.Ok? && EncValid(heap, h.value.st)
      && var t := CopyItems(heap, items[1..], h.value.st, pending, floats);
      && t.Ok?
      && CopyItems(heap, items, es, pending, floats).value == ItemsEmit([h.value.out.GetOr(JNull)] + t.value.items, t.value.st)
  {
  }

  lemma CopyFieldsCons(heap: seq<Obj>, fs: seq<Field>, es: EncState, pending: set<nat>, floats: FloatView)
    requires HeapGraph(heap) && EncValid(heap, es) && Below(FieldRefs(fs), |heap|) && NoRecFields(fs)
    requires fs != [] && CopyFields(heap, fs, es, pending, floats).Ok?
    ensures Below(Refs(fs[0].val), |heap|) && Below(FieldRefs(fs[1..]), |heap|)
    ensures var h := CopyValue(heap, fs[0].val, es, pending, floats);
      && h.Ok? && EncValid(heap, h.value.st)
      && var t := CopyFields(heap, fs[1..], h.value.st, pending, floats);
      && t.Ok?
      && CopyFields(heap, fs, es, pending, floats).value == MembersEmit(MemberIf(fs[0].name, h.value.out) + t.value.members, t.value.st)
  {
  }

  lemma RenameItemsCons(items: seq<Val>, order: seq<nat>)
    requires items != []
    ensures RenameItems(items, order) == [Rename(items[0], order)] + RenameItems(items[1..], order)
  {
  }

  lemma RenameFieldsCons(fs: seq<Field>, order: seq<nat>)
    requires fs != []
    ensures RenameFields(fs, order) == [Field(fs[0].name, Rename(fs[0].val, order))] + RenameFields(fs[1..], order)
  {
  }

  lemma UnrefItemsCons(j: Json, rest: seq<Json>, ds: DecState, atob: Base64)
    requires Valid(ds) && Unref(j, ds, atob).Ok?
    requires UnrefItems(rest, Unref(j, ds, atob).value.st, atob).Ok?
    ensures var h := Unref(j, ds, atob).value;
      var t := UnrefItems(rest, h.st, atob).value;
      UnrefItems([j] + rest, ds, atob) == Ok(ItemsOut([h.val] + t.vals, t.st))
  {
    assert ([j] + rest)[0] == j && ([j] + rest)[1..] == rest;
  }

  lemma UnrefFieldsCons(key: string, j: Json, rest: seq<Member>, ds: DecState, atob: Base64)
    requires Valid(ds) && Unref(j, ds, atob).Ok?
    requires UnrefFields(rest, Unref(j, ds, atob).value.st, atob).Ok?
    ensures var h := Unref(j, ds, atob).value;
      var t := UnrefFields(rest, h.st, atob).value;
      UnrefFields([Member(key, j)] + rest, ds, atob) == Ok(FieldsOut([Field(key, h.val)] + t.fields, t.st))
  {
    assert ([Member(key, j)] + rest)[0] == Member(key, j) && ([Member(key, j)] + rest)[1..] == rest;
  }

  lemma {:induction false} ItemsTrip(heap: seq<Obj>, items: seq<Val>, es: EncState, pending: set<nat>, floats: FloatView,
                                     ds: DecState, atob: Base64, order: seq<nat>)
    requires PlainHeap(heap) && EncValid(heap, es) && Below(ItemRefs(items), |heap|)
    requires forall k | 0 <= k < |items| :: PlainVal(items[k]) && NoRec(items[k])
    requires EncValid(heap, EncState(order)) && Sync(heap, es, ds, order)
    requires CopyItems(heap, items, es, pending, floats).Ok?
    requires Extends(CopyItems(heap, items, es, pending, floats).value.st, EncState(order))
    ensures var e := CopyItems(heap, items, es, pending, floats).value;
      var d := UnrefItems(e.items, ds, atob);
      && d.Ok? && d.value.vals == RenameItems(items, order)
      && Sync(heap, e.st, d.value.st, order)
    decreases Unvisited(heap, es), Free(heap, pending), items, 0
  {
    if items != [] {
      CopyItemsCons(heap, items, es, pending, floats);
      var h := CopyValue(heap, items[0], es, pending, floats).value;
      var t := CopyItems(heap, items[1..], h.st, pending, floats).value;
      ExtendsShrinksUnvisited(heap, es, h.st);
      ExtendsTrans(h.st, t.st, EncState(order));
      ValueTrip(heap, items[0], es, pending, floats, ds, atob, order);
      var d1 := Unref(h.out.value, ds, atob).value;
      ItemsTrip(heap, items[1..], h.st, pending, floats, d1.st, atob, order);
      ItemsJoin(items, h.out.value, t.items, ds, atob, order, heap, t.st);
    }
  }

  /** Decoding an item and then the rest is decoding the whole list. */
  lemma ItemsJoin(items: seq<Val>, j: Json, js: seq<Json>, ds: DecState, atob: Base64, order: seq<nat>,
                  heap: seq<Obj>, est: EncState)
    requires items != [] && Valid(ds)
    requires Unref(j, ds, atob).Ok? && Unref(j, ds, atob).value.val == Rename(items[0], order)
    requires var d := UnrefItems(js, Unref(j, ds, atob).value.st, atob);
      d.Ok? && d.value.vals == RenameItems(items[1..], order) && Sync(heap, est, d.value.st, order)
    ensures var d := UnrefItems([j] + js, ds, atob);
      d.Ok? && d.value.vals == RenameItems(items, order) && Sync(heap, est, d.value.st, order)
  {
    UnrefItemsCons(j, js, ds, atob);
    RenameItemsCons(items, order);
  }

  /** Decoding a member and then the rest is decoding the whole object. */
  lemma FieldsJoin(fs: seq<Field>, j: Json, ms: seq<Member>, ds: DecState, atob: Base64, order: seq<nat>,
                   heap: seq<Obj>, est: EncState)
    requires fs != [] && Valid(ds)
    requires Unref(j, ds, atob).Ok? && Unref(j, ds, atob).value.val == Rename(fs[0].val, order)
    requires var d := UnrefFields(ms, Unref(j, ds, atob).value.st, atob);
      d.Ok? && d.value.fields == RenameFields(fs[1..], order) && Sync(heap, est, d.value.st, order)
    ensures var d := UnrefFields([Member(fs[0].name, j)] + ms, ds, atob);
      d.Ok? && d.value.fields == RenameFields(fs, order) && Sync(heap, est, d.value.st, order)
  {
    UnrefFieldsCons(fs[0].name, j, ms, ds, atob);
    RenameFieldsCons(fs, order);
  }

  lemma {:induction false} FieldsTrip(heap: seq<Obj>, fs: seq<Field>, es: EncState, pending: set<nat>, floats: FloatView,
                                      ds: DecState, atob: Base64, order: seq<nat>)
    requires PlainHeap(heap) && EncValid(heap, es) && Below(FieldRefs(fs), |heap|)
    requires PlainFields(fs) && NoRecFields(fs)
    requires EncValid(heap, EncState(order)) && Sync(heap, es, ds, order)
    requires CopyFields(heap, fs, es, pending, floats).Ok?
    requires Extends(CopyFields(heap, fs, es, pending, floats).value.st, EncState(order))
    ensures var e := CopyFields(heap, fs, es, pending, floats).value;
      var d := UnrefFields(e.members, ds, atob);
      && d.Ok? && d.value.fields == RenameFields(fs, order)
      && Sync(heap, e.st, d.value.st, order)
    decreases Unvisited(heap, es), Free(heap, pending), fs, 0
  {
    if fs != [] {
      CopyFieldsCons(heap, fs, es, pending, floats);
      var h := CopyValue(heap, fs[0].val, es, pending, floats).value;
      var t := CopyFields(heap, fs[1..], h.st, pending, floats).value;
      ExtendsShrinksUnvisited(heap, es, h.st);
      ExtendsTrans(h.st, t.st, EncState(order));
      ValueTrip(heap, fs[0].val, es, pending, floats, ds, atob, order);
      var d1 := Unref(h.out.value, ds, atob).value;
      FieldsTrip(heap, fs[1..], h.st, pending, floats, d1.st, atob, order);
      assert MemberIf(fs[0].name, h.out) == [Member(fs[0].name, h.out.value)];
      FieldsJoin(fs, h.out.value, t.members, ds, atob, order, heap, t.st);
    }
  }

  /** `JSROOT.parse(JSROOT.toJSON(obj))` for a plain object graph whose root is
      an object or an array: the encoder succeeds, and the decoder returns the
      root and builds a table holding, at position k, the k-th object the
      encoder numbered, references renamed to the same numbering. */
  lemma ParseUndoesToJson(heap: seq<Obj>, root: Val, floats: FloatView, atob: Base64)
    requires PlainHeap(heap) && PlainVal(root) && (root.VRef? || root.VArr?) && Below(Refs(root), |heap|)
    ensures NoRec(root)
    ensures var e := Encode(heap, root, floats);
      && e.Ok? && e.value.out.Some?
      && var order := e.value.st.stored;
      && var d := Decode(e.value.out.value, atob);
      && d.Ok? && d.value.root == Rename(root, order) && d.value.table == Renumbered(heap, order)
  {
    PlainHasNoRec(root);
    var es := EncState([]);
    PlainCopies(heap, root, es, {}, floats);
    var e := CopyValue(heap, root, es, {}, floats).value;
    var order := e.st.stored;
    ValueTrip(heap, root, es, {}, floats, Initial, atob, order);
    var d := Unref(e.out.value, Initial, atob).value;
    if root.VRef? {
      RootObjectIsOrdinary(heap, root.id, floats);
    }
    assert Table(d.st) == Renumbered(heap, order);
  }

  /** The document written for a root object is an ordinary object, so the
      decoder does not discard its result as it would a root `$arr`. */
  lemma RootObjectIsOrdinary(heap: seq<Obj>, i: nat, floats: FloatView)
    requires PlainHeap(heap) && i < |heap|
    ensures var e := CopyValue(heap, VRef(i), EncState([]), {}, floats);
      e.Ok? ==> e.value.out.Some? && e.value.out.value.JObj? && Ordinary(Keys(e.value.out.value.members))
  {
    PlainFieldsBelow(heap, i);
    FirstVisitNumbers(heap, i, EncState([]), {}, floats);
    PlainNamesAreDefined(heap[i].fields);
  }
}
