/** `JSROOT.toJSON` (JSRootCore.js lines 885-932): the inverse of JSROOT.parse.
    Objects are numbered in the order they are first emitted; an object met
    again is written as `{"$ref": its number}`, `$pair` objects are copied
    without a number, functions are dropped and typed arrays become plain
    arrays.

    The input is an object graph: every object lives in `heap` and is named by
    `VRef(index)` wherever it appears, so sharing and cycles are explicit; `VRec`
    does not occur in it. The result is the document `JSON.stringify` writes. */
module RefEncoder {
  import opened Results
  import opened Json
  import opened TypedArrays
  import opened Graph

  /** The element values of a float typed array, read through its bytes. */
  type FloatView = (ElemKind, seq<byte>) -> seq<int>

  /** `map`: the heap indices of the objects emitted so far, in emission order. */
  datatype EncState = EncState(stored: seq<nat>)

  /** A copied value; `None` is `undefined`, which JSON.stringify drops from an
      object and writes as null in an array. */
  datatype Emit = Emit(out: Option<Json>, st: EncState)
  datatype ItemsEmit = ItemsEmit(items: seq<Json>, st: EncState)
  datatype MembersEmit = MembersEmit(members: seq<Member>, st: EncState)

  /** `s.indexOf(x)`, `None` standing for -1. */
  function IndexOf(s: seq<nat>, x: nat): (r: Option<nat>)
    ensures r.Some? ==> r.value < |s| && s[r.value] == x && forall j | 0 <= j < r.value :: s[j] != x
    ensures r.None? <==> x !in s
  {
    if s == [] then None
    else if s[0] == x then Some(0)
    else match IndexOf(s[1..], x)
      case None => None
      case Some(k) => Some(k + 1)
  }

  /** A value of the input graph: objects appear only as heap references. */
  predicate NoRec(v: Val) {
    match v
    case VRec(_) => false
    case VArr(items) => forall i | 0 <= i < |items| :: NoRec(items[i])
    case _ => true
  }

  predicate NoRecFields(fs: seq<Field>) {
    forall k | 0 <= k < |fs| :: NoRec(fs[k].val)
  }

  /** Every reference in the heap names a heap object. */
  predicate HeapGraph(heap: seq<Obj>) {
    forall i | 0 <= i < |heap| :: Below(FieldRefs(heap[i].fields), |heap|) && NoRecFields(heap[i].fields)
  }

  predicate IsPairObject(heap: seq<Obj>, i: nat)
    requires i < |heap|
  {
    IsPairShape(Names(heap[i].fields))
  }

  /** The map holds distinct heap objects, none of them a pair. */
  predicate EncValid(heap: seq<Obj>, st: EncState) {
    && (forall a, b | 0 <= a < b < |st.stored| :: st.stored[a] != st.stored[b])
    && (forall a | 0 <= a < |st.stored| :: st.stored[a] < |heap| && !IsPairObject(heap, st.stored[a]))
  }

  predicate Extends(a: EncState, b: EncState) {
    |a.stored| <= |b.stored| && b.stored[..|a.stored|] == a.stored
  }

  /** A list of distinct numbers below `n` has at most `n` entries. */
  lemma {:induction false} DistinctBelow(s: seq<nat>, n: nat)
    requires forall a, b | 0 <= a < b < |s| :: s[a] != s[b]
    requires forall a | 0 <= a < |s| :: s[a] < n
    ensures |s| <= n
    decreases n
  {
    if s != [] {
      assert s[0] < n;
      var t := s;
      if j :| 0 <= j < |s| && s[j] == n - 1 {
        t := s[..j] + s[j + 1..];
        assert forall a | 0 <= a < |t| :: t[a] == if a < j then s[a] else s[a + 1];
      }
      DistinctBelow(t, n - 1);
    }
  }

  /** The map never holds more entries than there are heap objects. */
  lemma MapIsBounded(heap: seq<Obj>, st: EncState)
    requires EncValid(heap, st)
    ensures |st.stored| <= |heap|
  {
    DistinctBelow(st.stored, |heap|);
  }

  /** Heap objects not yet in the map. */
  function Unvisited(heap: seq<Obj>, st: EncState): set<nat> {
    set i | 0 <= i < |heap| && i !in st.stored
  }

  /** Heap objects that are not pairs currently being copied. */
  function Free(heap: seq<Obj>, pending: set<nat>): set<nat> {
    set i | 0 <= i < |heap| && i !in pending
  }

  lemma ExtendsShrinksUnvisited(heap: seq<Obj>, a: EncState, b: EncState)
    requires Extends(a, b)
    ensures Unvisited(heap, b) <= Unvisited(heap, a)
  {
    forall i | i in a.stored
      ensures i in b.stored
    {
      var k :| 0 <= k < |a.stored| && a.stored[k] == i;
      assert b.stored[k] == i;
    }
  }

  /** The elements a typed array shows. */
  function TypedElements(kind: ElemKind, bytes: seq<byte>, floats: FloatView): seq<int> {
    if kind.IsInteger() then ElementsOf(kind, bytes) else floats(kind, bytes)
  }

  function Numbers(ns: seq<int>): (r: seq<Json>)
    ensures |r| == |ns| && forall i | 0 <= i < |ns| :: r[i] == JNum(ns[i])
  {
    seq(|ns|, i requires 0 <= i < |ns| => JNum(ns[i]))
  }

  /** `tgt.$pair = value.$pair` is a plain copy: a scalar is written as it is,
      `undefined` and functions are dropped. */
  function TagJson(v: Val): Result<Option<Json>> {
    match v
    case VUndef => Ok(None)
    case VFunc(_) => Ok(None)
    case VNull => Ok(Some(JNull))
    case VBool(b) => Ok(Some(JBool(b)))
    case VNum(n) => Ok(Some(JNum(n)))
    case VStr(s) => Ok(Some(JStr(s)))
    case _ => Err(NotModelled("JSON.stringify of a non-scalar $pair value"))
  }

  /** `undefined` and functions: copied as `undefined`, hence dropped by
      JSON.stringify from an object. */
  predicate Dropped(v: Val) {
    v.VUndef? || v.VFunc?
  }

  /** The keys an object keeps once written out: those whose value is neither
      undefined nor a function, in order. */
  function DefinedNames(fs: seq<Field>): seq<string> {
    if fs == [] then []
    else (if Dropped(fs[0].val) then [] else [fs[0].name]) + DefinedNames(fs[1..])
  }

  /** A member `key: value` unless the value is undefined. */
  function MemberIf(key: string, out: Option<Json>): seq<Member> {
    if out.Some? then [Member(key, out.value)] else []
  }

  /** `copy_value(value)`. `pending` holds the pairs whose copy is in progress
      since the last object was stored: reaching one of them again repeats the
      same call with the same map, which recurses until the stack overflows. */
  function CopyValue(heap: seq<Obj>, v: Val, st: EncState, pending: set<nat>, floats: FloatView): (r: Result<Emit>)
    requires HeapGraph(heap) && EncValid(heap, st) && NoRec(v) && Below(Refs(v), |heap|)
    ensures r.Ok? ==> Extends(st, r.value.st) && EncValid(heap, r.value.st)
    ensures r.Ok? ==> (r.value.out.None? <==> Dropped(v))
    decreases Unvisited(heap, st), Free(heap, pending), v, 1
  {
    match v
    case VUndef => Ok(Emit(None, st))
    case VFunc(_) => Ok(Emit(None, st))
    case VNull => Ok(Emit(Some(JNull), st))
    case VBool(b) => Ok(Emit(Some(JBool(b)), st))
    case VNum(n) => Ok(Emit(Some(JNum(n)), st))
    case VStr(s) => Ok(Emit(Some(JStr(s)), st))
    case VArr(items) =>
      var r :- CopyItems(heap, items, st, pending, floats);
      Ok(Emit(Some(JArr(r.items)), r.st))
    case VBuf(_, cells) => Ok(Emit(Some(JArr(Numbers(cells))), st))
    case VBytes(kind, bytes) => Ok(Emit(Some(JArr(Numbers(TypedElements(kind, bytes, floats)))), st))
    case VRef(i) => CopyObject(heap, i, st, pending, floats)
  }

  /** `copy_value` on an object of the heap (lines 904-929): a reference if it
      is in the map already, a copy of the pair if it is a pair, and otherwise
      a copy of its members after it has been put in the map. */
  function CopyObject(heap: seq<Obj>, i: nat, st: EncState, pending: set<nat>, floats: FloatView): (r: Result<Emit>)
    requires HeapGraph(heap) && EncValid(heap, st) && i < |heap|
    ensures r.Ok? ==> Extends(st, r.value.st) && EncValid(heap, r.value.st) && r.value.out.Some?
    decreases Unvisited(heap, st), Free(heap, pending), VRef(i), 0
  {
    if IndexOf(st.stored, i).Some? then Ok(Emit(Some(RefObject(IndexOf(st.stored, i).value)), st))
    else if IsPairObject(heap, i) then
      if i in pending then Err(RangeError("Maximum call stack size exceeded"))
      else
        assert Free(heap, pending + {i}) < Free(heap, pending) by {
          assert i in Free(heap, pending) && i !in Free(heap, pending + {i});
        }
        CopyPair(heap, i, st, pending + {i}, floats)
    else
      assert Unvisited(heap, EncState(st.stored + [i])) < Unvisited(heap, st) by {
        assert i in Unvisited(heap, st) && i !in Unvisited(heap, EncState(st.stored + [i]));
      }
      CopyMembers(heap, i, st, floats)
  }

  /** Lines 918-926: an object met for the first time that is not a pair is
      put in the map, then its members are copied. */
  function CopyMembers(heap: seq<Obj>, i: nat, st: EncState, floats: FloatView): (r: Result<Emit>)
    requires HeapGraph(heap) && EncValid(heap, st) && i < |heap| && i !in st.stored && !IsPairObject(heap, i)
    ensures r.Ok? ==> Extends(st, r.value.st) && EncValid(heap, r.value.st) && r.value.out.Some?
    decreases Unvisited(heap, EncState(st.stored + [i])), Free(heap, {}), heap[i].fields, 1
  {
    var st1 := EncState(st.stored + [i]);
    var r :- CopyFields(heap, heap[i].fields, st1, {}, floats);
    assert r.st.stored[..|st.stored|] == st.stored by {
      assert r.st.stored[..|st1.stored|] == st1.stored;
    }
    Ok(Emit(Some(JObj(r.members)), r.st))
  }

  /** Lines 910-916: `$pair` is copied as it is, `first` and `second` through
      `copy_value`; the pair is not put in the map. */
  function CopyPair(heap: seq<Obj>, i: nat, st: EncState, pending: set<nat>, floats: FloatView): (r: Result<Emit>)
    requires HeapGraph(heap) && EncValid(heap, st) && i < |heap| && IsPairObject(heap, i) && i in pending
    ensures r.Ok? ==> Extends(st, r.value.st) && EncValid(heap, r.value.st) && r.value.out.Some?
    decreases Unvisited(heap, st), Free(heap, pending), heap[i].fields, 0
  {
    var fs := heap[i].fields;
    assert Refs(fs[1].val) <= FieldRefs(fs) && Refs(fs[2].val) <= FieldRefs(fs) by {
      var t1 := fs[1..];
      var t2 := t1[1..];
      assert t1[0] == fs[1] && t2[0] == fs[2];
      assert FieldRefs(t1) == Refs(fs[1].val) + FieldRefs(t2);
      assert FieldRefs(t2) == Refs(fs[2].val) + FieldRefs(t2[1..]);
    }
    var tag :- TagJson(fs[0].val);
    var f :- CopyValue(heap, fs[1].val, st, pending, floats);
    ExtendsShrinksUnvisited(heap, st, f.st);
    var s :- CopyValue(heap, fs[2].val, f.st, pending, floats);
    Ok(Emit(Some(JObj(MemberIf("$pair", tag) + MemberIf("first", f.out) + MemberIf("second", s.out))), s.st))
  }

  /** Lines 899-902: an array, typed or not, is copied item by item into a new
      plain array, which is not put in the map. */
  function CopyItems(heap: seq<Obj>, items: seq<Val>, st: EncState, pending: set<nat>, floats: FloatView): (r: Result<ItemsEmit>)
    requires HeapGraph(heap) && EncValid(heap, st) && Below(ItemRefs(items), |heap|)
    requires forall i | 0 <= i < |items| :: NoRec(items[i])
    ensures r.Ok? ==> Extends(st, r.value.st) && EncValid(heap, r.value.st) && |r.value.items| == |items|
    decreases Unvisited(heap, st), Free(heap, pending), items, 0
  {
    if items == [] then Ok(ItemsEmit([], st))
    else
      var h :- CopyValue(heap, items[0], st, pending, floats);
      ExtendsShrinksUnvisited(heap, st, h.st);
      var t :- CopyItems(heap, items[1..], h.st, pending, floats);
      Ok(ItemsEmit([h.out.GetOr(JNull)] + t.items, t.st))
  }

  /** Lines 920-925: every member is copied in key order; undefined ones are
      dropped when the copy is written out. */
  function CopyFields(heap: seq<Obj>, fs: seq<Field>, st: EncState, pending: set<nat>, floats: FloatView): (r: Result<MembersEmit>)
    requires HeapGraph(heap) && EncValid(heap, st) && Below(FieldRefs(fs), |heap|) && NoRecFields(fs)
    ensures r.Ok? ==> Extends(st, r.value.st) && EncValid(heap, r.value.st)
    decreases Unvisited(heap, st), Free(heap, pending), fs, 0
  {
    if fs == [] then Ok(MembersEmit([], st))
    else
      var h :- CopyValue(heap, fs[0].val, st, pending, floats);
      ExtendsShrinksUnvisited(heap, st, h.st);
      var t :- CopyFields(heap, fs[1..], h.st, pending, floats);
      Ok(MembersEmit(MemberIf(fs[0].name, h.out) + t.members, t.st))
  }

  /** The copy of an object has exactly the members whose value is neither
      undefined nor a function, in the original order. */
  lemma {:induction false} CopyKeepsDefinedNames(heap: seq<Obj>, fs: seq<Field>, st: EncState, pending: set<nat>, floats: FloatView)
    requires HeapGraph(heap) && EncValid(heap, st) && Below(FieldRefs(fs), |heap|) && NoRecFields(fs)
    ensures var r := CopyFields(heap, fs, st, pending, floats);
      r.Ok? ==> Keys(r.value.members) == DefinedNames(fs)
    decreases fs
  {
    if fs != [] {
      var h := CopyValue(heap, fs[0].val, st, pending, floats);
      if h.Ok? {
        CopyKeepsDefinedNames(heap, fs[1..], h.value.st, pending, floats);
        var t := CopyFields(heap, fs[1..], h.value.st, pending, floats);
        if t.Ok? {
          var head := MemberIf(fs[0].name, h.value.out);
          assert Keys(head + t.value.members) == Keys(head) + Keys(t.value.members);
        }
      }
    }
  }

  /** Whether a top-level argument passes `typeof obj == 'object'` with `obj`
      truthy: objects and arrays, typed or not. */
  predicate IsObject(v: Val) {
    v.VArr? || v.VBuf? || v.VBytes? || v.VRef? || v.VRec?
  }

  /** `JSROOT.toJSON(obj)` before stringification: `None` is the empty string
      returned for an argument that is not an object. The map starts empty. */
  function Encode(heap: seq<Obj>, root: Val, floats: FloatView): (r: Result<Emit>)
    requires HeapGraph(heap) && NoRec(root) && Below(Refs(root), |heap|)
    ensures r.Ok? && r.value.out.None? <==> !IsObject(root)
    ensures r.Ok? ==> EncValid(heap, r.value.st)
  {
    if !IsObject(root) then Ok(Emit(None, EncState([])))
    else CopyValue(heap, root, EncState([]), {}, floats)
  }

  /** An object already in the map is written as a reference to its number,
      and nothing else changes. */
  lemma RevisitEmitsRef(heap: seq<Obj>, i: nat, st: EncState, pending: set<nat>, floats: FloatView)
    requires HeapGraph(heap) && EncValid(heap, st) && i in st.stored
    ensures i < |heap|
    ensures var k := IndexOf(st.stored, i);
      && k.Some? && st.stored[k.value] == i
      && CopyValue(heap, VRef(i), st, pending, floats) == Ok(Emit(Some(RefObject(k.value)), st))
  {
    var k := IndexOf(st.stored, i).value;
    assert st.stored[k] == i;
  }

  /** An object met for the first time that is not a pair is numbered next,
      before anything it refers to, and becomes an object of its defined
      members. */
  lemma FirstVisitNumbers(heap: seq<Obj>, i: nat, st: EncState, pending: set<nat>, floats: FloatView)
    requires HeapGraph(heap) && EncValid(heap, st) && i < |heap| && i !in st.stored && !IsPairObject(heap, i)
    ensures var r := CopyValue(heap, VRef(i), st, pending, floats);
      r.Ok? ==>
        && |st.stored| < |r.value.st.stored| && r.value.st.stored[|st.stored|] == i
        && r.value.out.Some? && r.value.out.value.JObj?
        && Keys(r.value.out.value.members) == DefinedNames(heap[i].fields)
  {
    assert CopyValue(heap, VRef(i), st, pending, floats) == CopyMembers(heap, i, st, floats);
    var st1 := EncState(st.stored + [i]);
    var r := CopyFields(heap, heap[i].fields, st1, {}, floats);
    CopyKeepsDefinedNames(heap, heap[i].fields, st1, {}, floats);
    if r.Ok? {
      assert r.value.st.stored[..|st1.stored|] == st1.stored;
      assert st1.stored[|st.stored|] == i;
    }
  }

  /** A scalar is copied as `tgt.$pair = value.$pair` copies it. */
  lemma ScalarCopy(heap: seq<Obj>, v: Val, st: EncState, pending: set<nat>, floats: FloatView)
    requires HeapGraph(heap) && EncValid(heap, st) && (v.VNull? || v.VBool? || v.VNum? || v.VStr?)
    ensures TagJson(v).Ok? && CopyValue(heap, v, st, pending, floats) == Ok(Emit(TagJson(v).value, st))
  {
  }

  /** A value that refers to no heap object is copied without touching the
      map. */
  lemma {:induction false} RefFreeCopyKeepsMap(heap: seq<Obj>, v: Val, st: EncState, pending: set<nat>, floats: FloatView)
    requires HeapGraph(heap) && EncValid(heap, st) && NoRec(v) && Refs(v) == {}
    ensures var r := CopyValue(heap, v, st, pending, floats);
      r.Ok? ==> r.value.st == st
    decreases v, 1
  {
    if v.VArr? {
      RefFreeItemsKeepMap(heap, v.items, st, pending, floats);
    }
  }

  lemma {:induction false} RefFreeItemsKeepMap(heap: seq<Obj>, items: seq<Val>, st: EncState, pending: set<nat>, floats: FloatView)
    requires HeapGraph(heap) && EncValid(heap, st) && ItemRefs(items) == {}
    requires forall i | 0 <= i < |items| :: NoRec(items[i])
    ensures var r := CopyItems(heap, items, st, pending, floats);
      r.Ok? ==> r.value.st == st
    decreases items, 0
  {
    if items != [] {
      assert ItemRefs(items) == Refs(items[0]) + ItemRefs(items[1..]);
      RefFreeCopyKeepsMap(heap, items[0], st, pending, floats);
      var h := CopyValue(heap, items[0], st, pending, floats);
      if h.Ok? {
        RefFreeItemsKeepMap(heap, items[1..], h.value.st, pending, floats);
      }
    }
  }

  /** A pair met for the first time is written as `{$pair, first, second}`,
      keeping the members whose copy is defined, with the `$pair` value copied
      as it is. Unlike every other object it is never numbered: it is not in
      the map afterwards, and a pair whose members refer to no object leaves
      the map as it was. A `$pair` value the model cannot copy fails the copy. */
  lemma PairIsNotNumbered(heap: seq<Obj>, i: nat, st: EncState, pending: set<nat>, floats: FloatView)
    requires HeapGraph(heap) && EncValid(heap, st) && i < |heap| && i !in st.stored && i !in pending
    requires IsPairObject(heap, i)
    ensures var fs := heap[i].fields;
      var r := CopyValue(heap, VRef(i), st, pending, floats);
      && (TagJson(fs[0].val).Err? ==> r.Err?)
      && (r.Ok? ==>
            && i !in r.value.st.stored
            && r.value.out.Some? && r.value.out.value.JObj?
            && Keys(r.value.out.value.members) == DefinedNames(fs)
            && Lookup(r.value.out.value.members, "$pair") == TagJson(fs[0].val).value
            && (FieldRefs(fs) == {} ==> r.value.st == st))
  {
    var fs := heap[i].fields;
    var p := pending + {i};
    assert IndexOf(st.stored, i).None?;
    assert CopyValue(heap, VRef(i), st, pending, floats) == CopyPair(heap, i, st, p, floats);
    var r := CopyPair(heap, i, st, p, floats);
    if r.Ok? {
      PairMembers(heap, i, st, p, floats);
      forall a | 0 <= a < |r.value.st.stored|
        ensures r.value.st.stored[a] != i
      {
      }
    }
  }

  /** The members written for a pair, member by member. */
  lemma PairMembers(heap: seq<Obj>, i: nat, st: EncState, pending: set<nat>, floats: FloatView)
    requires HeapGraph(heap) && EncValid(heap, st) && i < |heap| && IsPairObject(heap, i) && i in pending
    requires CopyPair(heap, i, st, pending, floats).Ok?
    ensures var fs := heap[i].fields;
      var r := CopyPair(heap, i, st, pending, floats).value;
      && r.out.Some? && r.out.value.JObj?
      && Keys(r.out.value.members) == DefinedNames(fs)
      && Lookup(r.out.value.members, "$pair") == TagJson(fs[0].val).value
      && (FieldRefs(fs) == {} ==> r.st == st)
  {
    var fs := heap[i].fields;
    PairFields(fs);
    var tag := TagJson(fs[0].val).value;
    var f := CopyValue(heap, fs[1].val, st, pending, floats).value;
    var s := CopyValue(heap, fs[2].val, f.st, pending, floats).value;
    var ms := MemberIf("$pair", tag) + MemberIf("first", f.out) + MemberIf("second", s.out);
    assert Keys(ms) == Keys(MemberIf("$pair", tag)) + Keys(MemberIf("first", f.out)) + Keys(MemberIf("second", s.out));
    assert Lookup(ms, "$pair") == tag by {
      var rest := MemberIf("first", f.out) + MemberIf("second", s.out);
      assert "first" != "$pair" && "second" != "$pair";
      assert forall k | 0 <= k < |rest| :: rest[k].key != "$pair";
      NoKeyNoLookup(rest, "$pair");
      if tag.Some? {
        assert ms == [Member("$pair", tag.value)] + rest;
      } else {
        assert ms == rest;
      }
    }
    if FieldRefs(fs) == {} {
      RefFreeCopyKeepsMap(heap, fs[1].val, st, pending, floats);
      RefFreeCopyKeepsMap(heap, fs[2].val, f.st, pending, floats);
    }
  }

  lemma {:induction false} NoKeyNoLookup(ms: seq<Member>, key: string)
    requires forall k | 0 <= k < |ms| :: ms[k].key != key
    ensures Lookup(ms, key).None?
  {
    if ms != [] {
      NoKeyNoLookup(ms[1..], key);
    }
  }

  /** The fields of a pair, one by one. */
  lemma PairFields(fs: seq<Field>)
    requires IsPairShape(Names(fs))
    ensures |fs| == 3
    ensures FieldRefs(fs) == Refs(fs[0].val) + Refs(fs[1].val) + Refs(fs[2].val)
    ensures DefinedNames(fs) == (if Dropped(fs[0].val) then [] else ["$pair"])
                              + (if Dropped(fs[1].val) then [] else ["first"])
                              + (if Dropped(fs[2].val) then [] else ["second"])
  {
    assert |fs| == |Names(fs)| == 3;
    assert fs[0].name == "$pair" && fs[1].name == "first" && fs[2].name == "second" by {
      assert Names(fs)[0] == fs[0].name && Names(fs)[1] == fs[1].name && Names(fs)[2] == fs[2].name;
    }
    ThreeFieldRefs(fs);
    ThreeDefinedNames(fs);
  }

  lemma ThreeFieldRefs(fs: seq<Field>)
    requires |fs| == 3
    ensures FieldRefs(fs) == Refs(fs[0].val) + Refs(fs[1].val) + Refs(fs[2].val)
  {
    var t1 := fs[1..];
    var t2 := t1[1..];
    assert t1[0] == fs[1] && t2[0] == fs[2] && t2[1..] == [];
    assert FieldRefs(t2) == Refs(fs[2].val) + FieldRefs(t2[1..]);
    assert FieldRefs(t1) == Refs(fs[1].val) + FieldRefs(t2);
  }

  lemma ThreeDefinedNames(fs: seq<Field>)
    requires |fs| == 3
    ensures DefinedNames(fs) == (if Dropped(fs[0].val) then [] else [fs[0].name])
                              + (if Dropped(fs[1].val) then [] else [fs[1].name])
                              + (if Dropped(fs[2].val) then [] else [fs[2].name])
  {
    var t1 := fs[1..];
    var t2 := t1[1..];
    assert t1[0] == fs[1] && t2[0] == fs[2] && t2[1..] == [];
    assert DefinedNames(t2) == (if Dropped(fs[2].val) then [] else [fs[2].name]) + DefinedNames(t2[1..]);
    assert DefinedNames(t1) == (if Dropped(fs[1].val) then [] else [fs[1].name]) + DefinedNames(t2);
  }

  /** A pair of scalars is written as `{$pair, first, second}` with the three
      values as they are, and the map is left as it was. */
  lemma {:induction false} ScalarPairCopy(heap: seq<Obj>, i: nat, st: EncState, pending: set<nat>, floats: FloatView)
    requires HeapGraph(heap) && EncValid(heap, st) && i < |heap| && i !in st.stored && i !in pending
    requires IsPairObject(heap, i)
    requires forall k | 0 <= k < 3 :: var v := heap[i].fields[k].val; v.VNull? || v.VBool? || v.VNum? || v.VStr?
    ensures var fs := heap[i].fields;
      CopyValue(heap, VRef(i), st, pending, floats)
        == Ok(Emit(Some(JObj([Member("$pair", TagJson(fs[0].val).value.value),
                              Member("first", TagJson(fs[1].val).value.value),
                              Member("second", TagJson(fs[2].val).value.value)])), st))
  {
    var fs := heap[i].fields;
    var p := pending + {i};
    ScalarCopy(heap, fs[1].val, st, p, floats);
    ScalarCopy(heap, fs[2].val, st, p, floats);
    var tag, a, b := TagJson(fs[0].val).value, TagJson(fs[1].val).value, TagJson(fs[2].val).value;
    assert CopyPair(heap, i, st, p, floats)
        == Ok(Emit(Some(JObj(MemberIf("$pair", tag) + MemberIf("first", a) + MemberIf("second", b))), st));
    assert MemberIf("$pair", tag) + MemberIf("first", a) + MemberIf("second", b)
        == [Member("$pair", tag.value), Member("first", a.value), Member("second", b.value)];
    assert IndexOf(st.stored, i).None?;
  }

  /** A pair whose `first` member is the pair itself: copying it calls
      `copy_value` on the same object with the same map over and over. */
  const SelfPair := Obj([Field("$pair", VStr("pair<int,int>")), Field("first", VRef(0)), Field("second", VNum(1))])

  lemma SelfPairOverflows(floats: FloatView)
    ensures HeapGraph([SelfPair]) && EncValid([SelfPair], EncState([]))
    ensures Encode([SelfPair], VRef(0), floats) == Err(RangeError("Maximum call stack size exceeded"))
  {
    var heap := [SelfPair];
    var fs := SelfPair.fields;
    assert Names(fs) == ["$pair", "first", "second"];
    assert FieldRefs(fs) == {0} by {
      assert fs[1..][1..][1..] == [];
    }
    assert IsPairObject(heap, 0);
    var st := EncState([]);
    var overflow := Err(RangeError("Maximum call stack size exceeded"));
    assert CopyValue(heap, VRef(0), st, {0}, floats) == overflow;
    assert CopyPair(heap, 0, st, {0}, floats) == overflow;
    assert CopyValue(heap, VRef(0), st, {}, floats) == CopyPair(heap, 0, st, {} + {0}, floats);
  }
}
