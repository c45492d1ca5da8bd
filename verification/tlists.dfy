/** The TList methods `JSROOT.addMethods` attaches (JSRootCore.js lines
    1727-1742): `arr` holds the objects and `opt` their draw options, kept
    side by side. */
module TLists {
  import opened Results

  datatype TList<T> = TList(arr: seq<T>, opt: seq<string>)

  /** The two arrays stay parallel. */
  predicate Parallel<T>(l: TList<T>) {
    |l.arr| == |l.opt|
  }

  /** `JSROOT.Create("TList")` and `Clear`. */
  function Empty<T>(): (r: TList<T>)
    ensures Parallel(r) && |r.arr| == 0
  {
    TList([], [])
  }

  /** `(opt && typeof opt == 'string') ? opt : ""`, with `None` for a missing
      or non-string option. */
  function OptionText(opt: Option<string>): string {
    opt.GetOr("")
  }

  /** `Add(obj, opt)`: append to both arrays. */
  function Add<T>(l: TList<T>, obj: T, opt: Option<string>): (r: TList<T>)
    requires Parallel(l)
    ensures Parallel(r) && |r.arr| == |l.arr| + 1
    ensures r.arr[|l.arr|] == obj && r.opt[|l.arr|] == OptionText(opt)
    ensures r.arr[..|l.arr|] == l.arr && r.opt[..|l.arr|] == l.opt
  {
    TList(l.arr + [obj], l.opt + [OptionText(opt)])
  }

  /** `AddFirst(obj, opt)`: prepend to both arrays. */
  function AddFirst<T>(l: TList<T>, obj: T, opt: Option<string>): (r: TList<T>)
    requires Parallel(l)
    ensures Parallel(r) && |r.arr| == |l.arr| + 1
    ensures r.arr[0] == obj && r.opt[0] == OptionText(opt)
    ensures r.arr[1..] == l.arr && r.opt[1..] == l.opt
  {
    TList([obj] + l.arr, [OptionText(opt)] + l.opt)
  }

  /** `splice(indx, 1)`'s start: a negative index counts from the end, and
      one past the end removes nothing. */
  function SpliceStart(indx: int, len: nat): (r: nat)
    ensures r <= len
  {
    if indx < 0 then (if len + indx < 0 then 0 else len + indx)
    else if indx > len then len else indx
  }

  /** `RemoveAt(indx)`: drop the same position from both arrays. */
  function RemoveAt<T>(l: TList<T>, indx: int): (r: TList<T>)
    requires Parallel(l)
    ensures Parallel(r)
    ensures var i := SpliceStart(indx, |l.arr|);
      i < |l.arr| ==> && |r.arr| == |l.arr| - 1
                      && (forall j | 0 <= j < i :: r.arr[j] == l.arr[j] && r.opt[j] == l.opt[j])
                      && (forall j | i <= j < |r.arr| :: r.arr[j] == l.arr[j + 1] && r.opt[j] == l.opt[j + 1])
    ensures SpliceStart(indx, |l.arr|) == |l.arr| ==> r == l
  {
    var i := SpliceStart(indx, |l.arr|);
    if i < |l.arr| then TList(l.arr[..i] + l.arr[i + 1..], l.opt[..i] + l.opt[i + 1..]) else l
  }

  /** Removing what was just appended, by its index or as the last element,
      gives the list back. */
  lemma RemoveUndoesAdd<T>(l: TList<T>, obj: T, opt: Option<string>)
    requires Parallel(l)
    ensures RemoveAt(Add(l, obj, opt), |l.arr|) == l
    ensures RemoveAt(Add(l, obj, opt), -1) == l
  {
    var a := Add(l, obj, opt);
    assert a.arr[..|l.arr|] + a.arr[|l.arr| + 1..] == l.arr;
    assert a.opt[..|l.arr|] + a.opt[|l.arr| + 1..] == l.opt;
  }

  /** Removing index 0 after `AddFirst` gives the list back. */
  lemma RemoveUndoesAddFirst<T>(l: TList<T>, obj: T, opt: Option<string>)
    requires Parallel(l)
    ensures RemoveAt(AddFirst(l, obj, opt), 0) == l
  {
    var a := AddFirst(l, obj, opt);
    assert a.arr[..0] + a.arr[1..] == l.arr;
    assert a.opt[..0] + a.opt[1..] == l.opt;
  }
}
