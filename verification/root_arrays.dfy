/** Decoding of ROOT-coded arrays, `{"$arr": kind, "len": n, ...}` (JSRootCore.js
    lines 712-765): a buffer of `len` default cells, then either a base64 byte
    overlay (`b`, `o`) or a run of position/value/count members (`p*`, `v*`, `n*`). */
module RootArrays {
  import opened Results
  import opened Json
  import opened TypedArrays
  import opened Graph

  /** `atob` applied to the `b` member: the payload's bytes, `None` when it throws. */
  type Base64 = Json -> Option<seq<byte>>

  /** The array being filled: a typed array holds numbers, a plain Array any value. */
  datatype Buffer = Typed(kind: ElemKind, nums: seq<int>) | Plain(vals: seq<Val>) {
    function Length(): nat {
      match this
      case Typed(_, nums) => |nums|
      case Plain(vals) => |vals|
    }

    function ToVal(): Val {
      match this
      case Typed(k, nums) => VBuf(k, nums)
      case Plain(vals) => VArr(vals)
    }
  }

  /** The default a fresh cell holds: `false` for the tag "Bool", else 0. */
  function DefaultCell(kind: ElemKind): Val {
    if kind.Generic? && kind.isBool then VBool(false) else VNum(0)
  }

  /** `new XxxArray(len)` followed by `arr[k] = dflt` for every k below `len`. */
  function Fresh(kind: ElemKind, len: nat): Buffer {
    if kind.Generic? then Plain(seq(len, _ => DefaultCell(kind)))
    else Typed(kind, seq(len, _ => 0))
  }

  /** `arr[p] = v`. A typed array ignores indices outside its length; a plain
      Array ignores negative indices (they name ordinary properties) and grows,
      leaving holes, when `p` is at or past its end. */
  function Put<T>(cells: seq<T>, p: int, v: T, grow: bool, hole: T): seq<T> {
    if p < 0 then cells
    else if p < |cells| then cells[p := v]
    else if grow then cells + seq(p - |cells|, _ => hole) + [v]
    else cells
  }

  /** `arr[p++] = vals[k]` for each k in turn. */
  function Overwrite<T>(cells: seq<T>, p: int, vals: seq<T>, grow: bool, hole: T): (r: seq<T>)
    ensures |r| == if grow && |vals| > 0 && p + |vals| > |cells| then p + |vals| else |cells|
    ensures forall i :: 0 <= i < |r| ==>
      r[i] == if p <= i < p + |vals| then vals[i - p] else if i < |cells| then cells[i] else hole
    decreases |vals|
  {
    if vals == [] then cells
    else Overwrite(Put(cells, p, vals[0], grow, hole), p + 1, vals[1..], grow, hole)
  }

  /** The number a typed-array element assignment stores, when the model follows
      JavaScript's conversion; strings, arrays and objects go through ToNumber,
      which the model does not follow. */
  function ToElem(kind: ElemKind, j: Json): Result<int> {
    match j
    case JNum(n) => Ok(Wrap(kind, n))
    case JBool(b) => Ok(if b then 1 else 0)
    case JNull => Ok(0)
    case _ => Err(NotModelled("ToNumber of a string, array or object stored in a typed array"))
  }

  function ToElems(kind: ElemKind, js: seq<Json>): (r: Result<seq<int>>)
    ensures r.Ok? <==> forall i :: 0 <= i < |js| ==> ToElem(kind, js[i]).Ok?
    ensures r.Ok? ==> |r.value| == |js| && forall i :: 0 <= i < |js| ==> ToElem(kind, js[i]) == Ok(r.value[i])
  {
    if js == [] then Ok([])
    else
      match ToElem(kind, js[0])
      case Err(e) => Err(e)
      case Ok(x) =>
        match ToElems(kind, js[1..])
        case Err(e) => Err(e)
        case Ok(xs) => Ok([x] + xs)
  }

  function EmbedAll(js: seq<Json>): (r: seq<Val>)
    ensures |r| == |js| && forall i :: 0 <= i < |js| ==> r[i] == Embed(js[i])
  {
    seq(|js|, i requires 0 <= i < |js| => Embed(js[i]))
  }

  /** Writes `vals` at consecutive positions from `p`. */
  function Store(b: Buffer, p: int, vals: seq<Json>): Result<Buffer> {
    match b
    case Typed(k, nums) =>
      var xs :- ToElems(k, vals);
      Ok(Typed(k, Overwrite(nums, p, xs, false, 0)))
    case Plain(cells) =>
      Ok(Plain(Overwrite(cells, p, EmbedAll(vals), true, VUndef)))
  }

  /** `key[0] == c` in JavaScript: false for the empty key. */
  predicate KeyStarts(key: string, c: char) {
    |key| > 0 && key[0] == c
  }

  /** The value of a `p*` member; other coercions of ToNumeric are not followed. */
  function PositionOf(j: Json): Result<int> {
    if j.JNum? then Ok(j.n) else Err(NotModelled("ToNumeric of a non-number position"))
  }

  /** One run of the compressed coding: the values it writes and the position of
      the first one. */
  datatype Segment = Segment(pos: int, vals: seq<Json>) {
    /** The write position after this run. */
    function Next(): int { pos + |vals| }
  }

  /** A run read off the front of a member list, and the members after it. */
  datatype Chunk = Chunk(seg: Segment, rest: seq<Member>)

  /** What one pass of the loop body of lines 747-761 reads: an optional `p*`
      member setting the position, then a `v*` member, optionally followed by an
      `n*` count when the value is a scalar. A `v*` array writes its items one by
      one. A `v*` object without a `length` member writes nothing, since
      `0 < undefined` is false; one with a `length` member is read as an
      array-like object, which the model does not follow. A count of 0 or less
      makes `while (--cnt)` run forever. */
  function NextRun(p: int, ms: seq<Member>): (r: Result<Chunk>)
    requires ms != []
    ensures r.Ok? ==> |r.value.rest| < |ms|
  {
    var pos :- if KeyStarts(ms[0].key, 'p') then PositionOf(ms[0].value) else Ok(p);
    var rest := if KeyStarts(ms[0].key, 'p') then ms[1..] else ms;
    if rest == [] then Err(TypeError("member name read past the last member"))
    else if !KeyStarts(rest[0].key, 'v') then Err(UnexpectedMember(rest[0].key))
    else
      match rest[0].value
      case JNull => Err(TypeError("length of null"))
      case JObj(vs) =>
        if Lookup(vs, "length").Some? then Err(NotModelled("an array-like v* object"))
        else Ok(Chunk(Segment(pos, []), rest[1..]))
      case JArr(items) => Ok(Chunk(Segment(pos, items), rest[1..]))
      case _ =>
        var x := rest[0].value;
        if |rest| > 1 && KeyStarts(rest[1].key, 'n') then
          if !rest[1].value.JNum? then Err(NotModelled("ToNumeric of a non-number count"))
          else if rest[1].value.n <= 0 then Err(NonTerminating)
          else Ok(Chunk(Segment(pos, seq(rest[1].value.n, _ => x)), rest[2..]))
        else Ok(Chunk(Segment(pos, [x]), rest[1..]))
  }

  /** The compressed-coding loop over the members after `$arr` and `len`, with
      write position `p`: each run is stored as soon as it is read, and the
      position moves past it. */
  function Runs(b: Buffer, p: int, ms: seq<Member>): (r: Result<Buffer>)
    ensures r.Ok? ==> Segments(p, ms).Ok?
    ensures b.Plain? ==> (r.Ok? <==> Segments(p, ms).Ok?)
    ensures r.Ok? && b.Typed? ==> r.value.Typed? && r.value.kind == b.kind && r.value.Length() == b.Length()
    ensures r.Ok? && b.Plain? ==> r.value.Plain? && r.value.Length() >= b.Length()
    decreases |ms|
  {
    if ms == [] then Ok(b)
    else
      var c :- NextRun(p, ms);
      var b' :- Store(b, c.seg.pos, c.seg.vals);
      Runs(b', c.seg.Next(), c.rest)
  }

  function LengthOf(j: Json): Result<nat> {
    match j
    case JNum(n) => if n < 0 then Err(RangeError("invalid array length")) else Ok(n)
    case _ => Err(NotModelled("ToIndex of a non-number length"))
  }

  /** `value.o || 0` as a byte offset. */
  function OffsetOf(o: Option<Json>): Result<int> {
    match o
    case None => Ok(0)
    case Some(j) =>
      if !Truthy(j) then Ok(0)
      else if j.JNum? then Ok(j.n)
      else Err(NotModelled("ToIndex of a non-number offset"))
  }

  /** The whole `$arr` branch of `unref_value`, given the object's members. */
  function DecodeArray(ms: seq<Member>, atob: Base64): Result<Val>
    requires |ms| >= 2
  {
    var kind := KindOf(ms[0].value);
    var len :- LengthOf(ms[1].value);
    if Lookup(ms, "b").Some? then
      match atob(Lookup(ms, "b").value)
      case None => Err(Base64Error)
      case Some(data) =>
        if kind.Generic? then Err(NoBinaryBuffer)
        else
          var o :- OffsetOf(Lookup(ms, "o"));
          var total := len * kind.Width();
          if o < 0 || o > total then Err(RangeError("start offset outside the buffer"))
          else Ok(VBytes(kind, Overlay(seq(total, _ => 0 as byte), data, o)))
    else
      var b :- Runs(Fresh(kind, len), 0, ms[2..]);
      Ok(b.ToVal())
  }

  /** A bare `{"$arr": tag, "len": n}` is a buffer of exactly `n` cells, all
      holding the default: 0 in a typed array, `false` or 0 in a plain Array. */
  lemma BareArrayIsDefaultFilled(ms: seq<Member>, atob: Base64)
    requires |ms| == 2 && ms[0].key == "$arr" && ms[1].key == "len"
    requires ms[1].value.JNum? && ms[1].value.n >= 0
    ensures var r := DecodeArray(ms, atob);
      && r.Ok?
      && match r.value
         case VArr(items) =>
           && KindOf(ms[0].value).Generic?
           && |items| == ms[1].value.n
           && forall i :: 0 <= i < |items| ==>
                items[i] == (if ms[0].value == JStr("Bool") then VBool(false) else VNum(0))
         case VBuf(kind, cells) =>
           && kind == KindOf(ms[0].value) && !kind.Generic?
           && |cells| == ms[1].value.n
           && forall i :: 0 <= i < |cells| ==> cells[i] == 0
         case _ => false
  {
    assert ms[0].key != "b" && ms[1..][0].key != "b";
    assert Lookup(ms, "b") == Lookup(ms[1..], "b") == Lookup(ms[1..][1..], "b");
    assert ms[1..][1..] == [];
    assert ms[2..] == [];
  }

  /** What the member list of a compressed array says, independently of any
      buffer: the runs in the order they are written. */
  function Segments(p: int, ms: seq<Member>): Result<seq<Segment>>
    decreases |ms|
  {
    if ms == [] then Ok([])
    else
      var c :- NextRun(p, ms);
      var tail :- Segments(c.seg.Next(), c.rest);
      Ok([c.seg] + tail)
  }

  /** The value the last segment covering cell `i` writes there. */
  function LastWrite(segs: seq<Segment>, i: int): Option<Json> {
    if segs == [] then None
    else if LastWrite(segs[1..], i).Some? then LastWrite(segs[1..], i)
    else if segs[0].pos <= i < segs[0].pos + |segs[0].vals| then Some(segs[0].vals[i - segs[0].pos])
    else None
  }

  lemma StoreTypedCell(k: ElemKind, nums: seq<int>, p: int, vals: seq<Json>, i: int)
    requires Store(Typed(k, nums), p, vals).Ok?
    requires 0 <= i < |nums|
    ensures var after := Store(Typed(k, nums), p, vals).value;
      && after.Typed? && |after.nums| == |nums|
      && (p <= i < p + |vals| ==> ToElem(k, vals[i - p]) == Ok(after.nums[i]))
      && (!(p <= i < p + |vals|) ==> after.nums[i] == nums[i])
  {
  }

  /** What a typed cell holds after a prefix of segments, given what it holds after the rest. */
  predicate CellsFollow(k: ElemKind, before: seq<int>, segs: seq<Segment>, after: seq<int>) {
    && |after| == |before|
    && forall i :: 0 <= i < |after| ==>
         match LastWrite(segs, i)
         case None => after[i] == before[i]
         case Some(x) => ToElem(k, x) == Ok(after[i])
  }

  lemma CellsFollowCons(k: ElemKind, nums: seq<int>, pos: int, vals: seq<Json>, mid: seq<int>, tail: seq<Segment>, out: seq<int>)
    requires Store(Typed(k, nums), pos, vals) == Ok(Typed(k, mid))
    requires CellsFollow(k, mid, tail, out)
    ensures CellsFollow(k, nums, [Segment(pos, vals)] + tail, out)
  {
    var segs := [Segment(pos, vals)] + tail;
    assert segs[1..] == tail;
    forall i | 0 <= i < |out|
      ensures match LastWrite(segs, i)
              case None => out[i] == nums[i]
              case Some(x) => ToElem(k, x) == Ok(out[i])
    {
      StoreTypedCell(k, nums, pos, vals, i);
    }
  }

  /** In a typed array every cell ends up holding the value of the last segment
      that covers it, or its previous value when none does: later members win. */
  lemma {:induction false} TypedRunsLastWriteWins(b: Buffer, p: int, ms: seq<Member>, out: Buffer)
    requires b.Typed? && Runs(b, p, ms) == Ok(out)
    ensures out.Typed? && Segments(p, ms).Ok?
    ensures CellsFollow(b.kind, b.nums, Segments(p, ms).value, out.nums)
    decreases |ms|
  {
    if ms != [] {
      var c, mid := RunsCons(b, p, ms);
      TypedRunsLastWriteWins(mid, c.seg.Next(), c.rest, out);
      var tail := Segments(c.seg.Next(), c.rest).value;
      SegmentsCons(p, ms, c);
      CellsFollowCons(b.kind, b.nums, c.seg.pos, c.seg.vals, mid.nums, tail, out.nums);
    }
  }

  /** What a plain Array cell holds after a prefix of segments, given what it
      holds after the rest: past the old end, a cell no segment covers is a
      hole (`undefined`). */
  predicate PlainCellsFollow(before: seq<Val>, segs: seq<Segment>, after: seq<Val>) {
    && |after| >= |before|
    && forall i :: 0 <= i < |after| ==>
         match LastWrite(segs, i)
         case None => after[i] == (if i < |before| then before[i] else VUndef)
         case Some(x) => after[i] == Embed(x)
  }

  lemma StorePlainCell(cells: seq<Val>, p: int, vals: seq<Json>, i: int)
    requires 0 <= i < |Store(Plain(cells), p, vals).value.vals|
    ensures var after := Store(Plain(cells), p, vals).value.vals;
      && |after| >= |cells|
      && (p <= i < p + |vals| ==> after[i] == Embed(vals[i - p]))
      && (!(p <= i < p + |vals|) ==> after[i] == (if i < |cells| then cells[i] else VUndef))
  {
  }

  /** A cell a segment covers lies inside the Array once that segment is stored. */
  lemma StorePlainCovers(cells: seq<Val>, p: int, vals: seq<Json>, i: int)
    requires 0 <= i && p <= i < p + |vals|
    ensures i < |Store(Plain(cells), p, vals).value.vals|
  {
  }

  lemma PlainCellsFollowCons(cells: seq<Val>, pos: int, vals: seq<Json>, mid: seq<Val>, tail: seq<Segment>, out: seq<Val>)
    requires Store(Plain(cells), pos, vals) == Ok(Plain(mid))
    requires PlainCellsFollow(mid, tail, out)
    ensures PlainCellsFollow(cells, [Segment(pos, vals)] + tail, out)
  {
    var segs := [Segment(pos, vals)] + tail;
    assert segs[1..] == tail;
    forall i | 0 <= i < |out|
      ensures match LastWrite(segs, i)
              case None => out[i] == (if i < |cells| then cells[i] else VUndef)
              case Some(x) => out[i] == Embed(x)
    {
      PlainCellStep(cells, pos, vals, mid, tail, out, i);
    }
  }

  /** One cell of `PlainCellsFollowCons`. */
  lemma PlainCellStep(cells: seq<Val>, pos: int, vals: seq<Json>, mid: seq<Val>, tail: seq<Segment>, out: seq<Val>, i: int)
    requires Store(Plain(cells), pos, vals) == Ok(Plain(mid))
    requires PlainCellsFollow(mid, tail, out) && 0 <= i < |out|
    ensures match LastWrite([Segment(pos, vals)] + tail, i)
            case None => out[i] == (if i < |cells| then cells[i] else VUndef)
            case Some(x) => out[i] == Embed(x)
  {
    var segs := [Segment(pos, vals)] + tail;
    assert segs[1..] == tail;
    if LastWrite(tail, i).None? {
      if pos <= i < pos + |vals| {
        StorePlainCovers(cells, pos, vals, i);
      }
      if i < |mid| {
        StorePlainCell(cells, pos, vals, i);
      }
    }
  }

  /** In a plain Array every cell ends up holding the value of the last segment
      that covers it, or its previous value when none does; cells past the old
      end that no segment covers are holes. */
  lemma {:induction false} PlainRunsLastWriteWins(cells: seq<Val>, p: int, ms: seq<Member>, out: Buffer)
    requires Runs(Plain(cells), p, ms) == Ok(out)
    ensures out.Plain? && Segments(p, ms).Ok?
    ensures PlainCellsFollow(cells, Segments(p, ms).value, out.vals)
    decreases |ms|
  {
    if ms != [] {
      var c, mid := RunsCons(Plain(cells), p, ms);
      PlainRunsLastWriteWins(mid.vals, c.seg.Next(), c.rest, out);
      var tail := Segments(c.seg.Next(), c.rest).value;
      SegmentsCons(p, ms, c);
      PlainCellsFollowCons(cells, c.seg.pos, c.seg.vals, mid.vals, tail, out.vals);
    } else {
      assert Segments(p, ms) == Ok([]);
      assert forall i :: LastWrite([], i).None?;
    }
  }

  lemma SegmentsCons(p: int, ms: seq<Member>, c: Chunk)
    requires ms != [] && NextRun(p, ms) == Ok(c)
    requires Segments(c.seg.Next(), c.rest).Ok?
    ensures Segments(p, ms) == Ok([c.seg] + Segments(c.seg.Next(), c.rest).value)
  {
  }

  /** One step of `Runs` read off the run `NextRun` parses. */
  lemma RunsCons(b: Buffer, p: int, ms: seq<Member>) returns (c: Chunk, mid: Buffer)
    requires ms != [] && Runs(b, p, ms).Ok?
    ensures NextRun(p, ms) == Ok(c)
    ensures Store(b, c.seg.pos, c.seg.vals) == Ok(mid)
    ensures Runs(b, p, ms) == Runs(mid, c.seg.Next(), c.rest)
    ensures b.Typed? ==> mid.Typed? && mid.kind == b.kind
    ensures b.Plain? ==> mid.Plain?
  {
    c := NextRun(p, ms).value;
    mid := Store(b, c.seg.pos, c.seg.vals).value;
  }

  /** A scalar `v*` followed by `n*` = cnt fills cnt consecutive cells from the
      position the preceding `p*` sets, and leaves every other cell alone. */
  lemma CountedRunFillsCells(k: ElemKind, nums: seq<int>, p: int, pk: string, vk: string, nk: string, q: int, x: int, cnt: int)
    requires KeyStarts(pk, 'p') && KeyStarts(vk, 'v') && KeyStarts(nk, 'n') && cnt >= 1
    ensures var r := Runs(Typed(k, nums), p, [Member(pk, JNum(q)), Member(vk, JNum(x)), Member(nk, JNum(cnt))]);
      && r.Ok? && r.value.Typed? && |r.value.nums| == |nums|
      && forall i :: 0 <= i < |nums| ==>
           r.value.nums[i] == (if q <= i < q + cnt then Wrap(k, x) else nums[i])
  {
    var ms := [Member(pk, JNum(q)), Member(vk, JNum(x)), Member(nk, JNum(cnt))];
    var vals := seq(cnt, _ => JNum(x));
    assert ms[1..][2..] == [];
    var mid := Store(Typed(k, nums), q, vals);
    assert mid.Ok?;
    forall i | 0 <= i < |nums|
      ensures mid.value.nums[i] == (if q <= i < q + cnt then Wrap(k, x) else nums[i])
    {
      StoreTypedCell(k, nums, q, vals, i);
    }
  }

  /** A `v*` object without a `length` member writes no cell and leaves the
      position where it was; with one, the model stops with `NotModelled`. */
  lemma ObjectRunWritesNothing(b: Buffer, p: int, ms: seq<Member>)
    requires ms != [] && KeyStarts(ms[0].key, 'v') && ms[0].value.JObj?
    ensures Lookup(ms[0].value.members, "length").None? ==> Runs(b, p, ms) == Runs(b, p, ms[1..])
    ensures Lookup(ms[0].value.members, "length").Some? ==>
      Runs(b, p, ms) == Err(NotModelled("an array-like v* object"))
  {
    ObjectRunReads(p, ms);
    if Lookup(ms[0].value.members, "length").None? {
      EmptyStoreKeeps(b, p);
      RunsStep(b, p, ms, Chunk(Segment(p, []), ms[1..]), b);
    } else {
      RunsFails(b, p, ms);
    }
  }

  lemma ObjectRunReads(p: int, ms: seq<Member>)
    requires ms != [] && KeyStarts(ms[0].key, 'v') && ms[0].value.JObj?
    ensures Lookup(ms[0].value.members, "length").None? ==> NextRun(p, ms) == Ok(Chunk(Segment(p, []), ms[1..]))
    ensures Lookup(ms[0].value.members, "length").Some? ==>
      NextRun(p, ms) == Err(NotModelled("an array-like v* object"))
  {
  }

  lemma EmptyStoreKeeps(b: Buffer, p: int)
    ensures Store(b, p, []) == Ok(b)
  {
    assert EmbedAll([]) == [];
  }

  lemma RunsStep(b: Buffer, p: int, ms: seq<Member>, c: Chunk, mid: Buffer)
    requires ms != [] && NextRun(p, ms) == Ok(c) && Store(b, c.seg.pos, c.seg.vals) == Ok(mid)
    ensures Runs(b, p, ms) == Runs(mid, c.seg.Next(), c.rest)
  {
  }

  lemma RunsFails(b: Buffer, p: int, ms: seq<Member>)
    requires ms != [] && NextRun(p, ms).Err?
    ensures Runs(b, p, ms) == Err(NextRun(p, ms).error)
  {
  }

  /** Where a value member is due, any other member throws "Unexpected member". */
  lemma UnexpectedMemberThrows(b: Buffer, p: int, ms: seq<Member>)
    requires ms != []
    ensures !KeyStarts(ms[0].key, 'p') && !KeyStarts(ms[0].key, 'v') ==>
      Runs(b, p, ms) == Err(UnexpectedMember(ms[0].key))
    ensures KeyStarts(ms[0].key, 'p') && ms[0].value.JNum? && |ms| > 1 && !KeyStarts(ms[1].key, 'v') ==>
      Runs(b, p, ms) == Err(UnexpectedMember(ms[1].key))
  {
  }

  /** The base64 form lays the payload over a zeroed buffer of `len * width`
      bytes from offset `o`: `min(|payload|, bytes - o)` bytes are copied and
      every other byte stays 0. A plain Array has no byte buffer and throws. */
  lemma Base64OverlaysBytes(ms: seq<Member>, atob: Base64, data: seq<byte>, o: nat)
    requires |ms| >= 2 && ms[1].value.JNum? && ms[1].value.n >= 0
    requires Lookup(ms, "b").Some? && atob(Lookup(ms, "b").value) == Some(data)
    requires Lookup(ms, "o") == Some(JNum(o)) || (o == 0 && Lookup(ms, "o") == None)
    ensures var kind := KindOf(ms[0].value);
      var total := ms[1].value.n * kind.Width();
      var r := DecodeArray(ms, atob);
      && (kind.Generic? ==> r == Err(NoBinaryBuffer))
      && (!kind.Generic? && o <= total ==>
            var n := if |data| < total - o then |data| else total - o;
            && r.Ok? && r.value.VBytes? && r.value.kind == kind
            && |r.value.bytes| == total
            && r.value.bytes[o .. o + n] == data[..n]
            && (forall i :: 0 <= i < o ==> r.value.bytes[i] == 0)
            && (forall i :: o + n <= i < total ==> r.value.bytes[i] == 0))
      && (!kind.Generic? && o > total ==> r.Err?)
  {
    var kind := KindOf(ms[0].value);
    var total := ms[1].value.n * kind.Width();
    if !kind.Generic? && o <= total {
      OverlayCopiesPrefix(seq(total, _ => 0 as byte), data, o);
    }
  }

  lemma StoreSevens()
    ensures Store(Typed(Int8, [0, 0, 0, 0, 0]), 0, seq(3, _ => JNum(7))) == Ok(Typed(Int8, [7, 7, 7, 0, 0]))
  {
    assert seq(3, _ => JNum(7)) == [JNum(7), JNum(7), JNum(7)];
    assert Wrap(Int8, 7) == 7;
    var sevens := ToElems(Int8, [JNum(7), JNum(7), JNum(7)]);
    assert ToElem(Int8, JNum(7)) == Ok(7);
    assert sevens.Ok? && sevens.value == [7, 7, 7];
    assert Overwrite([0, 0, 0, 0, 0], 0, [7, 7, 7], false, 0) == [7, 7, 7, 0, 0];
  }

  lemma StoreNine()
    ensures Store(Typed(Int8, [7, 7, 7, 0, 0]), 3, [JNum(9)]) == Ok(Typed(Int8, [7, 7, 7, 9, 0]))
  {
    assert Wrap(Int8, 9) == 9;
    var nine := ToElems(Int8, [JNum(9)]);
    assert ToElem(Int8, JNum(9)) == Ok(9);
    assert nine.Ok? && nine.value == [9];
    assert Overwrite([7, 7, 7, 0, 0], 3, [9], false, 0) == [7, 7, 7, 9, 0];
  }

  lemma RunsOfExample()
    ensures Runs(Typed(Int8, [0, 0, 0, 0, 0]), 0,
                 [Member("p", JNum(0)), Member("v", JNum(7)), Member("n", JNum(3)),
                  Member("p1", JNum(3)), Member("v1", JNum(9))])
            == Ok(Typed(Int8, [7, 7, 7, 9, 0]))
  {
    var rs := [Member("p", JNum(0)), Member("v", JNum(7)), Member("n", JNum(3)),
               Member("p1", JNum(3)), Member("v1", JNum(9))];
    var tail := [Member("p1", JNum(3)), Member("v1", JNum(9))];
    assert rs[1..][2..] == tail;
    assert NextRun(0, rs) == Ok(Chunk(Segment(0, seq(3, _ => JNum(7))), tail));
    StoreSevens();
    assert Runs(Typed(Int8, [0, 0, 0, 0, 0]), 0, rs) == Runs(Typed(Int8, [7, 7, 7, 0, 0]), 3, tail);
    assert tail[1..][1..] == [];
    assert NextRun(3, tail) == Ok(Chunk(Segment(3, [JNum(9)]), []));
    StoreNine();
  }

  /** The position/value/count coding of ROOT's TBufferJSON: `[7,7,7,9,0]` as
      "p":0, "v":7, "n":3 followed by "p1":3, "v1":9. */
  lemma CompressedInt8Example(atob: Base64)
    ensures DecodeArray([Member("$arr", JStr("Int8")), Member("len", JNum(5)),
                         Member("p", JNum(0)), Member("v", JNum(7)), Member("n", JNum(3)),
                         Member("p1", JNum(3)), Member("v1", JNum(9))], atob)
            == Ok(VBuf(Int8, [7, 7, 7, 9, 0]))
  {
    var ms := [Member("$arr", JStr("Int8")), Member("len", JNum(5)),
               Member("p", JNum(0)), Member("v", JNum(7)), Member("n", JNum(3)),
               Member("p1", JNum(3)), Member("v1", JNum(9))];
    assert Lookup(ms, "b") == None;
    assert Fresh(Int8, 5) == Typed(Int8, [0, 0, 0, 0, 0]);
    RunsOfExample();
  }

  /** No cell of a buffer refers to a table entry. */
  predicate RefFree(b: Buffer) {
    b.Plain? ==> forall i :: 0 <= i < |b.vals| ==> Refs(b.vals[i]) == {}
  }

  lemma {:induction false} RefFreeItems(vs: seq<Val>)
    requires forall i :: 0 <= i < |vs| ==> Refs(vs[i]) == {}
    ensures ItemRefs(vs) == {}
  {
    if vs != [] {
      RefFreeItems(vs[1..]);
    }
  }

  lemma {:induction false} RunsStayRefFree(b: Buffer, p: int, ms: seq<Member>)
    requires RefFree(b) && Runs(b, p, ms).Ok?
    ensures RefFree(Runs(b, p, ms).value)
    decreases |ms|
  {
    if ms != [] {
      var c, mid := RunsCons(b, p, ms);
      if b.Plain? {
        var vals := EmbedAll(c.seg.vals);
        forall i | 0 <= i < |vals|
          ensures Refs(vals[i]) == {}
        {
          EmbedHasNoRefs(c.seg.vals[i]);
        }
      }
      RunsStayRefFree(mid, c.seg.Next(), c.rest);
    }
  }

  /** A decoded `$arr` holds numbers or raw JSON values, never references. */
  lemma ArrayHasNoRefs(ms: seq<Member>, atob: Base64)
    requires |ms| >= 2 && DecodeArray(ms, atob).Ok?
    ensures Refs(DecodeArray(ms, atob).value) == {}
  {
    if Lookup(ms, "b").None? {
      var kind := KindOf(ms[0].value);
      var start := Fresh(kind, LengthOf(ms[1].value).value);
      RunsStayRefFree(start, 0, ms[2..]);
      var b := Runs(start, 0, ms[2..]).value;
      if b.Plain? {
        RefFreeItems(b.vals);
      }
    }
  }
}
