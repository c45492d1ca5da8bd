# JSROOT reference JSON, URL options, histogram cells and the drawable request table

A Dafny model of the core of JSROOT, the JavaScript ROOT browser library:

- **`JSROOT.parse`** (`RefDecoder`, `RootArrays`, `TypedArrays`, `JsText`). It is the reference-resolving JSON decoder. A depth-first walk over the parsed document does three things:
  - It numbers every ordinary object in an object table.
  - It replaces back-references by table entries. References come in two dialects: the object form `{"$ref": N}` and the legacy string form `"$ref:N"`. The first resolved reference locks the document to its dialect.
  - It expands `{"$arr": kind, "len": n, ...}` into typed buffers and rewrites `$pair` objects into `{first, second, _typename}`.
- **`JSROOT.toJSON`** (`RefEncoder`). The encoder numbers objects in the order it first emits them. It writes `{"$ref": i}` for an object it meets again, copies pairs without a number, drops functions and flattens typed arrays.
- **The round trip** (`RoundTrip`). For plain object graphs, parsing the encoder's document gives the graph back, renumbered in emission order.
- **`decodeUrl`** (`UrlOptions`). It parses the options after `?`, splits them on `&` and stops at `#`. Quotes protect `&`, `#` and `=`, and a quoted value is unwrapped.
- **`JSROOT.CreateHistogram` and `getBin`** (`Histograms`). They give the cell count, the zero-filled content and the linearisation of a cell `(x, y, z)`.
- **TList `Add`, `AddFirst` and `RemoveAt`** (`TLists`). These are two parallel arrays.
- **The drawable request table of `RCanvasPainter`** (`DrawableRequests`). `submitDrawableRequest` and `processDrawableReply` make a state machine built from these parts:
  - a reqid counter;
  - the `_submreq` table;
  - one in-flight slot per painter and kind, with a 5000 ms staleness rule;
  - a one-deep `_nextreq` queue.
- **`RPalette.getContourIndex`** (`Palette`). It is the custom-contour bisection.

## Design

**Object identity is an index.** The decoder threads a `DecState` through pure functions:
- `count` is `map.length`;
- `done` holds the decoded members of each finished entry;
- the dialect is `Undecided`, `Legacy` or `Current`.

A numbered object is `VRef(k)` wherever it appears. Objects the decoder never numbers, such as pairs, unresolved `{"$ref": N}` and raw objects, cannot be shared in a JSON tree. They stay inline as `VRec`. The encoder takes an explicit heap of objects, so sharing and cycles through objects are visible in the input. Arrays are inline values, so an array cannot be shared or contain itself.

**Foreign calls are parameters.** These include `JSON.parse`, `atob`, `decodeURI`, `document.URL` and the float view of a typed array's bytes.

**Other modelling choices:**
- Thrown exceptions are `Err` values of `Results.Result`.
- JavaScript's `%` is written out as `JsText.JsRem`.
- Typed-array stores wrap modulo 2^(8·width), as `TypedArrays.Wrap` states.
- The request table passes the clock (`now`) in explicitly.
- "Send" appends a `Msg` to an outbox.
- Running a callback appends a `Call` to a log.

**Behaviour of the code worth noting:**
- `$arr` and `$pair` are special only while the legacy dialect is not locked in. Under the legacy dialect they are ordinary objects and take a table index.
- A `$pair` locks the current dialect, as a resolved `{"$ref": N}` does.
- The root's own replacement is discarded (`unref_value(obj); return obj`). So a document whose root is an `$arr` object comes back undecoded, although its decoding runs and can throw.

## Model

| member | source | states |
|---|---|---|
| JsText.ParseIntOfDecimalText | scripts/JSRootCore.js:684 | `parseInt` reads back exactly the number `String(N)` writes, so every table index can be named by a legacy reference |
| JsText.JsRem | scripts/JSRootCore.js:972-973 | JavaScript's `%`: the result has the sign of the dividend and the magnitude of the absolute remainder |
| TypedArrays.KindOf | scripts/JSRootCore.js:714-727 | the `$arr` tag names a typed array exactly for the ten numeric kinds; Int64, Uint64 and Float64 share the Float64 buffer; only the tag "Bool" defaults to `false` |
| TypedArrays.WrapKeepsRepresentable | scripts/JSRootCore.js:716-721 | a value stored into an integer typed array ends up in the kind's range, and a value already in range is stored unchanged |
| TypedArrays.LittleEndianRoundTrip | scripts/JSRootCore.js:738-741 | reading back the little-endian bytes written for a number below 256^w gives the number |
| TypedArrays.ElementsOfEncoded | scripts/JSRootCore.js:738-741 | the element view of the bytes written for a list of integers is that list, each element wrapped to its kind |
| TypedArrays.Overlay | scripts/JSRootCore.js:737-741 | the byte overlay keeps the buffer length, copies data byte k to offset o+k while both exist, and leaves every other byte alone |
| TypedArrays.OverlayCopiesPrefix | scripts/JSRootCore.js:738-741 | the overlay writes exactly min(data length, buffer bytes − o) bytes starting at o |
| RootArrays.Overwrite | scripts/JSRootCore.js:753-758 | consecutive stores from position p: cells inside the written window take the new values, others keep theirs; a typed array keeps its length, a plain Array grows with holes |
| RootArrays.Runs | scripts/JSRootCore.js:747-761 | the compressed coding fails whenever its member list does not read as runs (a stray member, a missing value, a count below 1, an array-like `v*` object); on a plain Array it succeeds exactly when the list reads as runs; it keeps a typed buffer's kind and length and never shrinks a plain Array |
| RootArrays.ObjectRunWritesNothing | scripts/JSRootCore.js:751-754 | a `v*` object without `length` writes no cell and leaves the position where it was (`0 < undefined` is false); one with `length` stops the model with `NotModelled` |
| RootArrays.BareArrayIsDefaultFilled | scripts/JSRootCore.js:714-728 | an `$arr` with only a length is a buffer of exactly `len` default cells: `false` for Bool, 0 otherwise |
| RootArrays.PlainRunsLastWriteWins | scripts/JSRootCore.js:747-761 | in a plain Array (tag `Bool` or an unknown tag), after the runs each cell holds the value of the last run covering it; a cell no run covers keeps its old value, or is a hole past the old end; the Array never shrinks |
| RootArrays.TypedRunsLastWriteWins | scripts/JSRootCore.js:747-761 | after the position/value/count runs, each cell holds the value of the last run covering it, converted to the element kind, or its default when no run covers it |
| RootArrays.CountedRunFillsCells | scripts/JSRootCore.js:749-759 | `p`, `v`, `n` = q, x, cnt writes x into cnt consecutive cells from q (the first write plus cnt − 1 repeats) and nothing else |
| RootArrays.UnexpectedMemberThrows | scripts/JSRootCore.js:749-750 | a member other than `p*` or `v*` where a value is expected, or a non-`v*` member after a position, throws "Unexpected member" naming that key |
| RootArrays.Base64OverlaysBytes | scripts/JSRootCore.js:730-744 | with a `b` member, a typed array's bytes are the zero buffer overlaid with the decoded bytes at offset `o` (0 when absent); a plain Array throws |
| RootArrays.CompressedInt8Example | scripts/JSRootCore.js:747-761 | `{"$arr":"Int8","len":5,"p":0,"v":7,"n":3,"p1":3,"v1":9}` decodes to `[7,7,7,9,0]` |
| RootArrays.ArrayHasNoRefs | scripts/JSRootCore.js:712-765 | a decoded array never refers to a table entry: its contents are copied values, never resolved |
| RefDecoder.Unref | scripts/JSRootCore.js:679-789 | a walk only numbers new objects, finishes every object it numbers, never changes a finished entry, moves the dialect only away from undecided, and every reference it produces names a numbered object |
| RefDecoder.Decode | scripts/JSRootCore.js:791-793 | the decoded root and every table entry refer only to entries of the table |
| RefDecoder.Parse | scripts/JSRootCore.js:672-677 | a falsy argument gives null, unparsable text a SyntaxError, parsable text the decoding of its document, and any success is closed under references |
| RefDecoder.LegacyStringRef | scripts/JSRootCore.js:682-688 | `"$ref:N"` is replaced by entry N and locks the legacy dialect exactly when the object dialect is not locked and N < map.length; otherwise the string and the state are unchanged |
| RefDecoder.StringsStayLiteralAfterObjectRefs | scripts/JSRootCore.js:683 | once the current dialect is locked, every string decodes to itself |
| RefDecoder.ObjectRef | scripts/JSRootCore.js:705-710 | `{"$ref": N}` is replaced by entry N and locks the current dialect exactly when N is numbered, stays as it is (unnumbered) when not, and under the legacy dialect is an ordinary numbered object |
| RefDecoder.ObjectIsFinished | scripts/JSRootCore.js:778-788 | an ordinary object takes the next table index and its entry holds its members decoded after that index was taken |
| RefDecoder.ObjectSeesItself | scripts/JSRootCore.js:778-788 | a member that refers to the enclosing object's own index resolves to the enclosing object |
| RefDecoder.UnrefFieldsKeepsNames | scripts/JSRootCore.js:784-788 | decoding an object's members keeps their names and order |
| RefDecoder.LegacyObjectsAreNumbered | scripts/JSRootCore.js:705-788 | under the legacy dialect, `$ref`, `$arr` and `$pair` objects are ordinary: numbered, members kept, dialect unchanged |
| RefDecoder.PairIsRewritten | scripts/JSRootCore.js:767-776 | any `$pair` object becomes `{first, second, _typename}`: `first` is decoded under the current dialect, then `second` in the state `first` leaves, and the tag moves to `_typename`; the pair takes no index of its own; the decoding fails exactly when `first` or `second` fails |
| RefDecoder.ScalarPairIsRewritten | scripts/JSRootCore.js:767-776 | a `$pair` of scalars keeps its values, is not numbered, and only locks the current dialect |
| RefDecoder.CodedArrayIsNotNumbered | scripts/JSRootCore.js:712-765 | outside the legacy dialect an `$arr` object is replaced by its decoded buffer (failing exactly when the decoding fails) without touching the table; under the legacy dialect it is numbered |
| RefDecoder.RootArrayIsReturnedRaw | scripts/JSRootCore.js:791-793 | a root `$arr` object is returned as the raw object with an empty table, and the parse fails exactly when its decoding fails |
| RefEncoder.CopyValue | scripts/JSRootCore.js:890-927 | copying only appends to the emitted-object map, and a value is dropped (undefined) exactly when it is undefined or a function |
| RefEncoder.CopyKeepsDefinedNames | scripts/JSRootCore.js:921-924 | the copy of an object has exactly the member names whose values are neither undefined nor functions, in the original order |
| RefEncoder.Encode | scripts/JSRootCore.js:885-931 | the encoder writes nothing exactly when the argument is not an object |
| RefEncoder.RevisitEmitsRef | scripts/JSRootCore.js:906-907 | an object already emitted is written as `{"$ref": k}`, with k its position in the map, and nothing changes |
| RefEncoder.FirstVisitNumbers | scripts/JSRootCore.js:919-926 | an ordinary object met for the first time takes the next number and is written with its defined member names |
| RefEncoder.ScalarCopy | scripts/JSRootCore.js:893 | null, booleans, numbers and strings are copied as themselves, and nothing is numbered |
| RefEncoder.PairIsNotNumbered | scripts/JSRootCore.js:911-917 | a `$pair` object never enters the map; a copy fails when its `$pair` value cannot be written; a successful copy is an object with exactly the defined names among `$pair`, `first`, `second`, its `$pair` member is the written tag, and when `first` and `second` hold no references the encoder state is unchanged |
| RefEncoder.ScalarPairCopy | scripts/JSRootCore.js:911-917 | a `$pair` object whose three values are scalars is written as the object `$pair`, `first`, `second` holding those values, and the encoder state is unchanged |
| RefEncoder.SelfPairOverflows | scripts/JSRootCore.js:911-917 | a pair whose `first` is itself is copied without end, since pairs are never entered in the map: the encoder overflows the stack |
| RoundTrip.ParseUndoesToJson | scripts/JSRootCore.js:880-932 | parsing the document the encoder writes for a plain object graph gives back its root and, at table index k, the k-th object the encoder numbered, with every reference renamed to that numbering |
| RoundTrip.RootObjectIsOrdinary | scripts/JSRootCore.js:929 | the document written for a root object is an ordinary object, so the decoder does not discard it as a root `$arr` |
| UrlOptions.DecodeUrl | scripts/JSRootCore.js:949-964 | with no address the result is empty; it fails exactly when `decodeURI` of the text after the first `?` fails; the url is kept; without `?` there are no options |
| UrlOptions.DocumentedExample | scripts/JSRootCore.js:943-953 | `decodeUrl("any?opt1&op2=3")` has `opt1`, whose value is `""`; `op2` is `"3"`; `get("opt3", "-")` gives the default `"-"`; the comment's `get("opt2")` finds no option (the stored key is `op2`) and gives `undefined` |
| UrlOptions.ScanOptionFinds | scripts/JSRootCore.js:969-977 | one option ends at the first `&` or `#` outside quotes; `eq` is the first `=` before any quote and `firstq` the first quote |
| UrlOptions.QuoteFreeOptions | scripts/JSRootCore.js:966-990 | without quotes, the options are the `&`-separated pieces before the first `#` read in order: `key` means `""`, `key=val` means `val`, and a later piece overwrites an earlier one |
| UrlOptions.DecodeQuoteFreeUrl | scripts/JSRootCore.js:949-990 | for an address with `?` whose decoded option text has no quotes, the options are that piece-by-piece reading |
| UrlOptions.QuotedValue | scripts/JSRootCore.js:970-984 | `key='value'` (or with double quotes) stores the value unwrapped, even when it contains `&`, `#` or `=` |
| UrlOptions.BareKeyAndValue | scripts/JSRootCore.js:979-990 | `k1&k2=v` stores `""` for k1 and `v` for k2 |
| Histograms.CreateHistogram | scripts/JSRootCore.js:1609-1634 | a histogram exists exactly for the TH1/TH2/TH3 classes and their C/S/I/F/D variants; a non-zero bin count sets that axis to n bins on [0, n] and a zero count keeps the default axis of one bin on [0, 1]; a positive cell count comes with that many zero cells; otherwise the content stays the class default |
| Histograms.CreatedIsWellShaped | scripts/JSRootCore.js:1613-1631 | with positive bin counts, each of the three axes gets n bins on [0, n], the cell count is the product of (n+2) over those axes, and all cells are 0 |
| Histograms.GetBinIsOneToOne | scripts/JSRootCore.js:1904-1933 | `getBin` maps each cell (underflow and overflow included) into the content array, and the cell can be recovered from the bin |
| Histograms.EveryBinIsACell | scripts/JSRootCore.js:1904-1933 | every index of the content array is `getBin` of exactly one cell |
| Histograms.FreshCellsAreEmpty | scripts/JSRootCore.js:1621-1631 | every cell of a freshly created histogram reads 0 through `getBin` |
| TLists.Add | scripts/JSRootCore.js:1731-1734 | `Add` appends the object and its option (or `""`) at the end of both arrays, keeping the old entries |
| TLists.AddFirst | scripts/JSRootCore.js:1735-1738 | `AddFirst` puts the object and its option at the front of both arrays, shifting the old entries |
| TLists.RemoveAt | scripts/JSRootCore.js:1739-1742 | `RemoveAt` drops the same position from both arrays, with a negative index counting from the end, and one past the end removes nothing |
| TLists.RemoveUndoesAdd | scripts/JSRootCore.js:1731-1742 | removing the appended element by its index or by -1 gives the list back |
| TLists.RemoveUndoesAddFirst | scripts/JSRootCore.js:1735-1742 | removing index 0 after `AddFirst` gives the list back |
| DrawableRequests.Submit | modules/gpad/RCanvasPainter.mjs:328-377 | refused exactly without websocket, request or snapid; deferred exactly when a request with a kind and a callback finds the painter's slot for that kind held by a request younger than 5000 ms or unstamped, and then only that request's `_nextreq` changes; only an accepted request is sent, once; a request with a callback gets the next reqid and is remembered; one without gets reqid 0 and is not; an accepted request with a kind and a callback takes the painter's slot for that kind, and any other leaves the slots alone |
| DrawableRequests.Send | modules/gpad/RCanvasPainter.mjs:348-376 | an accepted request is appended to the outbox with the painter's snapid and its reqid; with a kind and a callback it takes the painter's slot for that kind, otherwise the slots are unchanged |
| DrawableRequests.SecondRequestIsParked | modules/gpad/RCanvasPainter.mjs:333-348 | a second request of the same kind from the same painter, less than 5000 ms after the first was accepted, is parked as the first one's `_nextreq` and nothing more is sent |
| DrawableRequests.Process | modules/gpad/RCanvasPainter.mjs:411-432 | a reply retires a request exactly when its reqid is waiting; otherwise nothing changes; a retired request leaves the table and its callback runs once |
| DrawableRequests.Retire | modules/gpad/RCanvasPainter.mjs:418-428 | the entry is removed, the painter's slot is cleared only if it still holds this request, and the callback is logged once |
| DrawableRequests.FreshIdIsNew | modules/gpad/RCanvasPainter.mjs:352-353 | the next reqid is never in use by a waiting request |
| DrawableRequests.YoungRequestBlocks | modules/gpad/RCanvasPainter.mjs:333-346 | a request whose kind is held by a request younger than 5000 ms (or without a time stamp) is parked as its `_nextreq`: nothing is sent and nothing else changes |
| DrawableRequests.StaleRequestIsReplaced | modules/gpad/RCanvasPainter.mjs:340-349 | after 5000 ms the new request is sent under a fresh reqid and takes the slot, while the old one keeps waiting for its reply |
| DrawableRequests.RequestIdsCount | modules/gpad/RCanvasPainter.mjs:351-354 | on a fresh canvas the first request with a callback gets reqid 1, and each later one the next number |
| DrawableRequests.FireAndForget | modules/gpad/RCanvasPainter.mjs:351-357 | a request without a callback is sent with reqid 0 and changes nothing but the outbox |
| DrawableRequests.ReplyRetires | modules/gpad/RCanvasPainter.mjs:411-432 | a reply frees the slot the request held; a parked request is resubmitted with the same kind, painter and callback when the slot is free, and otherwise nothing more happens |
| DrawableRequests.ParkedRequestIsSent | modules/gpad/RCanvasPainter.mjs:430-431 | when a reply arrives for a request with a parked successor and the slot is free, the successor is sent under the next reqid |
| DrawableRequests.ReplyUndoesSubmit | modules/gpad/RCanvasPainter.mjs:328-432 | submitting a kindless request with a callback and then processing its reply leaves the table and slots as before and logs the callback once |
| Palette.GetContourIndex | modules/gpad/RCanvasPainter.mjs:866-878 | -1 below the first level, r−1 at or above the last, and otherwise an l with `cntr[l] <= zc < cntr[l+1]` |
| Palette.GetContourIndexCounts | modules/gpad/RCanvasPainter.mjs:866-878 | for ascending levels the bisection returns the number of levels at or below zc, minus one |
| Palette.CountLocatesBin | modules/gpad/RCanvasPainter.mjs:872-877 | for ascending levels, `cntr[l] <= zc < cntr[l+1]` holds for exactly one l: the count of levels at or below zc, minus one |
| Palette.CountAllBelow | modules/gpad/RCanvasPainter.mjs:869-870 | when zc is at or above the last ascending level, every level counts |

## Left out

- Numbers are integers. JSON numbers, axis limits and typed-array elements are `int`; contour levels are `real`. IEEE rounding and Float32/Float64 element conversion are not modelled, and float typed arrays are read through the `FloatView` parameter.
- A parsed document is assumed to have unique member keys in `Object.keys` order. `Json.Lookup` takes the first member of a key while `JSON.parse` keeps the last value of a repeated key; with unique keys they agree. Integer-like keys, which `Object.keys` lists first in ascending order, are expected to arrive already in that order from the `JSON.parse` parameter.
- `atob`, `JSON.parse`, `decodeURI` and `document.URL` are parameters. Base64 text decoding, JSON syntax and percent-decoding are foreign code.
- `JSROOT.addMethods` (scripts/JSRootCore.js:782, 2060-2062) is not modelled. Through `JSROOT.extend` (scripts/JSRootCore.js:799-806) it copies the methods of `getMethods` onto every decoded object with `_typename` as own function-valued properties; `getMethods` adds `TestBit` and `InvertBit` to any object with `fBits` (scripts/JSRootCore.js:1718-1722). A data member of the same name is overwritten. The model's decoded values hold data only.
- RefDecoder.Parse: the argument is a JSON tree. The source also accepts any pre-built object, including shared sub-objects, cycles, functions and typed arrays; these are not modelled. The source rewrites the caller's object in place; the model returns a new value and says nothing about the argument afterwards.
- RefEncoder.PairIsNotNumbered: a `$pair` value that is an array or object is not modelled. The source copies it as is (scripts/JSRootCore.js:912) and `JSON.stringify` writes it in full; in the model the copy fails with `NotModelled`.
- Runs: a `v*` object with a `length` member is not modelled. The source reads it as an array-like object and writes `length` cells from `v[0]`, `v[1]`, … (undefined cells store 0 in a typed array), moving the position forward; the model stops with `NotModelled`.
- `while (--cnt)` with a count of 0 or less never ends in JavaScript. The model returns an error for it.
- ToNumber and ToIndex coercions of strings, arrays and objects are not followed: a non-number `len`, `p`, `o` or `n*` count, and a string stored into a typed array. The model returns a `NotModelled` error for them.
- Array length limits are not modelled. `new Array(len)` throws a RangeError for `len` of 2^32 or more, and typed-array constructors throw past the engine's length limit; the model builds a buffer for any `len >= 0`.
- Array index limits are not modelled. A store `arr[p]` with `p >= 2^32 - 1` sets an ordinary property of a plain Array and does not grow it; the model grows the Array to `p + 1` cells.
- Arrays that contain themselves are not representable: arrays are inline values, not heap objects. The encoder never puts arrays into `map` (scripts/JSRootCore.js:899-902), so the source recurses on such an array until the stack overflows with a RangeError; the model has no input for that case.
- `JSON.stringify` of the copied tree is not modelled; the encoder's result is the tree itself. A non-object argument gives no document instead of `""`.
- RoundTrip.ParseUndoesToJson: restricted to plain graphs. Strings that look like `"$ref:N"`, `$pair`/`$arr`/`$ref` key shapes, undefined members, functions and typed arrays are excluded. Each of these changes on the way through by design.
- The websocket transport, `sendWebsocket` and `JSON.stringify` of a request are not modelled. A sent message is `Msg(request, snapid, reqid)` in the outbox.
- Callbacks are logged as `Call(callback, reqid)`, not run. So a callback that submits further requests is outside the model.
- The `_typename` test on a request is folded into the request being present. The same request object submitted twice is not modelled, since the model has no object identity for requests.
- The painter is stored in a pending request by value. The source keeps a live reference (`req._painter`) and resubmits through it, so a `snapid` changed while the request waits is what the source's refusal test reads; in the model the painter's `snapid` is frozen at submission.
- `new Date().getTime()` is read twice in the source; the model reads the clock once, as the parameter `now`.
- `JSROOT.Create` is modelled only for the fields `CreateHistogram` uses: the axes, `fNcells` and `fArray`. `fName` and `fTitle` are not kept.
- `Fill`, `getBinContent`, `getBinError` and `setBinContent` are left out. They are float bin arithmetic.
- The non-custom branch of `getContourIndex` is left out. It is a floating-point formula.
- `decodeUrl` options named like `Object.prototype` members (`has("toString")`) are left out. JavaScript finds those through the prototype chain; the model's option map has only the parsed options.
- Palette.GetContourIndex: the order of equal or descending levels is not constrained. The bracketing postcondition is the one the source's loop guarantees for any level sequence.
