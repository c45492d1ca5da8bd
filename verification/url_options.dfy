/** `JSROOT.decodeUrl` (JSRootCore.js lines 949-993): the options after `?` in
    an address, split on `&` up to `#`, where quotes protect `&`, `#` and `=`.
    `decodeURI` is a parameter (`None` standing for its URIError), and so is
    `document.URL` (`None` when there is no document or URL options are
    ignored). */
module UrlOptions {
  import opened Results
  import opened JsText

  /** The first index of `c` in `s`, or `|s|` when there is none. */
  function Find(s: string, c: char): (r: nat)
    ensures r <= |s| && (r < |s| ==> s[r] == c)
    ensures forall j | 0 <= j < r :: s[j] != c
  {
    if s == [] then 0 else if s[0] == c then 0 else 1 + Find(s[1..], c)
  }

  predicate IsQuote(c: char) {
    c == '\'' || c == '"'
  }

  /** The first index of a quote of either kind in `s`, or `|s|`. */
  function FindQuote(s: string): (r: nat)
    ensures r <= |s| && (r < |s| ==> IsQuote(s[r]))
    ensures forall j | 0 <= j < r :: !IsQuote(s[j])
  {
    if s == [] then 0 else if IsQuote(s[0]) then 0 else 1 + FindQuote(s[1..])
  }

  /** One character's effect on `nq`: 0 outside quotes, 1 inside single and -1
      inside double quotes. The other kind of quote inside a quoted run is
      plain text. `%` is JavaScript's, so `-2 % 2` closes a double quote. */
  function QuoteStep(nq: int, c: char): int {
    if c == '\'' then (if nq >= 0 then JsRem(nq + 1, 2) else nq)
    else if c == '"' then (if nq <= 0 then JsRem(nq - 1, 2) else nq)
    else nq
  }

  /** `nq` once the scan has passed `u[..i]`. */
  function Depth(u: string, i: nat): int
    requires i <= |u|
  {
    if i == 0 then 0 else QuoteStep(Depth(u, i - 1), u[i - 1])
  }

  /** The scan of one option ends at an `&` or `#` outside quotes. */
  predicate IsBreak(u: string, i: nat)
    requires i < |u|
  {
    Depth(u, i) == 0 && (u[i] == '&' || u[i] == '#')
  }

  /** Where the scan of one option stopped, the first `=` before any quote
      (or -1) and the first quote (or -1). */
  datatype Cut = Cut(pos: nat, eq: int, firstq: int)

  /** The inner `while` of lines 968-975, from position `pos` on. */
  function Scan(u: string, pos: nat, nq: int, eq: int, firstq: int): (r: Cut)
    requires pos <= |u| && -1 <= eq < pos && -1 <= firstq < pos
    ensures pos <= r.pos <= |u| && -1 <= r.eq < r.pos && -1 <= r.firstq < r.pos
    decreases |u| - pos
  {
    if pos < |u| && (nq != 0 || (u[pos] != '&' && u[pos] != '#')) then
      var c := u[pos];
      var firstq' := if IsQuote(c) && firstq < 0 then pos else firstq;
      var eq' := if c == '=' && firstq < 0 && eq < 0 then pos else eq;
      Scan(u, pos + 1, QuoteStep(nq, c), eq', firstq')
    else Cut(pos, eq, firstq)
  }

  function ScanOption(u: string): Cut {
    Scan(u, 0, 0, -1, -1)
  }

  /** Lines 978-983: `val[0] === val[val.length-1]` with a quote in front
      strips both ends; a lone quote becomes the empty string. */
  function Unquote(v: string): string {
    if |v| >= 1 && IsQuote(v[0]) && v[0] == v[|v| - 1] then
      if |v| >= 2 then v[1..|v| - 1] else ""
    else v
  }

  /** Lines 977-983. The two tests are not exclusive of a third case: an
      option with a quote and no `=` in front of it, or starting with `=`, is
      dropped. */
  function Record(u: string, c: Cut, opts: map<string, string>): map<string, string>
    requires c.pos <= |u| && -1 <= c.eq < c.pos
  {
    var o := if c.eq < 0 && c.firstq < 0 then opts[u[..c.pos] := ""] else opts;
    if c.eq > 0 then o[u[..c.eq] := Unquote(u[c.eq + 1..c.pos])] else o
  }

  /** The outer `while` of lines 964-990 over the decoded text after `?`. */
  function Options(u: string, opts: map<string, string>): map<string, string>
    decreases |u|
  {
    if u == [] then opts
    else
      var c := ScanOption(u);
      var o := Record(u, c, opts);
      if c.pos >= |u| || u[c.pos] == '#' then o else Options(u[c.pos + 1..], o)
  }

  /** The object `decodeUrl` returns: `res.url` and `res.opts`. */
  datatype UrlOpts = UrlOpts(url: Option<string>, opts: map<string, string>)

  /** The address that is parsed: the argument, or the page's own when the
      argument is empty. */
  function Address(url: string, page: Option<string>): Option<string> {
    if url != [] then Some(url) else page
  }

  function DecodeUrl(url: string, page: Option<string>, decodeURI: string -> Option<string>): (r: Result<UrlOpts>)
    ensures Address(url, page).None? ==> r == Ok(UrlOpts(None, map[]))
    ensures Address(url, page).Some? ==>
      var a := Address(url, page).value;
      && (r.Err? <==> Find(a, '?') < |a| && decodeURI(a[Find(a, '?') + 1..]).None?)
      && (r.Ok? ==> r.value.url == Some(a))
      && (Find(a, '?') == |a| ==> r == Ok(UrlOpts(Some(a), map[])))
  {
    match Address(url, page)
    case None => Ok(UrlOpts(None, map[]))
    case Some(a) =>
      var p1 := Find(a, '?');
      if p1 == |a| then Ok(UrlOpts(Some(a), map[]))
      else
        match decodeURI(a[p1 + 1..])
        case None => Err(URIError)
        case Some(d) => Ok(UrlOpts(Some(a), Options(d, map[])))
  }

  /** `res.has(opt)` */
  predicate Has(o: UrlOpts, opt: string) {
    opt in o.opts
  }

  /** `res.get(opt, dflt)`: the stored value, or the default when the option
      is absent. The default is optional; `None` is `undefined`. */
  function Get(o: UrlOpts, opt: string, dflt: Option<string>): Option<string> {
    if opt in o.opts then Some(o.opts[opt]) else dflt
  }

  // ---------------------------------------------------------------------
  // What the scan finds, stated without the scan's own variables.

  /** The first `=` in front of every quote, as `eq` holds it. */
  function EqBeforeQuote(p: string): int {
    if Find(p, '=') < FindQuote(p) then Find(p, '=') else -1
  }

  function QuoteIndex(p: string): int {
    if FindQuote(p) < |p| then FindQuote(p) else -1
  }

  /** `Find` and `FindQuote` are the only indices with their properties. */
  lemma {:induction false} FindIsFirst(s: string, c: char, k: nat)
    requires k <= |s| && (k < |s| ==> s[k] == c) && forall j | 0 <= j < k :: s[j] != c
    ensures Find(s, c) == k
  {
    if k > 0 {
      FindIsFirst(s[1..], c, k - 1);
    }
  }

  lemma {:induction false} FindQuoteIsFirst(s: string, k: nat)
    requires k <= |s| && (k < |s| ==> IsQuote(s[k])) && forall j | 0 <= j < k :: !IsQuote(s[j])
    ensures FindQuote(s) == k
  {
    if k > 0 {
      FindQuoteIsFirst(s[1..], k - 1);
    }
  }

  lemma FindSnoc(s: string, x: char, c: char)
    ensures Find(s + [x], c) == if Find(s, c) < |s| then Find(s, c) else if x == c then |s| else |s| + 1
  {
    var t := s + [x];
    var k := if Find(s, c) < |s| then Find(s, c) else if x == c then |s| else |s| + 1;
    assert forall j | 0 <= j < |s| :: t[j] == s[j];
    FindIsFirst(t, c, k);
  }

  lemma FindQuoteSnoc(s: string, x: char)
    ensures FindQuote(s + [x]) == if FindQuote(s) < |s| then FindQuote(s) else if IsQuote(x) then |s| else |s| + 1
  {
    var t := s + [x];
    var k := if FindQuote(s) < |s| then FindQuote(s) else if IsQuote(x) then |s| else |s| + 1;
    assert forall j | 0 <= j < |s| :: t[j] == s[j];
    FindQuoteIsFirst(t, k);
  }

  /** The scan stops at the first `&` or `#` outside quotes (or at the end),
      `firstq` is the first quote in front of it and `eq` the first `=` in
      front of every quote. */
  lemma {:induction false} ScanFinds(u: string, pos: nat, nq: int, eq: int, firstq: int)
    requires pos <= |u| && -1 <= eq < pos && -1 <= firstq < pos
    requires nq == Depth(u, pos) && eq == EqBeforeQuote(u[..pos]) && firstq == QuoteIndex(u[..pos])
    requires forall j | 0 <= j < pos :: !IsBreak(u, j)
    ensures var r := Scan(u, pos, nq, eq, firstq);
      && (forall j | 0 <= j < r.pos :: !IsBreak(u, j))
      && (r.pos < |u| ==> IsBreak(u, r.pos))
      && r.eq == EqBeforeQuote(u[..r.pos])
      && r.firstq == QuoteIndex(u[..r.pos])
    decreases |u| - pos
  {
    if pos < |u| && (nq != 0 || (u[pos] != '&' && u[pos] != '#')) {
      var c := u[pos];
      var firstq' := if IsQuote(c) && firstq < 0 then pos else firstq;
      var eq' := if c == '=' && firstq < 0 && eq < 0 then pos else eq;
      ScanStep(u, pos, eq, firstq);
      ScanFinds(u, pos + 1, QuoteStep(nq, c), eq', firstq');
    }
  }

  /** One character more: the bookkeeping of the loop body keeps `eq` and
      `firstq` what they are meant to be. */
  lemma ScanStep(u: string, pos: nat, eq: int, firstq: int)
    requires pos < |u| && eq == EqBeforeQuote(u[..pos]) && firstq == QuoteIndex(u[..pos])
    ensures (if IsQuote(u[pos]) && firstq < 0 then pos else firstq) == QuoteIndex(u[..pos + 1])
    ensures (if u[pos] == '=' && firstq < 0 && eq < 0 then pos else eq) == EqBeforeQuote(u[..pos + 1])
  {
    assert u[..pos + 1] == u[..pos] + [u[pos]];
    FindSnoc(u[..pos], u[pos], '=');
    FindQuoteSnoc(u[..pos], u[pos]);
  }

  lemma ScanOptionFinds(u: string)
    ensures var r := ScanOption(u);
      && (forall j | 0 <= j < r.pos :: !IsBreak(u, j))
      && (r.pos < |u| ==> IsBreak(u, r.pos))
      && r.eq == EqBeforeQuote(u[..r.pos])
      && r.firstq == QuoteIndex(u[..r.pos])
  {
    assert u[..0] == [];
    ScanFinds(u, 0, 0, -1, -1);
  }

  // ---------------------------------------------------------------------
  // A reference reading of the option text when it holds no quotes.

  predicate NoQuotes(s: string) {
    forall j | 0 <= j < |s| :: !IsQuote(s[j])
  }

  /** `s.split(c)`: the pieces between the separators, at least one. */
  function Split(s: string, c: char): (r: seq<string>)
    ensures |r| >= 1
    decreases |s|
  {
    var i := Find(s, c);
    if i == |s| then [s] else [s[..i]] + Split(s[i + 1..], c)
  }

  /** The options of a quote-free text: everything before the first `#`,
      split on `&`. A trailing empty piece counts only when a `#` ends it. */
  function Pieces(u: string): seq<string> {
    var h := Find(u, '#');
    DropEmptyEnd(Split(u[..h], '&'), h == |u|)
  }

  /** Without a `#`, the loop ends before an empty last piece. */
  function DropEmptyEnd(ps: seq<string>, open: bool): seq<string>
    requires |ps| >= 1
  {
    if open && ps[|ps| - 1] == [] then ps[..|ps| - 1] else ps
  }

  /** One quote-free option: `key` alone means `""`, `key=val` means `val`,
      and a piece starting with `=` means nothing. */
  function RecordPiece(p: string, m: map<string, string>): map<string, string> {
    var e := Find(p, '=');
    if e == |p| then m[p := ""] else if e > 0 then m[p[..e] := p[e + 1..]] else m
  }

  /** Later options overwrite earlier ones. */
  function FoldPieces(ps: seq<string>, m: map<string, string>): map<string, string>
    decreases |ps|
  {
    if ps == [] then m else FoldPieces(ps[1..], RecordPiece(ps[0], m))
  }

  lemma {:induction false} DepthOutsideQuotes(u: string, i: nat)
    requires i <= |u| && forall j | 0 <= j < i :: !IsQuote(u[j])
    ensures Depth(u, i) == 0
  {
    if i > 0 {
      DepthOutsideQuotes(u, i - 1);
    }
  }

  /** Splitting before the first `&` or `#`. */
  lemma PiecesCons(u: string, pos: nat)
    requires u != [] && pos <= |u|
    requires forall j | 0 <= j < pos :: u[j] != '&' && u[j] != '#'
    requires pos < |u| ==> u[pos] == '&' || u[pos] == '#'
    ensures pos < |u| && u[pos] == '&' ==> Pieces(u) == [u[..pos]] + Pieces(u[pos + 1..])
    ensures !(pos < |u| && u[pos] == '&') ==> Pieces(u) == [u[..pos]]
  {
    if pos == |u| {
      FindIsFirst(u, '#', |u|);
      FindIsFirst(u, '&', |u|);
      assert u[..|u|] == u;
    } else if u[pos] == '#' {
      FindIsFirst(u, '#', pos);
      FindIsFirst(u[..pos], '&', pos);
    } else {
      PiecesAtAmpersand(u, pos);
    }
  }

  lemma PiecesAtAmpersand(u: string, pos: nat)
    requires pos < |u| && u[pos] == '&'
    requires forall j | 0 <= j < pos :: u[j] != '&' && u[j] != '#'
    ensures Pieces(u) == [u[..pos]] + Pieces(u[pos + 1..])
  {
    var h := Find(u, '#');
    var v := u[pos + 1..];
    FindAfterAmpersand(u, pos);
    var h' := Find(v, '#');
    SplitAtAmpersand(u, pos, h);
    var ps' := Split(v[..h'], '&');
    assert Pieces(v) == DropEmptyEnd(ps', h' == |v|);
    assert Pieces(u) == DropEmptyEnd([u[..pos]] + ps', h == |u|);
    SplitLastPiece(u[..pos], ps', h == |u|);
  }

  lemma FindAfterAmpersand(u: string, pos: nat)
    requires pos < |u| && u[pos] == '&'
    requires forall j | 0 <= j < pos :: u[j] != '#'
    ensures pos < Find(u, '#') && Find(u[pos + 1..], '#') == Find(u, '#') - pos - 1
  {
    FindIsFirst(u[pos + 1..], '#', Find(u, '#') - pos - 1);
  }

  lemma SplitAtAmpersand(u: string, pos: nat, h: nat)
    requires pos < h <= |u| && u[pos] == '&'
    requires forall j | 0 <= j < pos :: u[j] != '&'
    ensures Split(u[..h], '&') == [u[..pos]] + Split(u[pos + 1..][..h - pos - 1], '&')
  {
    var w := u[..h];
    FindIsFirst(w, '&', pos);
    assert w[..pos] == u[..pos];
    assert w[pos + 1..] == u[pos + 1..][..h - pos - 1];
  }

  lemma SplitLastPiece(a: string, ps': seq<string>, open: bool)
    requires |ps'| >= 1
    ensures DropEmptyEnd([a] + ps', open) == [a] + DropEmptyEnd(ps', open)
  {
    var ps := [a] + ps';
    assert ps[|ps| - 1] == ps'[|ps'| - 1];
    assert ps[..|ps| - 1] == [a] + ps'[..|ps'| - 1];
  }

  /** Without quotes the scan's own bookkeeping gives the reference reading
      of one option. */
  lemma RecordWithoutQuotes(u: string, c: Cut, m: map<string, string>)
    requires c.pos <= |u| && -1 <= c.eq < c.pos && NoQuotes(u)
    requires c.eq == EqBeforeQuote(u[..c.pos]) && c.firstq == QuoteIndex(u[..c.pos])
    ensures Record(u, c, m) == RecordPiece(u[..c.pos], m)
  {
    var p := u[..c.pos];
    FindQuoteIsFirst(p, |p|);
    if c.eq > 0 {
      assert p[..c.eq] == u[..c.eq];
      assert p[c.eq + 1..] == u[c.eq + 1..c.pos];
    }
  }

  /** For a text without quotes the parser reads exactly the `&`-separated
      pieces before the first `#`, in order. */
  lemma {:induction false} QuoteFreeOptions(u: string, m: map<string, string>)
    requires NoQuotes(u)
    ensures Options(u, m) == FoldPieces(Pieces(u), m)
    decreases |u|
  {
    if u == [] {
      FindIsFirst(u, '#', 0);
      FindIsFirst(u, '&', 0);
    } else {
      var c := ScanOption(u);
      ScanOptionFinds(u);
      forall j | 0 <= j < |u|
        ensures IsBreak(u, j) <==> u[j] == '&' || u[j] == '#'
      {
        DepthOutsideQuotes(u, j);
      }
      RecordWithoutQuotes(u, c, m);
      PiecesCons(u, c.pos);
      var o := RecordPiece(u[..c.pos], m);
      if c.pos < |u| && u[c.pos] == '&' {
        var v := u[c.pos + 1..];
        QuoteFreeOptions(v, o);
        assert ([u[..c.pos]] + Pieces(v))[1..] == Pieces(v);
      } else {
        assert [u[..c.pos]][1..] == [];
      }
    }
  }

  // ---------------------------------------------------------------------
  // Quoted values.

  /** `nq` inside a run opened by the quote `q`. */
  function Inside(q: char): int {
    if q == '\'' then 1 else -1
  }

  lemma {:induction false} DepthInsideQuotes(u: string, a: nat, b: nat, q: char)
    requires IsQuote(q) && a < b <= |u| && u[a] == q && Depth(u, a) == 0
    requires forall j | a < j < b :: u[j] != q
    ensures Depth(u, b) == Inside(q)
    decreases b
  {
    if b > a + 1 {
      DepthInsideQuotes(u, a, b - 1, q);
    }
  }

  /** A value in matching quotes is unwrapped, and an `&`, `#` or `=` inside
      it is part of the value. */
  lemma QuotedValue(k: string, q: char, s: string, m: map<string, string>)
    requires k != [] && NoQuotes(k)
    requires forall j | 0 <= j < |k| :: k[j] != '=' && k[j] != '&' && k[j] != '#'
    requires IsQuote(q) && forall j | 0 <= j < |s| :: s[j] != q
    ensures Options(k + "=" + [q] + s + [q], m) == m[k := s]
  {
    var u := k + "=" + [q] + s + [q];
    var n := |k|;
    QuotedOptionCut(k, q, s);
    assert u[..n] == k;
    assert u[n + 1..|u|] == [q] + s + [q];
    assert Record(u, Cut(|u|, n, n + 1), m) == m[k := s];
  }

  /** The scan runs to the end of such an option; `=` follows the key and the
      opening quote follows `=`. */
  lemma QuotedOptionCut(k: string, q: char, s: string)
    requires NoQuotes(k)
    requires forall j | 0 <= j < |k| :: k[j] != '=' && k[j] != '&' && k[j] != '#'
    requires IsQuote(q) && forall j | 0 <= j < |s| :: s[j] != q
    ensures var u := k + "=" + [q] + s + [q];
      ScanOption(u) == Cut(|u|, |k|, |k| + 1)
  {
    var u := k + "=" + [q] + s + [q];
    var n := |k|;
    QuotedOptionHasNoBreak(k, q, s);
    ScanOptionFinds(u);
    assert u[..ScanOption(u).pos] == u;
    assert forall j | 0 <= j < n :: u[j] == k[j];
    FindIsFirst(u, '=', n);
    FindQuoteIsFirst(u, n + 1);
  }

  lemma QuotedOptionHasNoBreak(k: string, q: char, s: string)
    requires NoQuotes(k)
    requires forall j | 0 <= j < |k| :: k[j] != '&' && k[j] != '#'
    requires IsQuote(q) && forall j | 0 <= j < |s| :: s[j] != q
    ensures var u := k + "=" + [q] + s + [q];
      forall j | 0 <= j < |u| :: !IsBreak(u, j)
  {
    var u := k + "=" + [q] + s + [q];
    var n := |k|;
    assert forall j | 0 <= j < n :: u[j] == k[j];
    assert u[n] == '=' && u[n + 1] == q;
    assert forall j | n + 2 <= j < |u| - 1 :: u[j] == s[j - n - 2];
    DepthOutsideQuotes(u, n + 1);
    forall j | 0 <= j < |u|
      ensures !IsBreak(u, j)
    {
      if j <= n + 1 {
        DepthOutsideQuotes(u, j);
      } else {
        DepthInsideQuotes(u, n + 1, j, q);
      }
    }
  }

  /** Through `decodeUrl`: when the decoded text after the first `?` holds no
      quotes, the options are the reference reading of that text. */
  lemma DecodeQuoteFreeUrl(url: string, page: Option<string>, decodeURI: string -> Option<string>)
    requires Address(url, page).Some?
    requires var a := Address(url, page).value;
      && Find(a, '?') < |a|
      && decodeURI(a[Find(a, '?') + 1..]).Some?
      && NoQuotes(decodeURI(a[Find(a, '?') + 1..]).value)
    ensures var a := Address(url, page).value;
      var d := decodeURI(a[Find(a, '?') + 1..]).value;
      DecodeUrl(url, page, decodeURI) == Ok(UrlOpts(Some(a), FoldPieces(Pieces(d), map[])))
  {
    var a := Address(url, page).value;
    QuoteFreeOptions(decodeURI(a[Find(a, '?') + 1..]).value, map[]);
  }

  /** Text with no quote, `=`, `&` or `#`: a key or value that needs no care. */
  predicate Plain(s: string) {
    forall j | 0 <= j < |s| :: !IsQuote(s[j]) && s[j] != '=' && s[j] != '&' && s[j] != '#'
  }

  /** The shape of the documentation comment's example `opt1&op2=3`: a bare
      key maps to the empty string and `key=value` to the value. */
  lemma BareKeyAndValue(k1: string, k2: string, v: string, m: map<string, string>)
    requires k2 != [] && Plain(k1) && Plain(k2) && Plain(v)
    ensures Options(k1 + "&" + k2 + "=" + v, m) == m[k1 := ""][k2 := v]
  {
    var w := k2 + "=" + v;
    assert k1 + "&" + k2 + "=" + v == k1 + "&" + w;
    TwoPieces(k1, w);
    QuoteFreeOptions(k1 + "&" + w, m);
    FoldTwo(k1, w, m);
    PlainRecord(k1, k2, v, m);
  }

  /** The example of the documentation comment, `decodeUrl("any?opt1&op2=3")`,
      with `decodeURI` leaving that option text alone: `opt1` is present with
      the empty value, `op2` is "3", and an absent option gives the default,
      or `undefined` without one. The comment reads `get("opt2")` and expects
      "3"; the stored key is `op2`, so that call gives `undefined`. */
  lemma DocumentedExample(decodeURI: string -> Option<string>)
    requires decodeURI("opt1&op2=3") == Some("opt1&op2=3")
    ensures var r := DecodeUrl("any?opt1&op2=3", None, decodeURI);
      && r.Ok? && r.value.url == Some("any?opt1&op2=3")
      && Has(r.value, "opt1") && Get(r.value, "opt1", None) == Some("")
      && Get(r.value, "op2", None) == Some("3")
      && !Has(r.value, "opt2") && Get(r.value, "opt2", None) == None
      && Get(r.value, "opt3", Some("-")) == Some("-")
  {
    var opts := ExampleOptions(decodeURI);
    ExampleLookups(opts);
  }

  /** The decoding of the example address, up to its option map. */
  lemma ExampleOptions(decodeURI: string -> Option<string>) returns (opts: map<string, string>)
    requires decodeURI("opt1&op2=3") == Some("opt1&op2=3")
    ensures opts == map["opt1" := ""]["op2" := "3"]
    ensures DecodeUrl("any?opt1&op2=3", None, decodeURI) == Ok(UrlOpts(Some("any?opt1&op2=3"), opts))
  {
    ExampleQuery();
    ExampleParts();
    BareKeyAndValue("opt1", "op2", "3", map[]);
    opts := map["opt1" := ""]["op2" := "3"];
    DecodedOptions("any?opt1&op2=3", 3, "opt1&op2=3", decodeURI);
  }

  /** `decodeUrl` of an address with `?` reads the options of the decoded
      text after the first one. */
  lemma DecodedOptions(a: string, p: nat, d: string, decodeURI: string -> Option<string>)
    requires a != [] && p < |a| && Find(a, '?') == p && decodeURI(a[p + 1..]) == Some(d)
    ensures DecodeUrl(a, None, decodeURI) == Ok(UrlOpts(Some(a), Options(d, map[])))
  {
    assert Address(a, None) == Some(a);
  }

  lemma ExampleQuery()
    ensures Find("any?opt1&op2=3", '?') == 3
    ensures "any?opt1&op2=3"[4..] == "opt1&op2=3"
  {
    FindIsFirst("any?opt1&op2=3", '?', 3);
  }

  lemma ExampleParts()
    ensures Plain("opt1") && Plain("op2") && Plain("3")
    ensures "opt1" + "&" + "op2" + "=" + "3" == "opt1&op2=3"
  {
  }

  lemma ExampleLookups(opts: map<string, string>)
    requires opts == map["opt1" := ""]["op2" := "3"]
    ensures var o := UrlOpts(Some("any?opt1&op2=3"), opts);
      && Has(o, "opt1") && Get(o, "opt1", None) == Some("")
      && Get(o, "op2", None) == Some("3")
      && !Has(o, "opt2") && Get(o, "opt2", None) == None
      && Get(o, "opt3", Some("-")) == Some("-")
  {
    assert "opt2" != "opt1" && "opt2" != "op2" by {
      assert "opt2"[3] != "opt1"[3] && |"opt2"| != |"op2"|;
    }
    assert "opt3" != "opt1" && "opt3" != "op2" by {
      assert "opt3"[3] != "opt1"[3] && |"opt3"| != |"op2"|;
    }
  }

  lemma PlainRecord(k1: string, k2: string, v: string, m: map<string, string>)
    requires k2 != [] && Plain(k1) && Plain(k2)
    ensures RecordPiece(k2 + "=" + v, RecordPiece(k1, m)) == m[k1 := ""][k2 := v]
  {
    var w := k2 + "=" + v;
    assert forall j | 0 <= j < |k2| :: w[j] == k2[j];
    FindIsFirst(k1, '=', |k1|);
    FindIsFirst(w, '=', |k2|);
    assert w[..|k2|] == k2 && w[|k2| + 1..] == v;
  }

  lemma TwoPieces(a: string, w: string)
    requires Plain(a) && forall j | 0 <= j < |w| :: !IsQuote(w[j]) && w[j] != '&' && w[j] != '#'
    ensures NoQuotes(a + "&" + w)
    ensures w != [] ==> Pieces(a + "&" + w) == [a, w]
  {
    var u := a + "&" + w;
    var n := |a|;
    assert forall j | 0 <= j < n :: u[j] == a[j];
    assert u[n] == '&' && u[..n] == a && u[n + 1..] == w;
    assert forall j | n < j < |u| :: u[j] == w[j - n - 1];
    if w != [] {
      PiecesAtAmpersand(u, n);
      PiecesCons(w, |w|);
      assert w[..|w|] == w;
    }
  }

  lemma FoldTwo(a: string, b: string, m: map<string, string>)
    ensures FoldPieces([a, b], m) == RecordPiece(b, RecordPiece(a, m))
  {
    assert [a, b][1..] == [b];
    assert [b][1..] == [];
    assert FoldPieces([b], RecordPiece(a, m)) == FoldPieces([], RecordPiece(b, RecordPiece(a, m)));
  }
}
