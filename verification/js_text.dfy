/** The few pieces of JavaScript's string and number semantics the core relies on:
    `parseInt` with no radix, decimal rendering of a count, and the truncating `%`. */
module JsText {
  import opened Results

  predicate StartsWith(s: string, prefix: string) {
    |prefix| <= |s| && s[..|prefix|] == prefix
  }

  /** ECMAScript StrWhiteSpaceChar: white space and line terminators, which
      `parseInt` skips in front of the number. */
  predicate IsJsWhiteSpace(c: char) {
    var n := c as int;
    n == 0x09 || n == 0x0A || n == 0x0B || n == 0x0C || n == 0x0D || n == 0x20
    || n == 0xA0 || n == 0x1680 || (0x2000 <= n <= 0x200A) || n == 0x2028
    || n == 0x2029 || n == 0x202F || n == 0x205F || n == 0x3000 || n == 0xFEFF
  }

  predicate IsDigitOf(c: char, radix: nat) {
    if radix == 16 then ('0' <= c <= '9') || ('a' <= c <= 'f') || ('A' <= c <= 'F')
    else '0' <= c <= '9'
  }

  function DigitValue(c: char): nat {
    if '0' <= c <= '9' then c as int - '0' as int
    else if 'a' <= c <= 'f' then c as int - 'a' as int + 10
    else if 'A' <= c <= 'F' then c as int - 'A' as int + 10
    else 0
  }

  function TrimStart(s: string): string {
    if s != [] && IsJsWhiteSpace(s[0]) then TrimStart(s[1..]) else s
  }

  /** The longest prefix of `s` made of digits of the radix. */
  function DigitRun(s: string, radix: nat): string {
    if s != [] && IsDigitOf(s[0], radix) then [s[0]] + DigitRun(s[1..], radix) else []
  }

  /** The number a string of digits denotes, most significant digit first. */
  function ValueOf(d: string, radix: nat): nat {
    if d == [] then 0 else ValueOf(d[..|d| - 1], radix) * radix + DigitValue(d[|d| - 1])
  }

  /** `parseInt(s)` with no radix; `None` is NaN. White space is skipped, one sign
      is accepted, a `0x`/`0X` prefix switches to hexadecimal, and the longest run
      of digits that follows is the number. */
  function ParseInt(s: string): Option<int> {
    var t := TrimStart(s);
    var sign := if t != [] && t[0] == '-' then -1 else 1;
    var u := if t != [] && (t[0] == '-' || t[0] == '+') then t[1..] else t;
    var hex := |u| >= 2 && u[0] == '0' && (u[1] == 'x' || u[1] == 'X');
    var radix := if hex then 16 else 10;
    var d := DigitRun(if hex then u[2..] else u, radix);
    if d == [] then None else Some(sign * ValueOf(d, radix))
  }

  /** `String(n)` for a non-negative integer. */
  function DecimalText(n: nat): string
    decreases n
  {
    if n < 10 then ["0123456789"[n]] else DecimalText(n / 10) + ["0123456789"[n % 10]]
  }

  lemma {:induction false} DecimalTextDigits(n: nat)
    ensures DecimalText(n) != []
    ensures forall i :: 0 <= i < |DecimalText(n)| ==> '0' <= DecimalText(n)[i] <= '9'
    decreases n
  {
    if n >= 10 {
      DecimalTextDigits(n / 10);
      var h, c := DecimalText(n / 10), "0123456789"[n % 10];
      assert DecimalText(n) == h + [c];
      forall i | 0 <= i < |h + [c]|
        ensures '0' <= (h + [c])[i] <= '9'
      {
        if i < |h| {
          assert (h + [c])[i] == h[i];
        }
      }
    }
  }

  lemma {:induction false} DecimalTextValue(n: nat)
    ensures ValueOf(DecimalText(n), 10) == n
    decreases n
  {
    if n >= 10 {
      DecimalTextValue(n / 10);
      var t := DecimalText(n);
      assert t[..|t| - 1] == DecimalText(n / 10);
    }
  }

  lemma {:induction false} DigitRunOfDigits(s: string)
    requires forall i :: 0 <= i < |s| ==> '0' <= s[i] <= '9'
    ensures DigitRun(s, 10) == s
    decreases |s|
  {
    if s != [] {
      DigitRunOfDigits(s[1..]);
    }
  }

  /** `parseInt` reads back exactly the number `String(n)` wrote. */
  lemma ParseIntOfDecimalText(n: nat)
    ensures ParseInt(DecimalText(n)) == Some(n)
  {
    var t := DecimalText(n);
    DecimalTextDigits(n);
    DecimalTextValue(n);
    DigitRunOfDigits(t);
    assert TrimStart(t) == t;
    if n >= 10 {
      DecimalTextDigits(n / 10);
      assert t[1] == (DecimalText(n / 10) + ["0123456789"[n % 10]])[1];
    }
  }

  /** JavaScript's `a % b`: the remainder takes the sign of the dividend. */
  function JsRem(a: int, b: int): (r: int)
    requires b != 0
    ensures a >= 0 ==> r >= 0
    ensures a < 0 ==> r <= 0
    ensures (if r < 0 then -r else r) == (if a < 0 then -a else a) % (if b > 0 then b else -b)
  {
    var m := if b > 0 then b else -b;
    if a >= 0 then a % m else -((-a) % m)
  }
}
