/** The JavaScript values the two engines look at, and the few built-in operations
    on them (truthiness, `typeof`, `in`, string search and slicing) they rely on. */
module Js {
  import opened Wrappers

  /** One constructor per runtime shape the engines tell apart. Numbers are exact
      reals; arrays and plain objects are values (no identity); `Fn` carries the
      function's source text, `Err` an Error instance's name and message. */
  datatype JsValue =
    | Undef
    | Null
    | Bool(b: bool)
    | Num(n: real)
    | Str(s: string)
    | Arr(elems: seq<JsValue>)
    | Obj(props: map<string, JsValue>)
    | Regex(source: string, flags: string)
    | Fn(code: string)
    | Err(name: string, message: string)

  /** `!!v` */
  predicate Truthy(v: JsValue) {
    match v
    case Undef => false
    case Null => false
    case Bool(b) => b
    case Num(n) => n != 0.0
    case Str(s) => s != ""
    case _ => true
  }

  /** `v == null`: loose equality with null holds exactly for null and undefined. */
  predicate IsNullish(v: JsValue) {
    v.Null? || v.Undef?
  }

  /** `typeof v === 'object'` */
  predicate IsObjectType(v: JsValue) {
    v.Null? || v.Arr? || v.Obj? || v.Regex? || v.Err?
  }

  /** `key in v`, for the own keys of a plain object. */
  predicate HasKey(v: JsValue, key: string) {
    v.Obj? && key in v.props
  }

  /** `v[key]` for a key that `HasKey` found. */
  function Get(v: JsValue, key: string): (r: JsValue)
    requires HasKey(v, key)
    ensures r in v.props.Values
  {
    v.props[key]
  }

  /** `name in v` where `name` is an element of a field-name list: the name is
      first turned into a property key. A name whose key text is not modelled
      (an array, a fractional or huge number) finds nothing. */
  predicate HasField(v: JsValue, name: JsValue) {
    var key := PropertyKey(name);
    key.Some? && HasKey(v, key.value)
  }

  /** `ToPropertyKey(name)`: strings are keys already; other primitives and
      objects are converted with `String(name)`. Arrays (joined) and numbers that
      are not integers below 10^21 in magnitude (formatted with a fraction or an
      exponent) are outside the model. */
  function PropertyKey(name: JsValue): (r: Option<string>)
    ensures name.Str? ==> r == Some(name.s)
    ensures name.Num? && r.Some? ==> name.n == name.n.Floor as real && r.value == IntText(name.n.Floor)
  {
    match name
    case Str(s) => Some(s)
    case Bool(b) => Some(if b then "true" else "false")
    case Null => Some("null")
    case Undef => Some("undefined")
    case Num(n) =>
      if n == n.Floor as real && -1000000000000000000000 < n.Floor < 1000000000000000000000 then Some(IntText(n.Floor))
      else None
    case Arr(_) => None
    case _ => Some(Display(name))
  }

  /** The decimal text of an integer, as `String(n)` writes it. */
  function IntText(i: int): (r: string)
    ensures i >= 0 ==> r == NatText(i)
    ensures i < 0 ==> r == "-" + NatText(-i)
  {
    if i < 0 then "-" + NatText(-i) else NatText(i)
  }

  /** The decimal digits of a natural number, without leading zeros. */
  function NatText(n: nat): (r: string)
    ensures |r| > 0 && forall j :: 0 <= j < |r| ==> '0' <= r[j] <= '9'
    ensures r[0] == '0' <==> n == 0
    ensures n < 10 ==> |r| == 1
    decreases n
  {
    if n < 10 then ["0123456789"[n]]
    else NatText(n / 10) + ["0123456789"[n % 10]]
  }

  /** Reading back the digits `NatText` writes gives the number. */
  function DigitsValue(s: string): (v: nat)
    requires forall j :: 0 <= j < |s| ==> '0' <= s[j] <= '9'
    decreases |s|
  {
    if |s| == 0 then 0
    else DigitsValue(s[..|s| - 1]) * 10 + (s[|s| - 1] as int - '0' as int)
  }

  /** `NatText` loses nothing: its digits spell the number back. */
  lemma {:induction false} NatTextRoundTrip(n: nat)
    ensures DigitsValue(NatText(n)) == n
    decreases n
  {
    if n < 10 {
      DigitValue(n);
    } else {
      NatTextRoundTrip(n / 10);
      DigitValue(n % 10);
      var r := NatText(n);
      assert r == NatText(n / 10) + ["0123456789"[n % 10]];
      assert r[..|r| - 1] == NatText(n / 10);
    }
  }

  /** The character written for a digit stands for that digit. */
  lemma DigitValue(d: nat)
    requires d < 10
    ensures "0123456789"[d] as int - '0' as int == d
  {
  }

  /** The property `key` of a plain object, `undefined` when it is missing. */
  function Property(v: JsValue, key: string): (r: JsValue)
    ensures HasKey(v, key) ==> r == v.props[key]
    ensures !HasKey(v, key) ==> r == Undef
  {
    if HasKey(v, key) then v.props[key] else Undef
  }

  /** `s.indexOf(c)` for a one-character `c`. */
  function IndexOf(s: string, c: char): (r: int)
    ensures r == -1 <==> c !in s
    ensures r != -1 ==> 0 <= r < |s| && s[r] == c && c !in s[..r]
  {
    if |s| == 0 then -1
    else if s[0] == c then 0
    else
      var r := IndexOf(s[1..], c);
      if r == -1 then -1
      else
        assert s[..r + 1] == [s[0]] + s[1..][..r];
        r + 1
  }

  /** `s.lastIndexOf(c)` for a one-character `c`. */
  function LastIndexOf(s: string, c: char): (r: int)
    ensures r == -1 <==> c !in s
    ensures r != -1 ==> 0 <= r < |s| && s[r] == c && c !in s[r + 1..]
  {
    if |s| == 0 then -1
    else if s[|s| - 1] == c then |s| - 1
    else
      var init := s[..|s| - 1];
      assert s == init + [s[|s| - 1]];
      var r := LastIndexOf(init, c);
      assert r != -1 ==> s[r + 1..] == init[r + 1..] + [s[|s| - 1]];
      r
  }

  /** The first occurrence of `c` in `a + [c] + b` is the one after `a` when `a`
      does not contain `c`. */
  lemma IndexOfAfterPrefix(a: string, c: char, b: string)
    requires c !in a
    ensures IndexOf(a + [c] + b, c) == |a|
  {
    var s := a + [c] + b;
    assert s[|a|] == c;
    assert s[..|a|] == a;
  }

  /** The last occurrence of `c` in `a + [c] + b` is the one before `b` when `b`
      does not contain `c`. */
  lemma LastIndexOfBeforeSuffix(a: string, c: char, b: string)
    requires c !in b
    ensures LastIndexOf(a + [c] + b, c) == |a|
  {
    var s := a + [c] + b;
    assert s[|a|] == c;
    assert s[|a| + 1..] == b;
  }

  /** `s.substring(start, end)`: both ends are clamped to `[0, |s|]` and swapped
      when they come in the wrong order. */
  function Substring(s: string, start: int, end: int): (r: string)
    ensures 0 <= start <= end <= |s| ==> r == s[start..end]
    ensures 0 <= end <= start <= |s| ==> r == s[end..start]
  {
    var a := Clamp(start, |s|);
    var b := Clamp(end, |s|);
    if a <= b then s[a..b] else s[b..a]
  }

  function Clamp(x: int, hi: nat): (r: nat)
    ensures r <= hi
    ensures 0 <= x <= hi ==> r == x
  {
    if x < 0 then 0 else if x > hi then hi else x
  }

  /** `s.substr(start)` for a start that is not negative. */
  function SubstrFrom(s: string, start: nat): (r: string)
    ensures start <= |s| ==> r == s[start..]
    ensures start >= |s| ==> r == ""
  {
    if start >= |s| then "" else s[start..]
  }

  /** The characters of a string, each as a one-character string: what `for...of`
      and the spread operator visit. */
  function Chars(s: string): (r: seq<JsValue>)
    ensures |r| == |s|
    ensures forall i :: 0 <= i < |s| ==> r[i] == Str([s[i]])
  {
    seq(|s|, i requires 0 <= i < |s| => Str([s[i]]))
  }

  /** `String(v)` for the shapes whose conversion does not depend on number
      formatting or array joining. */
  function Display(v: JsValue): string
    requires v.Str? || v.Obj? || v.Regex? || v.Fn? || v.Err?
  {
    match v
    case Str(s) => s
    case Obj(_) => "[object Object]"
    case Regex(source, flags) => "/" + source + "/" + flags
    case Fn(code) => code
    case Err(name, message) =>
      if name == "" then message else if message == "" then name else name + ": " + message
  }
}
