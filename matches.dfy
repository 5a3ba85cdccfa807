/** The pattern-matching compiler of src/Matches.ts. `Compile` inspects the shape
    of an untyped pattern and yields one tester variant (recursing into arrays and
    objects); `Run` is the `test` method of every variant. */
module Matches {
  import opened Wrappers
  import opened Js
  import Fit

  /** A constructor registered in a Knowledge registry, known by an opaque id. */
  type Builder = nat

  /** The schema registry: string schemas (`"schema:body"`) and object schemas
      (`{ $: "schema", ... }`). An absent registry is one with empty maps. */
  datatype Knowledge = Knowledge(strings: map<string, Builder>, objects: map<string, Builder>)

  /** What lies outside the compiler: calling an adopted function, the RegExp
      engine (construction and `test` with the cursor at 0), and the testers that
      registered constructors build from the knowledge and the argument they are
      given (their `test` and their `value` field, which is `undefined` when the
      constructor leaves it unset). */
  datatype Host = Host(
    call: (string, JsValue) -> JsValue,
    regexBuilds: (string, string) -> bool,
    regexTest: (string, string, JsValue) -> bool,
    customTest: (Builder, Knowledge, JsValue, JsValue) -> JsValue,
    customValue: (Builder, Knowledge, JsValue) -> JsValue)

  /** Exceptions compilation can raise. */
  datatype Fault = TypeError | NotYetImplemented

  /** The tester variants, each with its own payload. */
  datatype Tester =
    | Equal(value: JsValue)                 // MatchAny: `this.value === input`
    | Nullish                               // `input == null`
    | Adopted(code: string)                 // a function pattern used as the test
    | Pattern(source: string, flags: string) // a RegExp
    | Never                                 // `() => false`
    | OneOf(members: seq<Tester>)           // MatchOneOf
    | OneWithSet(literals: seq<JsValue>)    // MatchOneWithSet over `new Set(literals)`
    | ArrayFit(points: seq<Tester>)         // MatchArrayFit
    | ArrayAnd(tests: seq<Tester>)          // MatchArrayAnd
    | AllOf(fields: map<string, Tester>)    // MatchAllOf
    | Has(names: seq<JsValue>)              // MatchTaggedObject_ObjectHas
    | HasNot(names: seq<JsValue>)           // MatchTaggedObject_ObjectHasNot
    | Custom(builder: Builder, knowledge: Knowledge, arg: JsValue) // `new C(knowledge, arg)` for a registered C

  type Compiled = Result<Tester, Fault>

  // ------------------------------------------------------------------------
  // Testing

  /** The value `t.test(x)` returns. Built-in variants return booleans; adopted
      functions and registry-built testers may return anything. */
  function Run(h: Host, t: Tester, x: JsValue): JsValue
    decreases t, 1
  {
    match t
    case Equal(v) => Bool(v == x)
    case Nullish => Bool(IsNullish(x))
    case Adopted(code) => h.call(code, x)
    case Pattern(source, flags) => Bool(h.regexTest(source, flags, x))
    case Never => Bool(false)
    case OneOf(ms) => Bool(exists i :: 0 <= i < |ms| && Truthy(Run(h, ms[i], x)))
    case OneWithSet(vs) => Bool(x in vs)
    case ArrayFit(ps) =>
      Bool(x.Arr? && Fit.Greedy(FitTable(h, ps, x.elems), |x.elems|, 0, 0))
    case ArrayAnd(ts) => Bool(forall i :: 0 <= i < |ts| ==> Truthy(Run(h, ts[i], x)))
    case AllOf(fs) =>
      Bool(Truthy(x) && IsObjectType(x) &&
           forall key :: key in fs ==> HasKey(x, key) && Truthy(Run(h, fs[key], Get(x, key))))
    case Has(ns) => Bool(forall i :: 0 <= i < |ns| ==> HasField(x, ns[i]))
    case HasNot(ns) => Bool(forall i :: 0 <= i < |ns| ==> !HasField(x, ns[i]))
    case Custom(b, kn, arg) => h.customTest(b, kn, arg, x)
  }

  /** Which sub-pattern fits which input element: ArrayFit counts a test as a fit
      unless it returned exactly `false`. */
  function FitTable(h: Host, ps: seq<Tester>, xs: seq<JsValue>): (m: seq<seq<bool>>)
    decreases ArrayFit(ps), 0
    ensures Fit.Table(m, |xs|) && |m| == |ps|
    ensures forall k, j :: 0 <= k < |ps| && 0 <= j < |xs| ==> m[k][j] == (Run(h, ps[k], xs[j]) != Bool(false))
  {
    seq(|ps|, k requires 0 <= k < |ps| =>
      seq(|xs|, j requires 0 <= j < |xs| => Run(h, ps[k], xs[j]) != Bool(false)))
  }

  /** The tester accepts `x` in a boolean context (`if (t.test(x))`). */
  predicate Accepts(h: Host, t: Tester, x: JsValue) {
    Truthy(Run(h, t, x))
  }

  /** ArrayFit's reading of a test: anything but `false` is a fit. */
  predicate Fits(h: Host, t: Tester, x: JsValue) {
    Run(h, t, x) != Bool(false)
  }

  // ------------------------------------------------------------------------
  // Compiling

  /** `pattern.length === 1 && pattern[0] instanceof Array` */
  predicate IsFitShape(xs: seq<JsValue>) {
    |xs| == 1 && xs[0].Arr?
  }

  /** `'$' in pattern && typeof pattern.$ === 'string'` */
  predicate IsTagged(p: JsValue) {
    p.Obj? && "$" in p.props && p.props["$"].Str?
  }

  /** `new MatchAny(knowledge, pattern)` */
  function Compile(h: Host, k: Knowledge, p: JsValue): Compiled
    decreases p, 4
  {
    match p
    case Undef => Success(Equal(Undef))   // no case matches: `value` stays unset
    case Bool(_) => Success(Equal(Undef)) // likewise
    case Num(_) => Success(Equal(p))
    case Str(s) => Success(Meta(h, k, s))
    case Fn(code) => Success(Adopted(code))
    case Null => Success(Nullish)
    case Arr(xs) =>
      if IsFitShape(xs) then
        match Collect(CompileEach(h, k, xs[0].elems))
        case Success(ts) => Success(ArrayFit(ts))
        case Failure(e) => Failure(e)
      else OneOfResult(h, xs, CompileEach(h, k, xs))
    case Regex(source, flags) => Success(Pattern(source, flags))
    case Obj(props) => if IsTagged(p) then CompileTagged(h, k, p) else CompileAllOf(h, k, props)
    case Err(_, _) => Success(Equal(p))   // the `default` branch: `value = pattern`
  }

  /** The sub-patterns of an array, each compiled. */
  function CompileEach(h: Host, k: Knowledge, ys: seq<JsValue>): (rs: seq<Compiled>)
    decreases Arr(ys), 1
    ensures |rs| == |ys|
    ensures forall i :: 0 <= i < |ys| ==> rs[i] == Compile(h, k, ys[i])
  {
    seq(|ys|, i requires 0 <= i < |ys| => Compile(h, k, ys[i]))
  }

  /** `new MatchAllOf(knowledge, object)`: one sub-tester per key. */
  function CompileAllOf(h: Host, k: Knowledge, props: map<string, JsValue>): Compiled
    decreases Obj(props), 2
  {
    CollectFields(CompileFields(h, k, props))
  }

  /** The values of an object pattern, each compiled. */
  function CompileFields(h: Host, k: Knowledge, props: map<string, JsValue>): (rs: map<string, Compiled>)
    decreases Obj(props), 1
    ensures rs.Keys == props.Keys
    ensures forall key :: key in props ==> rs[key] == Compile(h, k, props[key])
  {
    map key | key in props :: Compile(h, k, props[key])
  }

  /** The AllOf tester once every key compiled, else the exception. Which key
      `for...in` reaches first is not modelled; within one compiler every
      exception has the same kind, so it does not matter (CompileFaultIsTypeError). */
  function CollectFields(rs: map<string, Compiled>): (r: Compiled)
    ensures r.Success? <==> forall key :: key in rs ==> rs[key].Success?
    ensures r.Success? ==>
              && r.value.AllOf? && r.value.fields.Keys == rs.Keys
              && forall key :: key in rs ==> rs[key] == Success(r.value.fields[key])
    ensures r.Failure? ==> exists key :: key in rs && rs[key] == Failure(r.error)
  {
    if exists key :: key in rs && rs[key] == Failure(TypeError) then Failure(TypeError)
    else if exists key :: key in rs && rs[key].Failure? then
      var key :| key in rs && rs[key].Failure?;
      assert rs[key].error == NotYetImplemented;
      Failure(NotYetImplemented)
    else
      Success(AllOf(map key | key in rs :: rs[key].value))
  }

  /** `new MatchTaggedObject(knowledge, pattern)`: the object registry first, then
      the built-in `ObjectMatch` table, else AllOf over the whole pattern. */
  function CompileTagged(h: Host, k: Knowledge, p: JsValue): Compiled
    requires IsTagged(p)
    decreases p, 3
  {
    var tag := p.props["$"].s;
    if tag in k.objects then Success(Custom(k.objects[tag], k, p))
    else if tag == "Object.has" then
      match FieldNames(Property(p, "fields"))
      case Success(ns) => Success(Has(ns))
      case Failure(e) => Failure(e)
    else if tag == "Object.hasNot" then
      match FieldNames(Property(p, "fields"))
      case Success(ns) => Success(HasNot(ns))
      case Failure(e) => Failure(e)
    else if tag == "and" then
      match Property(p, "forAll")
      case Arr(ys) =>
        (match Collect(CompileEach(h, k, ys))
         case Success(ts) => Success(ArrayAnd(ts))
         case Failure(e) => Failure(e))
      case _ => Failure(TypeError)   // `forAll.map` is not a function
    else CompileAllOf(h, k, p.props)
  }

  /** `pattern.fields.slice()`, iterated by `for...of`: an array gives its
      elements, a string its characters; anything else has no `slice` method. */
  function FieldNames(fields: JsValue): Result<seq<JsValue>, Fault> {
    match fields
    case Arr(ns) => Success(ns)
    case Str(s) => Success(Chars(s))
    case _ => Failure(TypeError)
  }

  /** `new MatchMeta(knowledge, pattern)` for a string pattern: a `schema:` prefix registered in `knowledge.String` or in the
      built-in `StringMatch` builds that schema's tester from the text after the
      first colon; any other string is compared for equality. */
  function Meta(h: Host, k: Knowledge, s: string): Tester {
    var d := IndexOf(s, ':');
    if d == -1 then Equal(Str(s))
    else
      var schema := s[..d];
      var body := s[d + 1..];
      if schema in k.strings then Custom(k.strings[schema], k, Str(body))
      else if schema == "Regexp" then RegexFromString(h, body)
      else Equal(Str(s))
  }

  /** The source and the flags of a regular expression written as a string: the
      text between the first character and the last occurrence of that character,
      then the rest (`substring(1, end)` and `substr(end + 1)`). */
  function SplitRegex(text: string): (string, string) {
    var end := if |text| == 0 then 0 else LastIndexOf(text, text[0]);
    (Substring(text, 1, end), SubstrFrom(text, end + 1))
  }

  /** `new MatchRegexp(knowledge, text)`: a RegExp built from the split, or an
      always-false tester when the RegExp constructor throws. Both the plain RegExp
      and the cursor-resetting wrapper of a global one test from position 0. */
  function RegexFromString(h: Host, text: string): Tester {
    var (source, flags) := SplitRegex(text);
    if h.regexBuilds(source, flags) then Pattern(source, flags) else Never
  }

  // ------------------------------------------------------------------------
  // MatchOneOf's constructor

  /** `pattern.value === member` for a member that is not null or undefined:
      only a tester that keeps the pattern itself as its `value` qualifies. */
  predicate IsLiteral(h: Host, t: Tester, member: JsValue) {
    match t
    case Equal(v) => v == member
    case Custom(b, kn, arg) => h.customValue(b, kn, arg) == member
    case _ => false
  }

  /** The `set` and `members` arrays after the loop has seen every member. */
  function Partition(h: Host, members: seq<JsValue>, testers: seq<Tester>): (seq<JsValue>, seq<Tester>)
    requires |members| == |testers|
  {
    if |members| == 0 then ([], [])
    else
      var n := |members| - 1;
      var (literals, fallback) := Partition(h, members[..n], testers[..n]);
      if IsNullish(members[n]) then (literals + [Null, Undef], fallback)
      else if IsLiteral(h, testers[n], members[n]) then (literals + [members[n]], fallback)
      else (literals, fallback + [testers[n]])
  }

  /** The object the constructor returns once the arrays are built. */
  function Assemble(literals: seq<JsValue>, fallback: seq<Tester>): Tester {
    if |fallback| == 0 then
      if |literals| > 0 then OneWithSet(literals) else Never
    else if |literals| > 0 then OneOf([OneWithSet(literals)] + fallback)
    else OneOf(fallback)
  }

  /** `new MatchOneOf(knowledge, members)` given what compiling each member gave. */
  function OneOfResult(h: Host, members: seq<JsValue>, results: seq<Compiled>): Compiled
    requires |results| == |members|
  {
    match Collect(results)
    case Failure(e) => Failure(e)
    case Success(ts) =>
      var (literals, fallback) := Partition(h, members, ts);
      Success(Assemble(literals, fallback))
  }

  // ------------------------------------------------------------------------
  // The constructor loop of MatchOneOf and the `test` loops

  /** The loop of `new MatchOneOf(knowledge, array)`: members are compiled in
      order by `compile` (the first exception aborts), null and undefined members
      put both null and undefined in the set, literal members go to the set, the
      rest to the members list; the set tester goes in front of the list. */
  method BuildOneOf(h: Host, compile: JsValue -> Compiled, items: seq<JsValue>) returns (r: Compiled)
    ensures r == OneOfResult(h, items, seq(|items|, i requires 0 <= i < |items| => compile(items[i])))
  {
    ghost var results := seq(|items|, i requires 0 <= i < |items| => compile(items[i]));
    ghost var ts: seq<Tester> := [];
    var literals: seq<JsValue> := [];
    var fallback: seq<Tester> := [];
    for i := 0 to |items|
      invariant |ts| == i
      invariant forall j :: 0 <= j < i ==> results[j] == Success(ts[j])
      invariant (literals, fallback) == Partition(h, items[..i], ts)
    {
      var member := items[i];
      var pattern := compile(member);
      if pattern.Failure? {
        CollectFirstFailure(results, i);
        return Failure(pattern.error);
      }
      assert items[..i + 1][..i] == items[..i];
      assert (ts + [pattern.value])[..i] == ts;
      ts := ts + [pattern.value];
      if IsNullish(member) {
        literals := literals + [Null, Undef];
      } else if IsLiteral(h, pattern.value, member) {
        literals := literals + [member];
      } else {
        fallback := fallback + [pattern.value];
      }
    }
    assert items[..|items|] == items;
    CollectAllSuccess(results, ts);
    if |fallback| == 0 {
      if |literals| > 0 {
        r := Success(OneWithSet(literals));
      } else {
        r := Success(Never);
      }
    } else {
      if |literals| > 0 {
        fallback := [OneWithSet(literals)] + fallback;
      }
      r := Success(OneOf(fallback));
    }
  }

  /** `new MatchOneOf(knowledge, array)` with `new MatchAny` compiling each member. */
  method MatchOneOf(h: Host, k: Knowledge, items: seq<JsValue>) returns (r: Compiled)
    requires !IsFitShape(items)
    ensures r == Compile(h, k, Arr(items))
  {
    r := BuildOneOf(h, x => Compile(h, k, x), items);
    assert seq(|items|, i requires 0 <= i < |items| => (x => Compile(h, k, x))(items[i])) == CompileEach(h, k, items);
  }

  /** `MatchOneOf.test`: the first member that accepts ends the loop. */
  method TestOneOf(h: Host, ms: seq<Tester>, input: JsValue) returns (r: bool)
    ensures r <==> exists i :: 0 <= i < |ms| && Accepts(h, ms[i], input)
    ensures r == Accepts(h, OneOf(ms), input)
  {
    for i := 0 to |ms|
      invariant forall j :: 0 <= j < i ==> !Accepts(h, ms[j], input)
    {
      if Truthy(Run(h, ms[i], input)) {
        return true;
      }
    }
    return false;
  }

  /** `MatchArrayFit.test`: a cursor `i` walks the input once; each sub-pattern
      takes the first element at or after the cursor that it does not reject
      with `false`, and the scan fails when the input runs out first. */
  method TestArrayFit(h: Host, ps: seq<Tester>, input: JsValue) returns (r: bool)
    ensures r == Accepts(h, ArrayFit(ps), input)
  {
    if !input.Arr? {
      return false;
    }
    r := ScanFit(h, ps, input.elems, FitTable(h, ps, input.elems));
  }

  /** The loops of `MatchArrayFit.test` over the elements `xs`, where `m` records
      which sub-pattern fits which element: they compute the greedy scan. */
  method ScanFit(h: Host, ps: seq<Tester>, xs: seq<JsValue>, ghost m: seq<seq<bool>>) returns (r: bool)
    requires Fit.Table(m, |xs|) && |m| == |ps|
    requires forall k, j :: 0 <= k < |ps| && 0 <= j < |xs| ==> m[k][j] == Fits(h, ps[k], xs[j])
    ensures r == Fit.Greedy(m, |xs|, 0, 0)
  {
    var i := 0;
    label Points:
    for k := 0 to |ps|
      invariant i <= |xs|
      invariant Fit.Greedy(m, |xs|, k, i) == Fit.Greedy(m, |xs|, 0, 0)
    {
      while i < |xs|
        invariant i <= |xs|
        invariant Fit.Greedy(m, |xs|, k, i) == Fit.Greedy(m, |xs|, 0, 0)
      {
        if Run(h, ps[k], xs[i]) == Bool(false) {
          i := i + 1;
        } else {
          i := i + 1;
          continue Points;
        }
      }
      return false;
    }
    return true;
  }

  /** `MatchArrayAnd.test`: the first sub-tester that does not accept ends the loop. */
  method TestArrayAnd(h: Host, ts: seq<Tester>, input: JsValue) returns (r: bool)
    ensures r <==> forall i :: 0 <= i < |ts| ==> Accepts(h, ts[i], input)
    ensures r == Accepts(h, ArrayAnd(ts), input)
  {
    for i := 0 to |ts|
      invariant forall j :: 0 <= j < i ==> Accepts(h, ts[j], input)
    {
      if !Truthy(Run(h, ts[i], input)) {
        return false;
      }
    }
    return true;
  }

  /** `MatchAllOf.test`: falsy and non-object inputs fail; then every key of the
      pattern must be in the input and its sub-tester must accept the input's
      value there. The keys are visited in an unspecified order. */
  method TestAllOf(h: Host, fs: map<string, Tester>, input: JsValue) returns (r: bool)
    ensures r == Accepts(h, AllOf(fs), input)
  {
    if !Truthy(input) {
      return false;
    }
    if !IsObjectType(input) {
      return false;
    }
    var todo := fs.Keys;
    while todo != {}
      invariant todo <= fs.Keys
      invariant forall key :: key in fs && key !in todo ==> HasKey(input, key) && Accepts(h, fs[key], Get(input, key))
      decreases todo
    {
      var key :| key in todo;
      if !HasKey(input, key) {
        return false;
      }
      if !Truthy(Run(h, fs[key], Get(input, key))) {
        return false;
      }
      todo := todo - {key};
    }
    return true;
  }

  /** `MatchTaggedObject_ObjectHas.test`: every listed field name is in the input. */
  method TestHas(h: Host, names: seq<JsValue>, input: JsValue) returns (r: bool)
    ensures r <==> forall i :: 0 <= i < |names| ==> HasField(input, names[i])
    ensures r == Accepts(h, Has(names), input)
  {
    for i := 0 to |names|
      invariant forall j :: 0 <= j < i ==> HasField(input, names[j])
    {
      if !HasField(input, names[i]) {
        return false;
      }
    }
    return true;
  }

  /** `MatchTaggedObject_ObjectHasNot.test`: no listed field name is in the input. */
  method TestHasNot(h: Host, names: seq<JsValue>, input: JsValue) returns (r: bool)
    ensures r <==> forall i :: 0 <= i < |names| ==> !HasField(input, names[i])
    ensures r == Accepts(h, HasNot(names), input)
  {
    for i := 0 to |names|
      invariant forall j :: 0 <= j < i ==> !HasField(input, names[j])
    {
      if HasField(input, names[i]) {
        return false;
      }
    }
    return true;
  }

  // ------------------------------------------------------------------------
  // Properties of the dispatch

  /** A number pattern compiles to strict equality with that number. */
  lemma NumberPattern(h: Host, k: Knowledge, n: real, x: JsValue)
    ensures Compile(h, k, Num(n)) == Success(Equal(Num(n)))
    ensures Accepts(h, Compile(h, k, Num(n)).value, x) <==> x == Num(n)
  {
  }

  /** A null pattern accepts exactly null and undefined. */
  lemma NullPattern(h: Host, k: Knowledge, x: JsValue)
    ensures Compile(h, k, Null).Success?
    ensures Accepts(h, Compile(h, k, Null).value, x) <==> x == Null || x == Undef
  {
  }

  /** A function pattern is used as the test itself. */
  lemma FunctionPattern(h: Host, k: Knowledge, code: string, x: JsValue)
    ensures Compile(h, k, Fn(code)) == Success(Adopted(code))
    ensures Run(h, Compile(h, k, Fn(code)).value, x) == h.call(code, x)
  {
  }

  /** A boolean or undefined pattern leaves `value` unset, so its tester accepts
      only undefined: the pattern `true` does not accept `true`. */
  lemma BooleanOrUndefinedPattern(h: Host, k: Knowledge, p: JsValue, x: JsValue)
    requires p.Bool? || p.Undef?
    ensures Compile(h, k, p).Success?
    ensures Accepts(h, Compile(h, k, p).value, x) <==> x == Undef
  {
  }

  /** A string without `:` compiles to equality with itself. */
  lemma MetaWithoutColon(h: Host, k: Knowledge, s: string, x: JsValue)
    requires ':' !in s
    ensures Compile(h, k, Str(s)) == Success(Equal(Str(s)))
    ensures Accepts(h, Compile(h, k, Str(s)).value, x) <==> x == Str(s)
  {
  }

  /** For `schema:body` with a colon-free schema: a schema in the string registry
      gets the text after the first colon (even when the schema is `Regexp`);
      otherwise `Regexp` builds a regular expression from that text; any other
      schema compiles to equality with the whole string. */
  lemma MetaDispatch(h: Host, k: Knowledge, schema: string, body: string)
    requires ':' !in schema
    ensures schema in k.strings ==>
      Compile(h, k, Str(schema + ":" + body)) == Success(Custom(k.strings[schema], k, Str(body)))
    ensures schema !in k.strings && schema == "Regexp" ==>
      Compile(h, k, Str(schema + ":" + body)) == Success(RegexFromString(h, body))
    ensures schema !in k.strings && schema != "Regexp" ==>
      Compile(h, k, Str(schema + ":" + body)) == Success(Equal(Str(schema + ":" + body)))
  {
    var s := schema + ":" + body;
    IndexOfAfterPrefix(schema, ':', body);
    assert s[..|schema|] == schema;
    assert s[|schema| + 1..] == body;
  }

  /** A delimited regular expression: the text between the first character and
      its last occurrence is the source, the rest the flags (the source itself may
      contain the delimiter). */
  lemma SplitRegexDelimited(d: char, source: string, flags: string)
    requires d !in flags
    ensures SplitRegex([d] + source + [d] + flags) == (source, flags)
  {
    var text := [d] + source + [d] + flags;
    LastIndexOfBeforeSuffix([d] + source, d, flags);
    assert text[1..|source| + 1] == source;
    assert text[|source| + 2..] == flags;
  }

  /** When the first character does not occur again the split swaps its bounds:
      the source is that character and the flags the rest of the text. */
  lemma SplitRegexUndelimited(d: char, rest: string)
    requires d !in rest
    ensures SplitRegex([d] + rest) == ([d], rest)
  {
    LastIndexOfBeforeSuffix([], d, rest);
    assert [d] + rest == [] + [d] + rest;
  }

  /** The empty text gives an empty source and no flags. */
  lemma SplitRegexEmpty()
    ensures SplitRegex("") == ("", "")
  {
  }

  /** A regular expression the RegExp constructor rejects yields a tester that
      rejects everything; one it accepts is tested afresh from position 0. */
  lemma RegexFallback(h: Host, text: string, x: JsValue)
    ensures var (source, flags) := SplitRegex(text);
      && (!h.regexBuilds(source, flags) ==> Run(h, RegexFromString(h, text), x) == Bool(false))
      && (h.regexBuilds(source, flags) ==> Run(h, RegexFromString(h, text), x) == Bool(h.regexTest(source, flags, x)))
  {
  }

  /** An array whose only element is an array compiles to ArrayFit over the inner
      array's sub-patterns; any other array to an alternation. */
  lemma ArrayPatternKind(h: Host, k: Knowledge, xs: seq<JsValue>)
    ensures IsFitShape(xs) && Compile(h, k, Arr(xs)).Success? ==>
      var t := Compile(h, k, Arr(xs)).value;
      t.ArrayFit? && |t.points| == |xs[0].elems| &&
      forall i :: 0 <= i < |t.points| ==> Compile(h, k, xs[0].elems[i]) == Success(t.points[i])
    ensures !IsFitShape(xs) && Compile(h, k, Arr(xs)).Success? ==>
      var t := Compile(h, k, Arr(xs)).value;
      t.OneOf? || t.OneWithSet? || t.Never?
  {
  }

  // ------------------------------------------------------------------------
  // Properties of the alternation

  /** What one member of an alternation stands for once the constructor has
      sorted it: null and undefined members for both null and undefined, literal
      members for themselves, every other member for its tester. */
  predicate MemberAccepts(h: Host, member: JsValue, t: Tester, x: JsValue) {
    if IsNullish(member) then IsNullish(x)
    else if IsLiteral(h, t, member) then x == member
    else Accepts(h, t, x)
  }

  /** The set and the fallback list together accept what some member stands for. */
  lemma {:induction false} PartitionAccepts(h: Host, members: seq<JsValue>, testers: seq<Tester>, x: JsValue)
    requires |members| == |testers|
    ensures var (literals, fallback) := Partition(h, members, testers);
      (x in literals || exists i :: 0 <= i < |fallback| && Accepts(h, fallback[i], x))
      <==> exists j :: 0 <= j < |members| && MemberAccepts(h, members[j], testers[j], x)
  {
    if |members| > 0 {
      var n := |members| - 1;
      var (literals, fallback) := Partition(h, members[..n], testers[..n]);
      PartitionAccepts(h, members[..n], testers[..n], x);
      assert forall j :: 0 <= j < n ==> members[..n][j] == members[j] && testers[..n][j] == testers[j];
      var (literals', fallback') := Partition(h, members, testers);
      assert forall i :: 0 <= i < |fallback| ==> fallback'[i] == fallback[i];
      if !IsNullish(members[n]) && !IsLiteral(h, testers[n], members[n]) {
        assert fallback'[|fallback|] == testers[n];
      }
    }
  }

  /** Which members end up in the set and which in the fallback list. */
  lemma {:induction false} PartitionShape(h: Host, members: seq<JsValue>, testers: seq<Tester>)
    requires |members| == |testers|
    ensures var (literals, fallback) := Partition(h, members, testers);
      && (|fallback| == 0 <==>
            forall j :: 0 <= j < |members| ==> IsNullish(members[j]) || IsLiteral(h, testers[j], members[j]))
      && (|literals| == 0 <==>
            forall j :: 0 <= j < |members| ==> !IsNullish(members[j]) && !IsLiteral(h, testers[j], members[j]))
  {
    if |members| > 0 {
      var n := |members| - 1;
      PartitionShape(h, members[..n], testers[..n]);
      assert forall j :: 0 <= j < n ==> members[..n][j] == members[j] && testers[..n][j] == testers[j];
    }
  }

  /** The assembled tester accepts what the set or some fallback tester accepts. */
  lemma AssembleAccepts(h: Host, literals: seq<JsValue>, fallback: seq<Tester>, x: JsValue)
    ensures Accepts(h, Assemble(literals, fallback), x) <==>
      x in literals || exists i :: 0 <= i < |fallback| && Accepts(h, fallback[i], x)
  {
    if |fallback| > 0 && |literals| > 0 {
      assert Assemble(literals, fallback) == OneOf([OneWithSet(literals)] + fallback);
      assert Accepts(h, OneWithSet(literals), x) <==> x in literals;
      OneOfConsAccepts(h, OneWithSet(literals), fallback, x);
    }
  }

  /** A list of testers headed by `t` accepts what `t` or one of the rest accepts. */
  lemma OneOfConsAccepts(h: Host, t: Tester, rest: seq<Tester>, x: JsValue)
    ensures Accepts(h, OneOf([t] + rest), x) <==>
      Accepts(h, t, x) || exists i :: 0 <= i < |rest| && Accepts(h, rest[i], x)
  {
    var ms := [t] + rest;
    if Accepts(h, OneOf(ms), x) {
      var i :| 0 <= i < |ms| && Truthy(Run(h, ms[i], x));
      if i > 0 {
        assert ms[i] == rest[i - 1];
      } else {
        assert ms[0] == t;
      }
    }
    if Accepts(h, t, x) {
      assert ms[0] == t;
    }
    if exists i :: 0 <= i < |rest| && Accepts(h, rest[i], x) {
      var i :| 0 <= i < |rest| && Accepts(h, rest[i], x);
      assert ms[i + 1] == rest[i];
    }
  }

  /** MatchOneOf accepts exactly when some member, read as MemberAccepts says,
      accepts. */
  lemma OneOfSemantics(h: Host, members: seq<JsValue>, results: seq<Compiled>, x: JsValue)
    requires |results| == |members| && OneOfResult(h, members, results).Success?
    ensures Accepts(h, OneOfResult(h, members, results).value, x) <==>
      exists j :: 0 <= j < |members| && MemberAccepts(h, members[j], results[j].value, x)
  {
    var ts := Collect(results).value;
    PartitionAccepts(h, members, ts, x);
    var (literals, fallback) := Partition(h, members, ts);
    AssembleAccepts(h, literals, fallback, x);
    assert forall j :: 0 <= j < |members| ==> results[j].value == ts[j];
  }

  /** The shapes the constructor can return: an always-false tester for no
      members, a set-only tester when every member is null, undefined or literal,
      and otherwise a list of testers headed by the set tester when there is one. */
  lemma OneOfShape(h: Host, members: seq<JsValue>, results: seq<Compiled>)
    requires |results| == |members| && OneOfResult(h, members, results).Success?
    ensures var t := OneOfResult(h, members, results).value;
      && (|members| == 0 ==> t == Never)
      && ((|members| > 0 && forall j :: 0 <= j < |members| ==>
             IsNullish(members[j]) || IsLiteral(h, results[j].value, members[j])) ==> t.OneWithSet?)
      && ((exists j :: 0 <= j < |members| && !IsNullish(members[j]) && !IsLiteral(h, results[j].value, members[j])) ==>
            t.OneOf? && |t.members| > 0)
      && ((exists j :: 0 <= j < |members| && (IsNullish(members[j]) || IsLiteral(h, results[j].value, members[j]))) &&
          (exists j :: 0 <= j < |members| && !IsNullish(members[j]) && !IsLiteral(h, results[j].value, members[j])) ==>
            t.OneOf? && t.members[0].OneWithSet?)
  {
    var ts := Collect(results).value;
    assert forall j :: 0 <= j < |members| ==> results[j].value == ts[j];
    PartitionShape(h, members, ts);
  }

  /** An empty array pattern never matches. */
  lemma OneOfEmpty(h: Host, k: Knowledge, x: JsValue)
    ensures Compile(h, k, Arr([])) == Success(Never)
    ensures !Accepts(h, Compile(h, k, Arr([])).value, x)
  {
  }

  /** When no member is undefined and no member compiles to a registry-built
      tester, the alternation accepts exactly what some member's own tester
      accepts: the set fast path changes nothing. */
  lemma OneOfAlternation(h: Host, k: Knowledge, xs: seq<JsValue>, x: JsValue)
    requires !IsFitShape(xs) && Undef !in xs
    requires forall j :: 0 <= j < |xs| && Compile(h, k, xs[j]).Success? ==> !Compile(h, k, xs[j]).value.Custom?
    ensures Compile(h, k, Arr(xs)).Success? ==>
      (Accepts(h, Compile(h, k, Arr(xs)).value, x) <==>
       exists j :: 0 <= j < |xs| && Accepts(h, Compile(h, k, xs[j]).value, x))
  {
    var results := CompileEach(h, k, xs);
    assert Compile(h, k, Arr(xs)) == OneOfResult(h, xs, results);
    if OneOfResult(h, xs, results).Success? {
      OneOfSemantics(h, xs, results, x);
      forall j | 0 <= j < |xs|
        ensures MemberAccepts(h, xs[j], results[j].value, x) == Accepts(h, results[j].value, x)
      {
        assert xs[j] != Undef;
        assert xs[j] == Null ==> results[j] == Success(Nullish);
        PlainMemberAccepts(h, xs[j], results[j].value, x);
      }
    }
  }

  /** A member other than undefined, compiled to a tester not built by the
      registry, stands for what its tester accepts. */
  lemma PlainMemberAccepts(h: Host, member: JsValue, t: Tester, x: JsValue)
    requires member != Undef && !t.Custom?
    requires member == Null ==> t == Nullish
    ensures MemberAccepts(h, member, t, x) == Accepts(h, t, x)
  {
  }

  /** An undefined member also lets null through, although the pattern
      `undefined` alone rejects null. */
  lemma UndefinedMemberAcceptsNull(h: Host, k: Knowledge)
    ensures Compile(h, k, Arr([Undef])) == Success(OneWithSet([Null, Undef]))
    ensures Accepts(h, Compile(h, k, Arr([Undef])).value, Null)
    ensures !Accepts(h, Compile(h, k, Undef).value, Null)
  {
    assert CompileEach(h, k, [Undef]) == [Success(Equal(Undef))];
    assert Collect(CompileEach(h, k, [Undef])).value == [Equal(Undef)];
    assert [Undef][..0] == [] && [Equal(Undef)][..0] == [];
    assert Partition(h, [], []) == ([], []);
    var (l, f) := Partition(h, [Undef], [Equal(Undef)]);
    assert IsNullish([Undef][0]);
    assert l == [] + [Null, Undef] == [Null, Undef];
    assert f == [];
    assert OneOfResult(h, [Undef], CompileEach(h, k, [Undef])) == Success(Assemble(l, f));
    assert !IsFitShape([Undef]);
    assert Compile(h, k, Arr([Undef])) == OneOfResult(h, [Undef], CompileEach(h, k, [Undef]));
  }

  /** MatchOneWithSet's test is membership in the set. */
  lemma OneWithSetIsMembership(h: Host, literals: seq<JsValue>, x: JsValue)
    ensures Run(h, OneWithSet(literals), x) == Bool(x in literals)
  {
  }

  // ------------------------------------------------------------------------
  // Properties of the in-order fit

  /** `pos` places sub-pattern `j` on input element `pos[j]`, which it does not
      reject, at strictly increasing positions. */
  ghost predicate FitsInOrder(h: Host, ps: seq<Tester>, xs: seq<JsValue>, pos: seq<int>) {
    && |pos| == |ps|
    && (forall j :: 0 <= j < |pos| ==> 0 <= pos[j] < |xs| && Fits(h, ps[j], xs[pos[j]]))
    && (forall j :: 0 < j < |pos| ==> pos[j - 1] < pos[j])
  }

  /** ArrayFit accepts exactly the arrays on which its sub-patterns can be placed
      at strictly increasing positions; it rejects every other input. */
  lemma ArrayFitIffInOrder(h: Host, ps: seq<Tester>, x: JsValue)
    ensures Accepts(h, ArrayFit(ps), x) <==> x.Arr? && exists pos :: FitsInOrder(h, ps, x.elems, pos)
  {
    if x.Arr? {
      var xs := x.elems;
      var m := FitTable(h, ps, xs);
      Fit.GreedyIffPlaced(m, |xs|);
      forall pos
        ensures Fit.PlacedFrom(m, |xs|, 0, 0, pos) <==> FitsInOrder(h, ps, xs, pos)
      {
      }
    }
  }

  /** An empty sub-pattern list fits every array. */
  lemma ArrayFitEmpty(h: Host, xs: seq<JsValue>)
    ensures Accepts(h, ArrayFit([]), Arr(xs))
  {
  }

  /** `[[a, b]]` compiles to an in-order fit of the two numbers. */
  lemma ArrayFitOfTwoNumbers(h: Host, k: Knowledge, a: real, b: real)
    ensures Compile(h, k, Arr([Arr([Num(a), Num(b)])])) == Success(ArrayFit([Equal(Num(a)), Equal(Num(b))]))
  {
    assert CompileEach(h, k, [Num(a), Num(b)]) == [Success(Equal(Num(a))), Success(Equal(Num(b)))];
    assert Collect(CompileEach(h, k, [Num(a), Num(b)])).value == [Equal(Num(a)), Equal(Num(b))];
  }

  /** The numbers 0, 1, ..., n. */
  function UpTo(n: nat): (xs: seq<JsValue>)
    ensures |xs| == n + 1 && forall l :: 0 <= l <= n ==> xs[l] == Num(l as real)
  {
    seq(n + 1, l requires 0 <= l <= n => Num(l as real))
  }

  /** `[[1, 15, 100]]` fits `[0, 1, 2, ..., 100]`, on positions 1, 15 and 100. */
  lemma ArrayFitInOrderExample(h: Host)
    ensures Accepts(h, ArrayFit([Equal(Num(1.0)), Equal(Num(15.0)), Equal(Num(100.0))]), Arr(UpTo(100)))
  {
    var xs := UpTo(100);
    var ps := [Equal(Num(1.0)), Equal(Num(15.0)), Equal(Num(100.0))];
    ArrayFitIffInOrder(h, ps, Arr(xs));
    assert xs[1] == Num(1.0) && xs[15] == Num(15.0) && xs[100] == Num(100.0);
    assert FitsInOrder(h, ps, xs, [1, 15, 100]);
  }

  /** `[[15, 1, 100]]` does not fit `[0, 1, 2, ..., 100]`: once 15 is placed,
      the cursor is past 1 and the scan does not go back. */
  lemma ArrayFitOutOfOrderExample(h: Host)
    ensures !Accepts(h, ArrayFit([Equal(Num(15.0)), Equal(Num(1.0)), Equal(Num(100.0))]), Arr(UpTo(100)))
  {
    OutOfOrderOnCounting(h, UpTo(100));
  }

  /** `ArrayFitOutOfOrderExample` on any 101 elements counting up from 0. */
  lemma OutOfOrderOnCounting(h: Host, xs: seq<JsValue>)
    requires |xs| == 101 && forall l :: 0 <= l < |xs| ==> xs[l] == Num(l as real)
    ensures !Accepts(h, ArrayFit([Equal(Num(15.0)), Equal(Num(1.0)), Equal(Num(100.0))]), Arr(xs))
  {
    var ps := [Equal(Num(15.0)), Equal(Num(1.0)), Equal(Num(100.0))];
    var m := FitTable(h, ps, xs);
    EqualRowOfCounting(h, ps, xs, 0, 15);
    EqualRowOfCounting(h, ps, xs, 1, 1);
    OutOfOrderScan(m, |xs|);
    AcceptsArrayFit(h, ps, xs);
  }

  /** On an array, ArrayFit's verdict is the greedy scan of its fit table. */
  lemma AcceptsArrayFit(h: Host, ps: seq<Tester>, xs: seq<JsValue>)
    ensures Accepts(h, ArrayFit(ps), Arr(xs)) == Fit.Greedy(FitTable(h, ps, xs), |xs|, 0, 0)
  {
  }

  /** The scan behind `ArrayFitOutOfOrderExample`, on any table whose first row
      fits only at 15 and whose second row fits only at 1. */
  lemma OutOfOrderScan(m: seq<seq<bool>>, n: nat)
    requires Fit.Table(m, n) && |m| == 3 && n == 101
    requires forall l :: 0 <= l < n ==> (m[0][l] <==> l == 15) && (m[1][l] <==> l == 1)
    ensures !Fit.Greedy(m, n, 0, 0)
  {
    Fit.GreedySkip(m, n, 0, 0, 15);
    Fit.GreedyNoFit(m, n, 1, 16);
  }

  /** Against elements counting up from 0, an equality sub-pattern for the
      number `v` fits exactly at position `v`. */
  lemma EqualRowOfCounting(h: Host, ps: seq<Tester>, xs: seq<JsValue>, k: nat, v: nat)
    requires k < |ps| && ps[k] == Equal(Num(v as real))
    requires forall l :: 0 <= l < |xs| ==> xs[l] == Num(l as real)
    ensures forall l :: 0 <= l < |xs| ==> (FitTable(h, ps, xs)[k][l] <==> l == v)
  {
    var m := FitTable(h, ps, xs);
    forall l | 0 <= l < |xs|
      ensures m[k][l] <==> l == v
    {
      assert m[k][l] == (Run(h, ps[k], xs[l]) != Bool(false));
    }
  }

  // ------------------------------------------------------------------------
  // Properties of objects

  /** A plain-object pattern (no string `$`) rejects falsy and non-object inputs
      and otherwise needs every pattern key present in the input with a value the
      key's sub-pattern accepts. */
  lemma AllOfSemantics(h: Host, k: Knowledge, props: map<string, JsValue>, x: JsValue)
    requires !IsTagged(Obj(props)) && Compile(h, k, Obj(props)).Success?
    ensures Accepts(h, Compile(h, k, Obj(props)).value, x) <==>
      && Truthy(x) && IsObjectType(x)
      && forall key :: key in props ==>
           && HasKey(x, key)
           && Compile(h, k, props[key]).Success?
           && Accepts(h, Compile(h, k, props[key]).value, Get(x, key))
  {
    var rs := CompileFields(h, k, props);
    assert forall key :: key in props ==> rs[key] == Compile(h, k, props[key]);
  }

  /** Keys the pattern does not name play no part: two objects that agree on the
      pattern's keys are accepted alike. */
  lemma AllOfIgnoresExtraKeys(h: Host, fs: map<string, Tester>, x: JsValue, y: JsValue)
    requires x.Obj? && y.Obj?
    requires forall key :: key in fs ==> (key in x.props <==> key in y.props)
    requires forall key :: key in fs && key in x.props ==> x.props[key] == y.props[key]
    ensures Accepts(h, AllOf(fs), x) <==> Accepts(h, AllOf(fs), y)
  {
  }

  /** An ArrayAnd with no sub-testers accepts everything. */
  lemma ArrayAndEmpty(h: Host, x: JsValue)
    ensures Accepts(h, ArrayAnd([]), x)
  {
  }

  /** An object schema registered in `knowledge.Object` wins over the built-in
      table, even for the built-in tags. */
  lemma RegistryPrecedence(h: Host, k: Knowledge, p: JsValue)
    requires IsTagged(p) && p.props["$"].s in k.objects
    ensures Compile(h, k, p) == Success(Custom(k.objects[p.props["$"].s], k, p))
  {
  }

  /** `{ $: 'Object.has', fields }`: a list (or string) of field names, every one
      of which the input must have; anything else in `fields` raises a TypeError. */
  lemma ObjectHasBuiltin(h: Host, k: Knowledge, p: JsValue, x: JsValue)
    requires IsTagged(p) && p.props["$"].s == "Object.has" && "Object.has" !in k.objects
    ensures var fields := Property(p, "fields");
      && (!fields.Arr? && !fields.Str? ==> Compile(h, k, p) == Failure(TypeError))
      && (fields.Arr? || fields.Str? ==>
            Compile(h, k, p).Success? &&
            (Accepts(h, Compile(h, k, p).value, x) <==>
             forall i :: 0 <= i < |FieldNames(fields).value| ==> HasField(x, FieldNames(fields).value[i])))
  {
  }

  /** `{ $: 'Object.hasNot', fields }`: none of the listed field names may be in
      the input; anything else in `fields` raises a TypeError. */
  lemma ObjectHasNotBuiltin(h: Host, k: Knowledge, p: JsValue, x: JsValue)
    requires IsTagged(p) && p.props["$"].s == "Object.hasNot" && "Object.hasNot" !in k.objects
    ensures var fields := Property(p, "fields");
      && (!fields.Arr? && !fields.Str? ==> Compile(h, k, p) == Failure(TypeError))
      && (fields.Arr? || fields.Str? ==>
            Compile(h, k, p).Success? &&
            (Accepts(h, Compile(h, k, p).value, x) <==>
             forall i :: 0 <= i < |FieldNames(fields).value| ==> !HasField(x, FieldNames(fields).value[i])))
  {
  }

  /** `in` turns a field name into a property key first: `fields: [0]` finds the
      key "0" (and not "0.0"), and `Object.hasNot` rejects the same input. */
  lemma NumericFieldName(h: Host)
    ensures Accepts(h, Has([Num(0.0)]), Obj(map["0" := Num(1.0)]))
    ensures !Accepts(h, HasNot([Num(0.0)]), Obj(map["0" := Num(1.0)]))
    ensures !Accepts(h, Has([Num(0.0)]), Obj(map["0.0" := Num(1.0)]))
  {
    assert NatText(0) == "0";
    assert PropertyKey(Num(0.0)) == Some("0");
    assert HasField(Obj(map["0" := Num(1.0)]), [Num(0.0)][0]);
    assert !HasField(Obj(map["0.0" := Num(1.0)]), Num(0.0));
  }

  /** Likewise `fields: [null]` finds the key "null" and `[true]` the key "true". */
  lemma LiteralFieldNames(h: Host)
    ensures Accepts(h, Has([Null]), Obj(map["null" := Num(1.0)]))
    ensures Accepts(h, Has([Bool(true)]), Obj(map["true" := Num(1.0)]))
  {
    assert HasField(Obj(map["null" := Num(1.0)]), Null);
    assert HasField(Obj(map["true" := Num(1.0)]), Bool(true));
  }

  /** `{ $: 'and', forAll }`: every sub-pattern of the `forAll` array must accept
      the same input; a `forAll` that is not an array raises a TypeError. */
  lemma AndBuiltin(h: Host, k: Knowledge, p: JsValue, x: JsValue)
    requires IsTagged(p) && p.props["$"].s == "and" && "and" !in k.objects
    ensures !Property(p, "forAll").Arr? ==> Compile(h, k, p) == Failure(TypeError)
    ensures Property(p, "forAll").Arr? && Compile(h, k, p).Success? ==>
      var ys := Property(p, "forAll").elems;
      (Accepts(h, Compile(h, k, p).value, x) <==>
       forall i :: 0 <= i < |ys| ==> Compile(h, k, ys[i]).Success? && Accepts(h, Compile(h, k, ys[i]).value, x))
  {
    assert Compile(h, k, p) == CompileTagged(h, k, p);
    match Property(p, "forAll")
    case Arr(ys) =>
      var rs := CompileEach(h, k, ys);
      if Collect(rs).Success? {
        ArrayAndAccepts(h, rs, Collect(rs).value, x);
      }
    case _ =>
  }

  /** The ArrayAnd built from compiled members accepts what every member's tester
      accepts. */
  lemma ArrayAndAccepts(h: Host, rs: seq<Compiled>, ts: seq<Tester>, x: JsValue)
    requires |ts| == |rs| && forall i :: 0 <= i < |rs| ==> rs[i] == Success(ts[i])
    ensures Accepts(h, ArrayAnd(ts), x) <==>
      forall i :: 0 <= i < |rs| ==> rs[i].Success? && Accepts(h, rs[i].value, x)
  {
  }

  /** A tag known to neither table falls back to AllOf over the whole pattern,
      `$` included: the input must carry the same tag. */
  lemma UnknownTagFallsBack(h: Host, k: Knowledge, p: JsValue)
    requires IsTagged(p)
    requires var tag := p.props["$"].s;
      tag !in k.objects && tag != "Object.has" && tag != "Object.hasNot" && tag != "and"
    ensures Compile(h, k, p) == CompileAllOf(h, k, p.props)
    ensures Compile(h, k, p).Success? ==>
      && Compile(h, k, p).value.AllOf?
      && Compile(h, k, p).value.fields.Keys == p.props.Keys
      && Compile(h, k, p).value.fields["$"] == Meta(h, k, p.props["$"].s)
  {
    assert CompileTagged(h, k, p) == CompileAllOf(h, k, p.props);
    assert Compile(h, k, p) == CompileTagged(h, k, p);
    var rs := CompileFields(h, k, p.props);
    assert rs["$"] == Compile(h, k, p.props["$"]);
    assert Compile(h, k, p.props["$"]) == Success(Meta(h, k, p.props["$"].s));
  }

  /** Compiling can only ever raise a TypeError. */
  lemma {:induction false} CompileFaultIsTypeError(h: Host, k: Knowledge, p: JsValue)
    ensures Compile(h, k, p).Failure? ==> Compile(h, k, p).error == TypeError
    decreases p
  {
    match p
    case Arr(xs) =>
      var ys := if IsFitShape(xs) then xs[0].elems else xs;
      forall i | 0 <= i < |ys|
        ensures Compile(h, k, ys[i]).Failure? ==> Compile(h, k, ys[i]).error == TypeError
      {
        CompileFaultIsTypeError(h, k, ys[i]);
      }
      EachFaultIsTypeError(h, k, ys);
    case Obj(props) =>
      forall key | key in props
        ensures Compile(h, k, props[key]).Failure? ==> Compile(h, k, props[key]).error == TypeError
      {
        CompileFaultIsTypeError(h, k, props[key]);
      }
      FieldsFaultIsTypeError(h, k, props);
      if IsTagged(p) {
        var forAll := Property(p, "forAll");
        if forAll.Arr? {
          var ys := forAll.elems;
          forall i | 0 <= i < |ys|
            ensures Compile(h, k, ys[i]).Failure? ==> Compile(h, k, ys[i]).error == TypeError
          {
            assert ys[i] < forAll;
            CompileFaultIsTypeError(h, k, ys[i]);
          }
          EachFaultIsTypeError(h, k, ys);
        }
        TaggedFaultIsTypeError(h, k, p);
        assert Compile(h, k, p) == CompileTagged(h, k, p);
      } else {
        assert Compile(h, k, p) == CompileAllOf(h, k, props);
      }
    case _ =>
  }

  /** Collecting compiled members whose faults are all TypeErrors can only fail
      with a TypeError. */
  lemma EachFaultIsTypeError(h: Host, k: Knowledge, ys: seq<JsValue>)
    requires forall i :: 0 <= i < |ys| ==> Compile(h, k, ys[i]).Failure? ==> Compile(h, k, ys[i]).error == TypeError
    ensures Collect(CompileEach(h, k, ys)).Failure? ==> Collect(CompileEach(h, k, ys)).error == TypeError
  {
    var rs := CompileEach(h, k, ys);
    assert forall i :: 0 <= i < |rs| ==> rs[i].Failure? ==> rs[i].error == TypeError;
  }

  /** Likewise for the fields of an object pattern. */
  lemma FieldsFaultIsTypeError(h: Host, k: Knowledge, props: map<string, JsValue>)
    requires forall key :: key in props ==> Compile(h, k, props[key]).Failure? ==> Compile(h, k, props[key]).error == TypeError
    ensures CompileAllOf(h, k, props).Failure? ==> CompileAllOf(h, k, props).error == TypeError
  {
    var rs := CompileFields(h, k, props);
    assert forall key :: key in rs ==> rs[key].Failure? ==> rs[key].error == TypeError;
  }

  /** A tagged pattern fails only with a TypeError when its `forAll` members and
      its fields do. */
  lemma TaggedFaultIsTypeError(h: Host, k: Knowledge, p: JsValue)
    requires IsTagged(p)
    requires CompileAllOf(h, k, p.props).Failure? ==> CompileAllOf(h, k, p.props).error == TypeError
    requires Property(p, "forAll").Arr? ==>
      var rs := Collect(CompileEach(h, k, Property(p, "forAll").elems));
      rs.Failure? ==> rs.error == TypeError
    ensures CompileTagged(h, k, p).Failure? ==> CompileTagged(h, k, p).error == TypeError
  {
    var tag := p.props["$"].s;
    if tag in k.objects {
    } else if tag == "Object.has" || tag == "Object.hasNot" {
      FieldNamesFault(Property(p, "fields"));
    } else if tag == "and" {
    } else {
    }
  }

  lemma FieldNamesFault(fields: JsValue)
    ensures FieldNames(fields).Failure? ==> FieldNames(fields).error == TypeError
  {
  }
}
