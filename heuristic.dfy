/** The heuristic scoring pipeline of src/Heuristic.ts: serialized rules get
    defaults and compiled code (`parseRule`), a scorer text is either a range
    spec `kind:min;ref;max` or an expression (`computeScorer`), whatever a scorer
    gives is normalised to `[achieved, possible, errors]` (`wrapScore`), and
    `execute` folds the rules into a score, a total and an error list. */
module Heuristic {
  import opened Wrappers
  import opened Js

  // ------------------------------------------------------------------------
  // Rules

  /** A rule as it is stored; the optional fields may be missing. */
  datatype SerializedRule = SerializedRule(
    category: string,
    criteria: string,
    context: string,
    strength: Option<real>,
    extractor: Option<string>,
    against: Option<string>,
    scorer: Option<string>)

  /** A compiled extractor, known by the body of its `new Function('_', body)`. */
  datatype Extractor = Extractor(code: string)

  /** The two range comparators. */
  datatype Comparator = Linear | Gaussian

  /** A compiled scorer: a range comparator with its bounds, or an expression
      known by the body of its `new Function('l', 'r', body)`. Both are wrapped by
      `wrapScore`. */
  datatype Scorer =
    | RangeScorer(comparator: Comparator, min: nat, ref: nat, max: nat)
    | ExpressionScorer(code: string)

  datatype Rule = Rule(
    category: string,
    criteria: string,
    context: string,
    strength: real,
    extractor: Extractor,
    against: Extractor,
    scorer: Scorer)

  /** `new Function` bodies read their expression `with (this)`, the namespace.
      A missing expression is concatenated as the text `undefined`. */
  function Body(expression: string): string {
    "with (this) { return (" + expression + ") }"
  }

  /** `computeExtractor(extractor)` */
  function ComputeExtractor(extractor: Option<string>): Extractor {
    Extractor(Body(if extractor.Some? then extractor.value else "undefined"))
  }

  /** `parseRule(input)`: strength is at least 1, the left extractor doubles as
      the right one when `against` is missing or empty. */
  function ParseRule(input: SerializedRule): (rule: Rule)
    ensures rule.strength >= 1.0
    ensures input.strength.Some? && input.strength.value > 1.0 ==> rule.strength == input.strength.value
    ensures input.strength.None? || input.strength.value <= 1.0 ==> rule.strength == 1.0
    ensures rule.extractor == ComputeExtractor(input.extractor)
    ensures input.against.None? || input.against.value == "" ==> rule.against == rule.extractor
    ensures input.against.Some? && input.against.value != "" ==> rule.against == ComputeExtractor(input.against)
    ensures rule.scorer == ComputeScorer(input.scorer)
    ensures rule.category == input.category && rule.criteria == input.criteria && rule.context == input.context
  {
    var strength := if input.strength.Some? && input.strength.value > 1.0 then input.strength.value else 1.0;
    var extractor := ComputeExtractor(input.extractor);
    var rule := Rule(input.category, input.criteria, input.context, strength, extractor, extractor, ComputeScorer(input.scorer));
    if input.against.Some? && input.against.value != "" then rule.(against := ComputeExtractor(input.against))
    else rule
  }

  /** Distinct extractor texts compile to distinct code; a missing extractor is
      the expression `undefined`. */
  lemma ExtractorText(a: string, b: string)
    ensures ComputeExtractor(Some(a)) == ComputeExtractor(Some(b)) ==> a == b
    ensures ComputeExtractor(None) == ComputeExtractor(Some("undefined"))
  {
    var prefix := "with (this) { return (";
    var suffix := ") }";
    if ComputeExtractor(Some(a)) == ComputeExtractor(Some(b)) {
      assert Body(a) == Body(b);
      assert |a| == |b|;
      assert a == Body(a)[|prefix|..|prefix| + |a|];
    }
  }

  // ------------------------------------------------------------------------
  // The range spec /^(\w+):(\d+);(\d+);(\d+)$/

  /** `\w` */
  predicate IsWordChar(c: char) {
    ('a' <= c <= 'z') || ('A' <= c <= 'Z') || ('0' <= c <= '9') || c == '_'
  }

  /** `\d` */
  predicate IsDigit(c: char) {
    '0' <= c <= '9'
  }

  predicate IsWord(s: string) {
    |s| > 0 && forall i :: 0 <= i < |s| ==> IsWordChar(s[i])
  }

  predicate IsDigits(s: string) {
    |s| > 0 && forall i :: 0 <= i < |s| ==> IsDigit(s[i])
  }

  /** The four capture groups of a successful match. */
  datatype RangeMatch = RangeMatch(kind: string, rawMin: string, rawRef: string, rawMax: string)

  /** The groups have the shapes the regular expression demands. */
  predicate IsRangeMatch(m: RangeMatch) {
    IsWord(m.kind) && IsDigits(m.rawMin) && IsDigits(m.rawRef) && IsDigits(m.rawMax)
  }

  /** The text a match spans: the whole scorer text, since the expression is
      anchored at both ends. */
  function RangeText(m: RangeMatch): string {
    m.kind + ":" + m.rawMin + ";" + m.rawRef + ";" + m.rawMax
  }

  /** The text before and after the first occurrence of `c`. */
  function Cut(s: string, c: char): (r: Option<(string, string)>)
    ensures r.None? <==> c !in s
    ensures r.Some? ==> s == r.value.0 + [c] + r.value.1 && c !in r.value.0
  {
    var i := IndexOf(s, c);
    if i == -1 then None
    else
      assert s == s[..i] + [c] + s[i + 1..];
      Some((s[..i], s[i + 1..]))
  }

  /** Cutting at the first `c` recovers the parts a text was built from. */
  lemma CutComplete(a: string, c: char, b: string)
    requires c !in a
    ensures Cut(a + [c] + b, c) == Some((a, b))
  {
    var s := a + [c] + b;
    IndexOfAfterPrefix(a, c, b);
    assert s[..|a|] == a;
    assert s[|a| + 1..] == b;
  }

  /** `/^(\w+):(\d+);(\d+);(\d+)$/.exec(text)`: since `:` is no word character
      and `;` no digit, the groups end at the first `:` and at the next two `;`. */
  function ExecRange(text: string): (r: Option<RangeMatch>)
    ensures r.Some? ==> IsRangeMatch(r.value) && text == RangeText(r.value)
  {
    match Cut(text, ':')
    case None => None
    case Some((kind, rest)) =>
      match Cut(rest, ';')
      case None => None
      case Some((rawMin, tail)) =>
        match Cut(tail, ';')
        case None => None
        case Some((rawRef, rawMax)) =>
          var m := RangeMatch(kind, rawMin, rawRef, rawMax);
          if IsRangeMatch(m) then
            RangeTextOfParts(text, rest, tail, m);
            Some(m)
          else None
  }

  /** Gluing the three cuts back together gives the range text. */
  lemma RangeTextOfParts(text: string, rest: string, tail: string, m: RangeMatch)
    requires text == m.kind + [':'] + rest
    requires rest == m.rawMin + [';'] + tail
    requires tail == m.rawRef + [';'] + m.rawMax
    ensures text == RangeText(m)
  {
  }

  /** A word holds no `:` and a digit string no `;`. */
  lemma NoSeparators(m: RangeMatch)
    requires IsRangeMatch(m)
    ensures ':' !in m.kind && ';' !in m.rawMin && ';' !in m.rawRef
  {
    forall i | 0 <= i < |m.kind|
      ensures m.kind[i] != ':'
    {
      assert IsWordChar(m.kind[i]);
    }
    forall i | 0 <= i < |m.rawMin|
      ensures m.rawMin[i] != ';'
    {
      assert IsDigit(m.rawMin[i]);
    }
    forall i | 0 <= i < |m.rawRef|
      ensures m.rawRef[i] != ';'
    {
      assert IsDigit(m.rawRef[i]);
    }
  }

  /** Every text of the range shape is matched, with the groups it was built from. */
  lemma ExecRangeComplete(m: RangeMatch)
    requires IsRangeMatch(m)
    ensures ExecRange(RangeText(m)) == Some(m)
  {
    NoSeparators(m);
    var tail := m.rawRef + ";" + m.rawMax;
    var rest := m.rawMin + ";" + tail;
    assert RangeText(m) == m.kind + [':'] + rest;
    assert rest == m.rawMin + [';'] + tail;
    assert tail == m.rawRef + [';'] + m.rawMax;
    CutComplete(m.kind, ':', rest);
    CutComplete(m.rawMin, ';', tail);
    CutComplete(m.rawRef, ';', m.rawMax);
  }

  /** `Number(raw)` for a string of decimal digits. */
  function DecimalValue(s: string): nat
    requires forall i :: 0 <= i < |s| ==> IsDigit(s[i])
  {
    if |s| == 0 then 0
    else
      assert IsDigit(s[|s| - 1]);
      DecimalValue(s[..|s| - 1]) * 10 + (s[|s| - 1] as int - '0' as int)
  }

  /** Leading zeros do not change the value. */
  lemma {:induction false} DecimalLeadingZero(s: string)
    requires forall i :: 0 <= i < |s| ==> IsDigit(s[i])
    ensures DecimalValue("0" + s) == DecimalValue(s)
  {
    if |s| > 0 {
      var t := s[..|s| - 1];
      assert ("0" + s)[..|"0" + s| - 1] == "0" + t;
      DecimalLeadingZero(t);
    }
  }

  /** `computeScorer(scorer)`: a range spec picks the gaussian comparator iff its
      kind is `gaussian` (every other kind is linear); anything else, a missing
      scorer included, is an expression whose text defaults to `0`. */
  function ComputeScorer(scorer: Option<string>): Scorer {
    var text := if scorer.Some? then scorer.value else "undefined";
    match ExecRange(text)
    case Some(m) =>
      RangeScorer(if m.kind == "gaussian" then Gaussian else Linear,
                  DecimalValue(m.rawMin), DecimalValue(m.rawRef), DecimalValue(m.rawMax))
    case None => ExpressionScorer(Body(if scorer.Some? && scorer.value != "" then scorer.value else "0"))
  }

  /** A range spec compiles to the comparator its kind names, with the bounds its
      digits spell. */
  lemma RangeSpecScorer(m: RangeMatch)
    requires IsRangeMatch(m)
    ensures ComputeScorer(Some(RangeText(m))) ==
      RangeScorer(if m.kind == "gaussian" then Gaussian else Linear,
                  DecimalValue(m.rawMin), DecimalValue(m.rawRef), DecimalValue(m.rawMax))
  {
    ExecRangeComplete(m);
  }

  /** A text that does not have the range shape, and a missing scorer, compile to
      an expression; the missing and the empty scorer to the expression `0`. */
  lemma ExpressionScorerFallback(scorer: Option<string>)
    requires scorer.Some? ==> ExecRange(scorer.value).None?
    ensures ComputeScorer(scorer) ==
      ExpressionScorer(Body(if scorer.Some? && scorer.value != "" then scorer.value else "0"))
  {
    if scorer.None? {
      var text := "undefined";
      assert forall i :: 0 <= i < |text| ==> text[i] != ':';
      assert Cut(text, ':') == None;
    }
  }

  // ------------------------------------------------------------------------
  // Running the code a rule carries

  /** What running a piece of rule code gives: a value, or a thrown exception. */
  datatype Outcome = Returns(value: JsValue) | Throws(error: JsValue)

  /** What lies outside the pipeline: evaluating extractor and scorer bodies
      against the namespace, the two range comparators, `a / b` where it is not
      a division of numbers by a nonzero number, and the TypeError the spread
      operator raises for a value that is not iterable. */
  datatype Env = Env(
    evalExtractor: (string, JsValue, JsValue) -> Outcome,
    evalScorer: (string, JsValue, JsValue, JsValue) -> Outcome,
    compare: (Comparator, JsValue, JsValue, nat, nat, nat) -> real,
    quotient: (JsValue, JsValue) -> real,
    notIterable: JsValue -> JsValue)

  /** `new Error('Bad result: ' + result)` */
  function BadResult(v: JsValue): JsValue
    requires v.Str? || v.Obj? || v.Regex? || v.Fn? || v.Err?
  {
    Err("Error", "Bad result: " + Display(v))
  }

  /** `wrapScore(fn)` applied to what `fn` did: every outcome becomes an array of
      at least three elements, and nothing is thrown. */
  function WrapScore(o: Outcome): (r: seq<JsValue>)
    ensures |r| >= 3
  {
    match o
    case Throws(e) => [Num(0.0), Num(1.0), Arr([e])]
    case Returns(v) =>
      match v
      case Num(_) => [v, Num(1.0), Arr([])]
      case Bool(b) => [Num(if b then 1.0 else 0.0), Num(1.0), Arr([])]
      case Undef => [Num(0.0), Num(1.0), Arr([])]
      case Arr(xs) =>
        if |xs| >= 3 then xs
        else if |xs| == 2 then xs + [Arr([])]
        else if |xs| == 1 then xs + [Num(1.0), Arr([])]
        else [Num(0.0), Num(1.0), Arr([])]
      case Null => [Num(0.0), Num(1.0), Arr([])]
      case _ => [Num(0.0), Num(1.0), Arr([BadResult(v)])]
  }

  /** The shape of every normalised score: a returned array is kept as its
      prefix (whole when it has three elements or more); anything else becomes a
      triple whose third element is an error array, achieved out of 1 unless the
      array gave its own second element; a short array is padded with `1` as the
      possible score and an empty error list, and `[]` counts 0 out of 1; a
      thrown exception is the only error. */
  lemma WrapScoreShape(o: Outcome)
    ensures var r := WrapScore(o);
      && (o.Returns? && o.value.Arr? ==> o.value.elems <= r)
      && (o.Returns? && o.value.Arr? && |o.value.elems| >= 3 ==> r == o.value.elems)
      && (!(o.Returns? && o.value.Arr? && |o.value.elems| >= 3) ==> |r| == 3 && r[2].Arr?)
      && (!(o.Returns? && o.value.Arr? && |o.value.elems| >= 2) ==> r[1] == Num(1.0))
      && (o.Returns? && o.value.Arr? && |o.value.elems| < 3 ==> r[2] == Arr([]))
      && (o == Returns(Arr([])) ==> r == [Num(0.0), Num(1.0), Arr([])])
      && (o.Returns? && o.value.Arr? && |o.value.elems| == 1 ==> r == o.value.elems + [Num(1.0), Arr([])])
      && (o.Returns? && o.value.Arr? && |o.value.elems| == 2 ==> r == o.value.elems + [Arr([])])
      && (o.Throws? ==> r == [Num(0.0), Num(1.0), Arr([o.error])])
  {
  }

  /** Scalars: a number is achieved out of 1, a boolean counts 1 or 0, null and
      undefined count 0; strings, functions and other objects are reported as a
      bad result. */
  lemma WrapScoreScalars(v: JsValue)
    ensures v.Num? ==> WrapScore(Returns(v)) == [v, Num(1.0), Arr([])]
    ensures v.Bool? ==> WrapScore(Returns(v)) == [Num(if v.b then 1.0 else 0.0), Num(1.0), Arr([])]
    ensures v.Undef? || v.Null? ==> WrapScore(Returns(v)) == [Num(0.0), Num(1.0), Arr([])]
    ensures v.Str? || v.Obj? || v.Regex? || v.Fn? || v.Err? ==>
      WrapScore(Returns(v)) == [Num(0.0), Num(1.0), Arr([Err("Error", "Bad result: " + Display(v))])]
  {
  }

  /** Normalising a normalised score changes nothing. */
  lemma WrapScoreIdempotent(o: Outcome)
    ensures WrapScore(Returns(Arr(WrapScore(o)))) == WrapScore(o)
  {
  }

  /** The array `scorer.call(namespace, l, r)` returns for a compiled scorer. */
  function RunScorer(env: Env, namespace: JsValue, s: Scorer, l: JsValue, r: JsValue): (result: seq<JsValue>)
    ensures |result| >= 3
  {
    match s
    case RangeScorer(c, min, ref, max) => WrapScore(Returns(Num(env.compare(c, l, r, min, ref, max))))
    case ExpressionScorer(code) => WrapScore(env.evalScorer(code, namespace, l, r))
  }

  /** A range scorer achieves what its comparator gives, out of 1, with no errors. */
  lemma RangeScorerResult(env: Env, namespace: JsValue, c: Comparator, min: nat, ref: nat, max: nat, l: JsValue, r: JsValue)
    ensures RunScorer(env, namespace, RangeScorer(c, min, ref, max), l, r) ==
      [Num(env.compare(c, l, r, min, ref, max)), Num(1.0), Arr([])]
  {
  }

  /** What a scored rule adds to `score`: `(result[0] / result[1]) * strength`. */
  function Contribution(env: Env, result: seq<JsValue>, strength: real): real
    requires |result| >= 2
  {
    Quotient(env, result[0], result[1]) * strength
  }

  /** `a / b` */
  function Quotient(env: Env, a: JsValue, b: JsValue): real {
    if a.Num? && b.Num? && b.n != 0.0 then a.n / b.n else env.quotient(a, b)
  }

  /** The elements the spread operator visits: an array's elements, a string's
      characters; nothing else is iterable. */
  function Spread(v: JsValue): (r: Option<seq<JsValue>>)
    ensures r.Some? <==> v.Arr? || v.Str?
    ensures v.Arr? ==> r == Some(v.elems)
  {
    match v
    case Arr(elems) => Some(elems)
    case Str(s) => Some(Chars(s))
    case _ => None
  }

  // ------------------------------------------------------------------------
  // execute

  /** The part of the `try` block before the accumulators are touched: the two
      extractors, then the scorer. */
  datatype Attempt = Threw(error: JsValue) | Scored(result: seq<JsValue>)

  function RunRule(env: Env, namespace: JsValue, rule: Rule, left: JsValue, right: JsValue): (a: Attempt)
    ensures a.Scored? ==> |a.result| >= 3
  {
    match env.evalExtractor(rule.extractor.code, namespace, left)
    case Throws(e) => Threw(e)
    case Returns(leftValue) =>
      match env.evalExtractor(rule.against.code, namespace, right)
      case Throws(e) => Threw(e)
      case Returns(rightValue) => Scored(RunScorer(env, namespace, rule.scorer, leftValue, rightValue))
  }

  /** What one rule adds to `score` and to `errors`, when a rule that fails at
      any point, the spread of its error list included, counts as a thrown rule. */
  function Effect(env: Env, namespace: JsValue, rule: Rule, left: JsValue, right: JsValue): (real, seq<JsValue>) {
    match RunRule(env, namespace, rule, left, right)
    case Threw(error) => (0.0, [error])
    case Scored(result) =>
      match Spread(result[2])
      case Some(errors) => (Contribution(env, result, rule.strength), errors)
      case None => (0.0, [env.notIterable(result[2])])
  }

  /** The three accumulators of `execute`. */
  datatype Totals = Totals(score: real, total: real, errors: seq<JsValue>)

  /** The sum of the rules' strengths. */
  function StrengthSum(rules: seq<Rule>): real {
    if |rules| == 0 then 0.0 else StrengthSum(rules[..|rules| - 1]) + rules[|rules| - 1].strength
  }

  /** One pass of the corrected loop body: the rule's strength goes to the total
      once, its `Effect` to the score and to the error list. */
  function StepCorrected(env: Env, namespace: JsValue, acc: Totals, rule: Rule, left: JsValue, right: JsValue): Totals {
    var (gained, thrown) := Effect(env, namespace, rule, left, right);
    Totals(acc.score + gained, acc.total + rule.strength, acc.errors + thrown)
  }

  /** The accumulators after the corrected `execute`. */
  function Corrected(env: Env, namespace: JsValue, rules: seq<Rule>, left: JsValue, right: JsValue): Totals {
    if |rules| == 0 then Totals(0.0, 0.0, [])
    else StepCorrected(env, namespace, Corrected(env, namespace, rules[..|rules| - 1], left, right), rules[|rules| - 1], left, right)
  }

  /** `execute(rules, left, right, namespace)` with every rule's strength counted
      once: the triple is `Corrected`, whose total is the strength sum
      (`CorrectedTotal`). */
  method Execute(env: Env, rules: seq<Rule>, left: JsValue, right: JsValue, namespace: JsValue)
    returns (score: real, total: real, errors: seq<JsValue>)
    ensures Totals(score, total, errors) == Corrected(env, namespace, rules, left, right)
  {
    score, total, errors := 0.0, 0.0, [];
    for i := 0 to |rules|
      invariant score == Corrected(env, namespace, rules[..i], left, right).score
      invariant total == Corrected(env, namespace, rules[..i], left, right).total
      invariant errors == Corrected(env, namespace, rules[..i], left, right).errors
    {
      CorrectedPrefixStep(env, namespace, rules, i, left, right);
      score, total, errors := TryRule(env, namespace, rules[i], left, right, score, total, errors);
    }
    assert rules[..|rules|] == rules;
  }

  /** The `try` block and the `catch` of one rule, with the spread of its error
      list done before the accumulators are touched, so that a throw from it is
      handled like any other. */
  method TryRule(env: Env, namespace: JsValue, rule: Rule, left: JsValue, right: JsValue,
                 score0: real, total0: real, errors0: seq<JsValue>)
    returns (score: real, total: real, errors: seq<JsValue>)
    ensures Totals(score, total, errors) == StepCorrected(env, namespace, Totals(score0, total0, errors0), rule, left, right)
  {
    score, total, errors := score0, total0, errors0;
    var outcome := env.evalExtractor(rule.extractor.code, namespace, left);
    if outcome.Throws? {
      total := total + rule.strength;
      errors := errors + [outcome.error];
      return;
    }
    var leftValue := outcome.value;
    outcome := env.evalExtractor(rule.against.code, namespace, right);
    if outcome.Throws? {
      total := total + rule.strength;
      errors := errors + [outcome.error];
      return;
    }
    var rightValue := outcome.value;
    var result := RunScorer(env, namespace, rule.scorer, leftValue, rightValue);
    assert RunRule(env, namespace, rule, left, right) == Scored(result);
    var spread := Spread(result[2]);
    if spread.None? {
      total := total + rule.strength;
      errors := errors + [env.notIterable(result[2])];
      return;
    }
    score := score + Contribution(env, result, rule.strength);
    total := total + rule.strength;
    errors := errors + spread.value;
  }

  /** One more rule: one more pass of the corrected loop body. */
  lemma CorrectedPrefixStep(env: Env, namespace: JsValue, rules: seq<Rule>, i: nat, left: JsValue, right: JsValue)
    requires i < |rules|
    ensures Corrected(env, namespace, rules[..i + 1], left, right) ==
      StepCorrected(env, namespace, Corrected(env, namespace, rules[..i], left, right), rules[i], left, right)
  {
    assert rules[..i + 1][..i] == rules[..i];
  }

  /** Whether each rule scored or threw, the total is the sum of the strengths. */
  lemma {:induction false} CorrectedTotal(env: Env, namespace: JsValue, rules: seq<Rule>, left: JsValue, right: JsValue)
    ensures Corrected(env, namespace, rules, left, right).total == StrengthSum(rules)
  {
    if |rules| > 0 {
      CorrectedTotal(env, namespace, rules[..|rules| - 1], left, right);
    }
  }

  /** A single rule in the corrected `execute` (`Corrected`, not the loop as
      written): a rule that throws, in an extractor or in spreading its errors,
      adds nothing to the score and its error to the list; any other rule adds
      `result[0] / result[1]` times its strength and its error list. Either way
      the total is the strength. */
  lemma OneRule(env: Env, namespace: JsValue, rule: Rule, left: JsValue, right: JsValue)
    ensures var a := RunRule(env, namespace, rule, left, right);
      && (a.Threw? ==>
            Corrected(env, namespace, [rule], left, right) == Totals(0.0, rule.strength, [a.error]))
      && (a.Scored? && Spread(a.result[2]).Some? ==>
            Corrected(env, namespace, [rule], left, right) ==
              Totals(Contribution(env, a.result, rule.strength), rule.strength, Spread(a.result[2]).value))
      && (a.Scored? && Spread(a.result[2]).None? ==>
            Corrected(env, namespace, [rule], left, right) == Totals(0.0, rule.strength, [env.notIterable(a.result[2])]))
  {
    assert [rule][..0] == [];
    var (gained, thrown) := Effect(env, namespace, rule, left, right);
    assert Corrected(env, namespace, [rule], left, right) == Totals(0.0 + gained, 0.0 + rule.strength, [] + thrown);
    assert [] + thrown == thrown;
  }

  /** A run splits at any rule: the scores and the totals add up and `errors`
      keeps rule order. */
  lemma {:induction false} ExecuteSplits(env: Env, namespace: JsValue, a: seq<Rule>, b: seq<Rule>, left: JsValue, right: JsValue)
    ensures var (ta, tb) := (Corrected(env, namespace, a, left, right), Corrected(env, namespace, b, left, right));
      Corrected(env, namespace, a + b, left, right) == Totals(ta.score + tb.score, ta.total + tb.total, ta.errors + tb.errors)
  {
    if |b| > 0 {
      var b', rule := b[..|b| - 1], b[|b| - 1];
      assert (a + b)[..|a + b| - 1] == a + b';
      assert (a + b)[|a + b| - 1] == rule;
      ExecuteSplits(env, namespace, a, b', left, right);
      SplitStep(env, namespace, Corrected(env, namespace, a, left, right), Corrected(env, namespace, b', left, right),
                Corrected(env, namespace, a + b', left, right), rule, left, right);
    } else {
      assert a + b == a;
    }
  }

  /** The step of `ExecuteSplits`: one more pass after the concatenation adds to
      the second half only. */
  lemma SplitStep(env: Env, namespace: JsValue, ta: Totals, tb: Totals, tab: Totals, rule: Rule, left: JsValue, right: JsValue)
    requires tab == Totals(ta.score + tb.score, ta.total + tb.total, ta.errors + tb.errors)
    ensures var next := StepCorrected(env, namespace, tb, rule, left, right);
      StepCorrected(env, namespace, tab, rule, left, right) == Totals(ta.score + next.score, ta.total + next.total, ta.errors + next.errors)
  {
    var (gained, thrown) := Effect(env, namespace, rule, left, right);
    assert ta.errors + tb.errors + thrown == ta.errors + (tb.errors + thrown);
  }

  /** Parsed rules all weigh at least 1, so the total is at least the number of
      rules. */
  lemma {:induction false} TotalAtLeastRuleCount(rules: seq<Rule>)
    requires forall i :: 0 <= i < |rules| ==> rules[i].strength >= 1.0
    ensures StrengthSum(rules) >= |rules| as real
  {
    if |rules| > 0 {
      TotalAtLeastRuleCount(rules[..|rules| - 1]);
    }
  }

  // ------------------------------------------------------------------------
  // execute as written

  /** One pass of the loop body as written: the score and the total are updated
      before the rule's errors are spread into `errors`, so when that spread
      throws, the `catch` adds the strength to the total a second time. */
  function StepAsWritten(env: Env, namespace: JsValue, acc: Totals, rule: Rule, left: JsValue, right: JsValue): Totals {
    match RunRule(env, namespace, rule, left, right)
    case Threw(e) => Totals(acc.score, acc.total + rule.strength, acc.errors + [e])
    case Scored(result) =>
      var score := acc.score + Contribution(env, result, rule.strength);
      match Spread(result[2])
      case Some(es) => Totals(score, acc.total + rule.strength, acc.errors + es)
      case None => Totals(score, acc.total + rule.strength + rule.strength, acc.errors + [env.notIterable(result[2])])
  }

  /** The accumulators after `execute` as written. */
  function AsWritten(env: Env, namespace: JsValue, rules: seq<Rule>, left: JsValue, right: JsValue): Totals {
    if |rules| == 0 then Totals(0.0, 0.0, [])
    else StepAsWritten(env, namespace, AsWritten(env, namespace, rules[..|rules| - 1], left, right), rules[|rules| - 1], left, right)
  }

  /** One more rule: one more pass of the loop body. */
  lemma AsWrittenPrefixStep(env: Env, namespace: JsValue, rules: seq<Rule>, i: nat, left: JsValue, right: JsValue)
    requires i < |rules|
    ensures AsWritten(env, namespace, rules[..i + 1], left, right) ==
      StepAsWritten(env, namespace, AsWritten(env, namespace, rules[..i], left, right), rules[i], left, right)
  {
    assert rules[..i + 1][..i] == rules[..i];
  }

  /** `execute` as written, statement by statement. */
  method ExecuteAsWritten(env: Env, rules: seq<Rule>, left: JsValue, right: JsValue, namespace: JsValue)
    returns (score: real, total: real, errors: seq<JsValue>)
    ensures Totals(score, total, errors) == AsWritten(env, namespace, rules, left, right)
  {
    score, total, errors := 0.0, 0.0, [];
    for i := 0 to |rules|
      invariant score == AsWritten(env, namespace, rules[..i], left, right).score
      invariant total == AsWritten(env, namespace, rules[..i], left, right).total
      invariant errors == AsWritten(env, namespace, rules[..i], left, right).errors
    {
      AsWrittenPrefixStep(env, namespace, rules, i, left, right);
      score, total, errors := TryRuleAsWritten(env, namespace, rules[i], left, right, score, total, errors);
    }
    assert rules[..|rules|] == rules;
  }

  /** The `try` block and the `catch` of one rule as written, on the three
      accumulators: the score and the total grow before the error list is
      spread, and a throw from that spread reaches the `catch`. */
  method TryRuleAsWritten(env: Env, namespace: JsValue, rule: Rule, left: JsValue, right: JsValue,
                          score0: real, total0: real, errors0: seq<JsValue>)
    returns (score: real, total: real, errors: seq<JsValue>)
    ensures Totals(score, total, errors) == StepAsWritten(env, namespace, Totals(score0, total0, errors0), rule, left, right)
  {
    score, total, errors := score0, total0, errors0;
    var outcome := env.evalExtractor(rule.extractor.code, namespace, left);
    if outcome.Throws? {
      total := total + rule.strength;
      errors := errors + [outcome.error];
      return;
    }
    var leftValue := outcome.value;
    outcome := env.evalExtractor(rule.against.code, namespace, right);
    if outcome.Throws? {
      total := total + rule.strength;
      errors := errors + [outcome.error];
      return;
    }
    var rightValue := outcome.value;
    var result := RunScorer(env, namespace, rule.scorer, leftValue, rightValue);
    assert RunRule(env, namespace, rule, left, right) == Scored(result);
    score := score + Contribution(env, result, rule.strength);
    total := total + rule.strength;
    var spread := Spread(result[2]);
    if spread.None? {
      total := total + rule.strength;
      errors := errors + [env.notIterable(result[2])];
      return;
    }
    errors := errors + spread.value;
  }

  /** A rule whose spread cannot fail. */
  predicate SpreadSucceeds(env: Env, namespace: JsValue, rule: Rule, left: JsValue, right: JsValue) {
    var a := RunRule(env, namespace, rule, left, right);
    a.Scored? ==> Spread(a.result[2]).Some?
  }

  /** When no rule's error list fails to spread, the code as written computes the
      corrected triple. */
  lemma {:induction false} AsWrittenAgrees(env: Env, namespace: JsValue, rules: seq<Rule>, left: JsValue, right: JsValue)
    requires forall i :: 0 <= i < |rules| ==> SpreadSucceeds(env, namespace, rules[i], left, right)
    ensures AsWritten(env, namespace, rules, left, right) == Corrected(env, namespace, rules, left, right)
  {
    if |rules| > 0 {
      var n := |rules| - 1;
      var prev := rules[..n];
      assert forall i :: 0 <= i < n ==> prev[i] == rules[i];
      AsWrittenAgrees(env, namespace, prev, left, right);
      assert SpreadSucceeds(env, namespace, rules[n], left, right);
      StepAgrees(env, namespace, AsWritten(env, namespace, prev, left, right), rules[n], left, right);
    }
  }

  /** For a rule whose spread cannot fail, one pass as written is one corrected
      pass. */
  lemma StepAgrees(env: Env, namespace: JsValue, acc: Totals, rule: Rule, left: JsValue, right: JsValue)
    requires SpreadSucceeds(env, namespace, rule, left, right)
    ensures StepAsWritten(env, namespace, acc, rule, left, right) == StepCorrected(env, namespace, acc, rule, left, right)
  {
  }

  /** A rule that scores but whose error slot cannot be spread adds its strength
      to the total twice in `execute` as written, where the strength sum counts
      it once; the corrected `execute` then agrees with the strength sum. */
  lemma SpreadFailureCountsTwice(env: Env, namespace: JsValue, rule: Rule, left: JsValue, right: JsValue)
    requires RunRule(env, namespace, rule, left, right).Scored?
    requires Spread(RunRule(env, namespace, rule, left, right).result[2]).None?
    ensures AsWritten(env, namespace, [rule], left, right).total == rule.strength + rule.strength
    ensures StrengthSum([rule]) == rule.strength
  {
    assert [rule][..0] == [];
  }

  /** The serialized rule of the counterexample: an expression scorer that
      returns `[1, 1, null]`, both extractors the expression `c`, strength 1. */
  lemma CounterexampleRule()
    ensures ParseRule(SerializedRule("c", "c", "c", None, None, None, Some("[1, 1, null]"))) ==
      Rule("c", "c", "c", 1.0, Extractor(Body("undefined")), Extractor(Body("undefined")), ExpressionScorer(Body("[1, 1, null]")))
  {
    var text := "[1, 1, null]";
    assert forall i :: 0 <= i < |text| ==> text[i] != ':';
    assert Cut(text, ':') == None;
    ExpressionScorerFallback(Some(text));
  }

  /** The environment of the counterexample: both extractors give undefined,
      the scorer returns `[1, 1, null]`, and spreading a non-iterable raises a
      TypeError. */
  function CounterexampleEnv(): Env {
    Env(
      (code, namespace, arg) => Returns(Undef),
      (code, namespace, l, r) => Returns(Arr([Num(1.0), Num(1.0), Null])),
      (c, l, r, min, ref, max) => 0.0,
      (a, b) => 0.0,
      v => Err("TypeError", ""))
  }

  /** The counterexample rule scores `[1, 1, null]`, whose error slot cannot be
      spread. */
  lemma CounterexampleScores(rule: Rule)
    requires rule.scorer.ExpressionScorer?
    ensures RunRule(CounterexampleEnv(), Undef, rule, Undef, Undef) == Scored([Num(1.0), Num(1.0), Null])
  {
    var env := CounterexampleEnv();
    var returned := [Num(1.0), Num(1.0), Null];
    assert env.evalExtractor(rule.extractor.code, Undef, Undef) == Returns(Undef);
    assert env.evalExtractor(rule.against.code, Undef, Undef) == Returns(Undef);
    assert env.evalScorer(rule.scorer.code, Undef, Undef, Undef) == Returns(Arr(returned));
    assert WrapScore(Returns(Arr(returned))) == returned;
  }

  /** A concrete run of `execute` as written whose total is 2 for a single rule
      of strength 1: its scorer returns `[1, 1, null]` and spreading `null`
      throws. */
  lemma AsWrittenCountsTwice()
    ensures var rule := ParseRule(SerializedRule("c", "c", "c", None, None, None, Some("[1, 1, null]")));
      && AsWritten(CounterexampleEnv(), Undef, [rule], Undef, Undef).total == 2.0
      && StrengthSum([rule]) == 1.0
  {
    CounterexampleRule();
    var rule := ParseRule(SerializedRule("c", "c", "c", None, None, None, Some("[1, 1, null]")));
    CounterexampleScores(rule);
    assert Spread(Null).None?;
    SpreadFailureCountsTwice(CounterexampleEnv(), Undef, rule, Undef, Undef);
  }
}
