/** The earlier dispatcher of src/index.ts. It builds the same tester variants as
    src/Matches.ts and they test alike, but it consults only the string registry
    of its knowledge (which it still hands on, whole, to registered constructors),
    and a tagged object or an in-order fit `[[...]]` raises "Not yet implemented"
    instead of compiling. */
module Index {
  import opened Wrappers
  import opened Js
  import Matches

  /** `new MatchAny(knowledge, pattern)` of the earlier dispatcher. */
  function Compile(h: Matches.Host, k: Matches.Knowledge, p: JsValue): Matches.Compiled
    decreases p, 3
  {
    match p
    case Undef => Success(Matches.Equal(Undef))
    case Bool(_) => Success(Matches.Equal(Undef))
    case Num(_) => Success(Matches.Equal(p))
    case Str(s) => Success(Matches.Meta(h, k, s))
    case Fn(code) => Success(Matches.Adopted(code))
    case Null => Success(Matches.Nullish)
    case Arr(xs) =>
      if Matches.IsFitShape(xs) then Failure(Matches.NotYetImplemented) // MatchArrayFit's constructor throws
      else Matches.OneOfResult(h, xs, CompileEach(h, k, xs))
    case Regex(source, flags) => Success(Matches.Pattern(source, flags))
    case Obj(props) =>
      if Matches.IsTagged(p) then Failure(Matches.NotYetImplemented)
      else CompileAllOf(h, k, props)
    case Err(_, _) => Success(Matches.Equal(p))
  }

  /** The members of an array pattern, each compiled. */
  function CompileEach(h: Matches.Host, k: Matches.Knowledge, ys: seq<JsValue>): (rs: seq<Matches.Compiled>)
    decreases Arr(ys), 1
    ensures |rs| == |ys|
    ensures forall i :: 0 <= i < |ys| ==> rs[i] == Compile(h, k, ys[i])
  {
    seq(|ys|, i requires 0 <= i < |ys| => Compile(h, k, ys[i]))
  }

  /** `new MatchAllOf(knowledge, object)` of the earlier dispatcher. */
  function CompileAllOf(h: Matches.Host, k: Matches.Knowledge, props: map<string, JsValue>): Matches.Compiled
    decreases Obj(props), 2
  {
    Matches.CollectFields(CompileFields(h, k, props))
  }

  /** The values of an object pattern, each compiled. */
  function CompileFields(h: Matches.Host, k: Matches.Knowledge, props: map<string, JsValue>): (rs: map<string, Matches.Compiled>)
    decreases Obj(props), 1
    ensures rs.Keys == props.Keys
    ensures forall key :: key in props ==> rs[key] == Compile(h, k, props[key])
  {
    map key | key in props :: Compile(h, k, props[key])
  }

  /** `new MatchOneOf(knowledge, array)` of the earlier dispatcher: the same
      constructor loop, with this dispatcher compiling the members. */
  method MatchOneOf(h: Matches.Host, k: Matches.Knowledge, items: seq<JsValue>) returns (r: Matches.Compiled)
    requires !Matches.IsFitShape(items)
    ensures r == Compile(h, k, Arr(items))
  {
    r := Matches.BuildOneOf(h, x => Compile(h, k, x), items);
    assert seq(|items|, i requires 0 <= i < |items| => (x => Compile(h, k, x))(items[i])) == CompileEach(h, k, items);
  }

  /** A tagged object and a one-array array both raise "Not yet implemented". */
  lemma NotYetImplementedBranches(h: Matches.Host, k: Matches.Knowledge, p: JsValue)
    ensures Matches.IsTagged(p) ==> Compile(h, k, p) == Failure(Matches.NotYetImplemented)
    ensures p.Arr? && Matches.IsFitShape(p.elems) ==> Compile(h, k, p) == Failure(Matches.NotYetImplemented)
  {
  }

  /** The only exception this dispatcher raises is "Not yet implemented", from
      whatever depth of the pattern. */
  lemma {:induction false} FaultIsNotYetImplemented(h: Matches.Host, k: Matches.Knowledge, p: JsValue)
    ensures Compile(h, k, p).Failure? ==> Compile(h, k, p).error == Matches.NotYetImplemented
    decreases p
  {
    match p
    case Arr(xs) =>
      forall i | 0 <= i < |xs|
        ensures Compile(h, k, xs[i]).Failure? ==> Compile(h, k, xs[i]).error == Matches.NotYetImplemented
      {
        FaultIsNotYetImplemented(h, k, xs[i]);
      }
    case Obj(props) =>
      var rs := CompileFields(h, k, props);
      forall key | key in props
        ensures rs[key].Failure? ==> rs[key].error == Matches.NotYetImplemented
      {
        FaultIsNotYetImplemented(h, k, props[key]);
      }
    case _ =>
  }

  /** Wherever the earlier dispatcher succeeds, src/Matches.ts, given the same
      knowledge, builds the same tester: the later compiler only adds behaviour
      where this one raised "Not yet implemented". */
  lemma {:induction false} AgreesWithMatches(h: Matches.Host, k: Matches.Knowledge, p: JsValue)
    ensures Compile(h, k, p).Success? ==> Matches.Compile(h, k, p) == Compile(h, k, p)
    decreases p
  {
    match p
    case Arr(xs) =>
      if !Matches.IsFitShape(xs) && Compile(h, k, p).Success? {
        var rs := CompileEach(h, k, xs);
        assert Collect(rs).Success?;
        forall i | 0 <= i < |xs|
          ensures Matches.Compile(h, k, xs[i]) == rs[i]
        {
          AgreesWithMatches(h, k, xs[i]);
        }
        assert Matches.CompileEach(h, k, xs) == rs;
      }
    case Obj(props) =>
      if !Matches.IsTagged(p) && Compile(h, k, p).Success? {
        var rs := CompileFields(h, k, props);
        assert Compile(h, k, p) == Matches.CollectFields(rs);
        forall key | key in props
          ensures Matches.Compile(h, k, props[key]) == rs[key]
        {
          assert rs[key] == Compile(h, k, props[key]) && rs[key].Success?;
          AgreesWithMatches(h, k, props[key]);
        }
        assert Matches.CompileFields(h, k, props) == rs;
        assert Matches.Compile(h, k, p) == Matches.CompileAllOf(h, k, props);
      }
    case _ =>
  }

  /** The string dispatch consults only `knowledge.String`, then the built-in
      `Regexp` schema, and otherwise compares the whole string. */
  lemma MetaDispatch(h: Matches.Host, k: Matches.Knowledge, schema: string, body: string)
    requires ':' !in schema
    ensures schema in k.strings ==>
      Compile(h, k, Str(schema + ":" + body)) == Success(Matches.Custom(k.strings[schema], k, Str(body)))
    ensures schema !in k.strings && schema == "Regexp" ==>
      Compile(h, k, Str(schema + ":" + body)) == Success(Matches.RegexFromString(h, body))
    ensures schema !in k.strings && schema != "Regexp" ==>
      Compile(h, k, Str(schema + ":" + body)) == Success(Matches.Equal(Str(schema + ":" + body)))
  {
    Matches.MetaDispatch(h, k, schema, body);
  }

  /** The earlier MatchOneOf accepts exactly when some member, read as
      Matches.MemberAccepts says, accepts. */
  lemma OneOfSemantics(h: Matches.Host, k: Matches.Knowledge, xs: seq<JsValue>, x: JsValue)
    requires !Matches.IsFitShape(xs) && Compile(h, k, Arr(xs)).Success?
    ensures Matches.Accepts(h, Compile(h, k, Arr(xs)).value, x) <==>
      exists j :: 0 <= j < |xs| &&
        Compile(h, k, xs[j]).Success? &&
        Matches.MemberAccepts(h, xs[j], Compile(h, k, xs[j]).value, x)
  {
    var rs := CompileEach(h, k, xs);
    Matches.OneOfSemantics(h, xs, rs, x);
  }

  /** The earlier MatchAllOf: falsy and non-object inputs fail; otherwise every
      key of the pattern must be present and accepted. */
  lemma AllOfSemantics(h: Matches.Host, k: Matches.Knowledge, props: map<string, JsValue>, x: JsValue)
    requires !Matches.IsTagged(Obj(props)) && Compile(h, k, Obj(props)).Success?
    ensures Matches.Accepts(h, Compile(h, k, Obj(props)).value, x) <==>
      && Truthy(x) && IsObjectType(x)
      && forall key :: key in props ==>
           && HasKey(x, key)
           && Compile(h, k, props[key]).Success?
           && Matches.Accepts(h, Compile(h, k, props[key]).value, Get(x, key))
  {
    var rs := CompileFields(h, k, props);
    assert forall key :: key in props ==> rs[key] == Compile(h, k, props[key]);
    assert Compile(h, k, Obj(props)) == Matches.CollectFields(rs);
  }
}
