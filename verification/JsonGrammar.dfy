/** The token automaton against the grammar of section 2 of RFC 4627. */
module JsonGrammar {
  import opened Bytes
  import opened JsonValue
  import opened JsonParser

  // ----- the grammar, as the token form of a tree

  function TokensOf(j: Json): seq<Token> {
    match j
    case JNull => [NullToken]
    case JFalse => [FalseToken]
    case JTrue => [TrueToken]
    case JInteger(n) => [IntegerToken(n)]
    case JReal(d) => [RealToken(d)]
    case JString(s) => [StringToken(s)]
    case JArray(es) => [BeginArray] + (if es == [] then [] else TokensOf(es[0]) + ElemTail(es[1..])) + [EndArray]
    case JObject(ms) => [BeginObject] + (if ms == [] then [] else MemberTokens(ms[0]) + MemberTail(ms[1..])) + [EndObject]
  }

  function MemberTokens(m: Member): seq<Token> {
    [StringToken(m.name), NameSeparator] + TokensOf(m.value)
  }

  function ElemTail(es: seq<Json>): seq<Token> {
    if es == [] then [] else [ValueSeparator] + TokensOf(es[0]) + ElemTail(es[1..])
  }

  function MemberTail(ms: seq<Member>): seq<Token> {
    if ms == [] then [] else [ValueSeparator] + MemberTokens(ms[0]) + MemberTail(ms[1..])
  }

  /** Feeding tokens until the parser is done. */
  function Run(p: Parser, tokens: seq<Token>): (q: Parser)
    requires Valid(p)
    ensures Valid(q)
    decreases |tokens|
  {
    if tokens == [] || p.done then p
    else
      InputValid(p, tokens[0]);
      Run(Input(p, tokens[0]), tokens[1..])
  }

  lemma RunStep(p: Parser, t: Token, rest: seq<Token>)
    requires Valid(p) && !p.done
    ensures Valid(Input(p, t))
    ensures Run(p, [t] + rest) == Run(Input(p, t), rest)
  {
    InputValid(p, t);
    assert ([t] + rest)[1..] == rest;
  }

  ghost predicate InValuePosition(p: Parser) {
    Valid(p) && !p.done && ExpectsValue(p.state)
  }

  ghost predicate Between(p: Parser) {
    Valid(p) && !p.done && p.state in {ObjectNext, ArrayNext}
  }

  /** The frames under the top one. */
  function Base(p: Parser): seq<Frame>
    requires p.stack != []
  {
    p.stack[..|p.stack| - 1]
  }

  /** The parser after a container that holds `v` has been closed on top of `base`. */
  function Closed(setup: Setup, base: seq<Frame>, v: Value): Parser
    requires base != [] ==> Linked(base[|base| - 1])
  {
    if base == [] then
      Parser(setup, End, [Frame(v, [])], None, !setup.trailer, None)
    else
      var f := base[|base| - 1].(node := Plug(base[|base| - 1], v));
      Parser(setup, if f.node.VArray? then ArrayNext else ObjectNext, base[..|base| - 1] + [f], None, false, None)
  }

  lemma PopIsClosed(p: Parser)
    requires Valid(p) && !p.done && p.memberName.None? && p.stack != []
    ensures Pop(p) == Closed(p.setup, Base(p), Top(p).node)
  {
    if |p.stack| > 1 {
      assert Linked(p.stack[|p.stack| - 2]);
      assert Base(p)[..|Base(p)| - 1] == p.stack[..|p.stack| - 2];
    }
  }

  /** Pushing an empty container and closing it as `v` is putting `v`. */
  lemma PushClose(p: Parser, empty: Value, state: ParseState, v: Value)
    requires InValuePosition(p) && |p.stack| < p.setup.height
    requires (empty == VObject(map[]) && state == ObjectInit) || (empty == VArray([]) && state == ArrayInit)
    ensures var q := Push(p, empty, state);
            && Valid(q) && !q.done && q.state == state && Top(q).node == empty && |q.stack| == |p.stack| + 1
            && q.setup == p.setup && Linked(Top(PutValue(p, empty)))
            && Base(q) == PutValue(p, empty).stack
            && Closed(p.setup, Base(q), v) == AfterValue(p, v)
  {
    PushValid(p, empty, state);
    PutValid(p, empty);
    assert Base(Push(p, empty, state)) == PutValue(p, empty).stack;
    PutTwice(p, empty, v);
  }

  lemma PutTwice(p: Parser, empty: Value, v: Value)
    requires InValuePosition(p)
    ensures Linked(Top(PutValue(p, empty)))
    ensures Closed(p.setup, PutValue(p, empty).stack, v) == AfterValue(p, v)
  {
    var r := PutValue(p, empty);
    assert r.stack[..|r.stack| - 1] == p.stack[..|p.stack| - 1];
    PlugPut(p, empty, v);
  }

  lemma PlugPut(p: Parser, empty: Value, v: Value)
    requires InValuePosition(p)
    ensures Linked(Top(PutValue(p, empty))) && Top(PutValue(p, empty)).slot == Top(PutValue(p, v)).slot
    ensures Plug(Top(PutValue(p, empty)), v) == Top(PutValue(p, v)).node
  {
    match Top(p).node {
      case VObject(m) =>
        assert m[p.memberName.value := empty][p.memberName.value := v] == m[p.memberName.value := v];
      case VArray(es) =>
        assert (es + [empty])[..|es|] == es;
    }
  }

  // ----- a value's tokens put its value

  function Empty(j: Json): Value
    requires IsContainer(j)
  {
    if j.JArray? then VArray([]) else VObject(map[])
  }

  function Inside(j: Json): ParseState
    requires IsContainer(j)
  {
    if j.JArray? then ArrayInit else ObjectInit
  }

  lemma RunBracket(p: Parser, j: Json, rest: seq<Token>)
    requires IsContainer(j) && Valid(p) && !p.done && (ExpectsValue(p.state) || p.state == Start)
    ensures Valid(Push(p, Empty(j), Inside(j)))
    ensures Run(p, TokensOf(j) + rest) == Run(Push(p, Empty(j), Inside(j)), TokensOf(j)[1..] + rest)
  {
    hide Valid;
    hide Push;
    hide Input;
    hide Run;
    var t := if j.JArray? then BeginArray else BeginObject;
    assert TokensOf(j)[0] == t;
    assert TokensOf(j) + rest == [t] + (TokensOf(j)[1..] + rest);
    RunStep(p, t, TokensOf(j)[1..] + rest);
    PushValid(p, Empty(j), Inside(j));
    InputBracket(p, t);
  }

  lemma InputBracket(p: Parser, t: Token)
    requires Valid(p) && (ExpectsValue(p.state) || p.state == Start)
    ensures t == BeginArray ==> Input(p, t) == Push(p, VArray([]), ArrayInit)
    ensures t == BeginObject ==> Input(p, t) == Push(p, VObject(map[]), ObjectInit)
  {
  }

  lemma InputScalar(p: Parser, t: Token)
    requires InValuePosition(p) && Scalar(t).Some?
    ensures Input(p, t) == AfterValue(p, Scalar(t).value)
  {
  }

  lemma ScalarToken(j: Json)
    requires !IsContainer(j)
    ensures |TokensOf(j)| == 1 && Scalar(TokensOf(j)[0]) == Some(Eval(j))
  {
  }

  lemma RunScalar(p: Parser, j: Json, rest: seq<Token>)
    requires !IsContainer(j) && InValuePosition(p)
    ensures Between(AfterValue(p, Eval(j)))
    ensures Run(p, TokensOf(j) + rest) == Run(AfterValue(p, Eval(j)), rest)
  {
    PutValid(p, Eval(j));
    ScalarToken(j);
    InputScalar(p, TokensOf(j)[0]);
    assert TokensOf(j) == [TokensOf(j)[0]];
    RunStep(p, TokensOf(j)[0], rest);
  }

  lemma ArrayAfter(p: Parser, v: Value)
    requires InValuePosition(p) && InArray(p.state)
    ensures var q := AfterValue(p, v);
            && Between(q) && q.state == ArrayNext && q.setup == p.setup && |q.stack| == |p.stack|
            && Base(q) == Base(p) && Top(q).node == VArray(Top(p).node.elems + [v])
  {
    PutValid(p, v);
  }

  lemma {:induction false} RunValue(p: Parser, j: Json, rest: seq<Token>)
    requires InValuePosition(p) && |p.stack| + Depth(j) <= p.setup.height
    ensures Between(AfterValue(p, Eval(j)))
    ensures Run(p, TokensOf(j) + rest) == Run(AfterValue(p, Eval(j)), rest)
    decreases j, 3
  {
    hide Run;
    hide Input;
    if IsContainer(j) {
      PutValid(p, Eval(j));
      PushClose(p, Empty(j), Inside(j), Eval(j));
      RunContainer(Push(p, Empty(j), Inside(j)), j, rest);
      RunBracket(p, j, rest);
    } else {
      RunScalar(p, j, rest);
    }
  }

  /** The tokens of a container after its bracket, from just inside it. */
  lemma {:induction false} RunContainer(p: Parser, j: Json, rest: seq<Token>)
    requires Valid(p) && !p.done && IsContainer(j) && |p.stack| + Depth(j) <= p.setup.height + 1
    requires j.JArray? ==> p.state == ArrayInit && Top(p).node == VArray([])
    requires j.JObject? ==> p.state == ObjectInit && Top(p).node == VObject(map[])
    ensures Valid(Closed(p.setup, Base(p), Eval(j)))
    ensures Run(p, TokensOf(j)[1..] + rest) == Run(Closed(p.setup, Base(p), Eval(j)), rest)
    decreases j, 2
  {
    hide Run;
    hide Input;
    if j.JArray? {
      RunArray(p, j, rest);
    } else {
      RunObject(p, j, rest);
    }
  }

  lemma RunClose(p: Parser, rest: seq<Token>)
    requires Valid(p) && !p.done && p.state in {ArrayInit, ArrayNext, ObjectInit, ObjectNext}
    ensures var t := if InArray(p.state) then EndArray else EndObject;
            && Valid(Closed(p.setup, Base(p), Top(p).node))
            && Run(p, [t] + rest) == Run(Closed(p.setup, Base(p), Top(p).node), rest)
  {
    RunStep(p, if InArray(p.state) then EndArray else EndObject, rest);
    PopIsClosed(p);
  }

  lemma {:induction false} RunArray(p: Parser, j: Json, rest: seq<Token>)
    requires Valid(p) && !p.done && j.JArray? && |p.stack| + Depth(j) <= p.setup.height + 1
    requires p.state == ArrayInit && Top(p).node == VArray([])
    ensures Valid(Closed(p.setup, Base(p), Eval(j)))
    ensures Run(p, TokensOf(j)[1..] + rest) == Run(Closed(p.setup, Base(p), Eval(j)), rest)
    decreases j, 1
  {
    hide Run;
    hide Input;
    var es := j.elems;
    if es == [] {
      assert TokensOf(j)[1..] + rest == [EndArray] + rest;
      RunClose(p, rest);
    } else {
      var tail := ElemTail(es[1..]) + ([EndArray] + rest);
      assert TokensOf(j)[1..] + rest == TokensOf(es[0]) + tail;
      RunValue(p, es[0], tail);
      assert EvalElems(es[..1]) == [Eval(es[0])];
      RunElemTail(AfterValue(p, Eval(es[0])), j, 1, rest);
    }
  }

  lemma ElemTailStep(es: seq<Json>, i: nat, rest: seq<Token>)
    requires i < |es|
    ensures DepthElems(es[i..]) == Max(Depth(es[i]), DepthElems(es[i + 1..]))
    ensures ElemTail(es[i..]) + rest == [ValueSeparator] + (TokensOf(es[i]) + (ElemTail(es[i + 1..]) + rest))
    ensures EvalElems(es[..i + 1]) == EvalElems(es[..i]) + [Eval(es[i])]
  {
    assert es[i..][1..] == es[i + 1..];
    assert es[..i + 1][..i] == es[..i];
  }

  lemma {:induction false} RunElemTail(p: Parser, j: Json, i: nat, rest: seq<Token>)
    requires Valid(p) && !p.done && j.JArray? && i <= |j.elems|
    requires p.state == ArrayNext && Top(p).node == VArray(EvalElems(j.elems[..i]))
    requires |p.stack| + DepthElems(j.elems[i..]) <= p.setup.height
    ensures Valid(Closed(p.setup, Base(p), Eval(j)))
    ensures Run(p, ElemTail(j.elems[i..]) + ([EndArray] + rest)) == Run(Closed(p.setup, Base(p), Eval(j)), rest)
    decreases j, 0, |j.elems| - i
  {
    hide Run;
    var es := j.elems;
    if i == |es| {
      assert es[..i] == es;
      assert ElemTail(es[i..]) + ([EndArray] + rest) == [EndArray] + rest;
      RunClose(p, rest);
    } else {
      var tail := ElemTail(es[i + 1..]) + ([EndArray] + rest);
      ElemTailStep(es, i, [EndArray] + rest);
      RunStep(p, ValueSeparator, TokensOf(es[i]) + tail);
      var q := p.(state := ArrayValue);
      RunValue(q, es[i], tail);
      ArrayAfter(q, Eval(es[i]));
      RunElemTail(AfterValue(q, Eval(es[i])), j, i + 1, rest);
    }
  }

  /** The parser after the member `m` of the object on top. */
  function AfterMember(p: Parser, m: Member): Parser
    requires p.stack != [] && Top(p).node.VObject?
  {
    SetTop(p, Frame(VObject(Top(p).node.members[m.name := Eval(m.value)]), m.name)).(state := ObjectNext)
  }

  /** A name, a colon and a value, from a state that expects a name. */
  lemma {:induction false} RunMember(p: Parser, j: Json, m: Member, rest: seq<Token>)
    requires Valid(p) && !p.done && p.state in {ObjectInit, ObjectName}
    requires j.JObject? && m in j.members && |p.stack| + Depth(m.value) <= p.setup.height
    ensures Valid(AfterMember(p, m)) && Run(p, MemberTokens(m) + rest) == Run(AfterMember(p, m), rest)
    decreases j, 0
  {
    var v := TokensOf(m.value) + rest;
    assert MemberTokens(m) + rest == [StringToken(m.name)] + ([NameSeparator] + v);
    var q := p.(memberName := Some(m.name), state := ObjectValue);
    RunName(p, m.name, v);
    RunValue(q, m.value, rest);
    MemberAfter(p, m);
  }

  lemma RunName(p: Parser, name: Bytes, rest: seq<Token>)
    requires Valid(p) && !p.done && p.state in {ObjectInit, ObjectName}
    ensures Valid(p.(memberName := Some(name), state := ObjectValue))
    ensures Run(p, [StringToken(name)] + ([NameSeparator] + rest))
         == Run(p.(memberName := Some(name), state := ObjectValue), rest)
  {
    RunStep(p, StringToken(name), [NameSeparator] + rest);
    RunStep(p.(memberName := Some(name), state := ObjectColon), NameSeparator, rest);
  }

  lemma MemberAfter(p: Parser, m: Member)
    requires Valid(p) && !p.done && p.state in {ObjectInit, ObjectName}
    ensures var q := p.(memberName := Some(m.name), state := ObjectValue);
            && InValuePosition(q) && AfterValue(q, Eval(m.value)) == AfterMember(p, m) && Valid(AfterMember(p, m))
  {
    PutValid(p.(memberName := Some(m.name), state := ObjectValue), Eval(m.value));
  }

  lemma ObjectInside(j: Json, rest: seq<Token>)
    requires j.JObject?
    ensures j.members == [] ==> TokensOf(j)[1..] + rest == [EndObject] + rest
    ensures j.members != [] ==>
              TokensOf(j)[1..] + rest == MemberTokens(j.members[0]) + (MemberTail(j.members[1..]) + ([EndObject] + rest))
  {
  }

  lemma {:induction false} RunObject(p: Parser, j: Json, rest: seq<Token>)
    requires Valid(p) && !p.done && j.JObject? && |p.stack| + Depth(j) <= p.setup.height + 1
    requires p.state == ObjectInit && Top(p).node == VObject(map[])
    ensures Valid(Closed(p.setup, Base(p), Eval(j)))
    ensures Run(p, TokensOf(j)[1..] + rest) == Run(Closed(p.setup, Base(p), Eval(j)), rest)
    decreases j, 1, |j.members| + 1
  {
    hide Run;
    hide Input;
    hide TokensOf;
    var ms := j.members;
    ObjectInside(j, rest);
    if ms == [] {
      RunClose(p, rest);
    } else {
      RunMember(p, j, ms[0], MemberTail(ms[1..]) + ([EndObject] + rest));
      assert ms[..1] == [] + [ms[0]];
      assert EvalMembers(ms[..1]) == map[ms[0].name := Eval(ms[0].value)];
      RunMemberTail(AfterMember(p, ms[0]), j, 1, rest);
    }
  }

  lemma {:induction false} RunMemberTail(p: Parser, j: Json, i: nat, rest: seq<Token>)
    requires Valid(p) && !p.done && j.JObject? && i <= |j.members|
    requires p.state == ObjectNext && Top(p).node == VObject(EvalMembers(j.members[..i]))
    requires |p.stack| + DepthMembers(j.members[i..]) <= p.setup.height
    ensures Valid(Closed(p.setup, Base(p), Eval(j)))
    ensures Run(p, MemberTail(j.members[i..]) + ([EndObject] + rest)) == Run(Closed(p.setup, Base(p), Eval(j)), rest)
    decreases j, 1, |j.members| - i
  {
    hide Run;
    var ms := j.members;
    if i == |ms| {
      assert ms[..i] == ms;
      assert MemberTail(ms[i..]) + ([EndObject] + rest) == [EndObject] + rest;
      RunClose(p, rest);
    } else {
      var tail := MemberTail(ms[i + 1..]) + ([EndObject] + rest);
      assert ms[i..][1..] == ms[i + 1..];
      assert MemberTail(ms[i..]) + ([EndObject] + rest) == [ValueSeparator] + (MemberTokens(ms[i]) + tail);
      RunStep(p, ValueSeparator, MemberTokens(ms[i]) + tail);
      var q := p.(state := ObjectName);
      RunMember(q, j, ms[i], tail);
      assert ms[..i + 1][..i] == ms[..i];
      RunMemberTail(AfterMember(q, ms[i]), j, i + 1, rest);
    }
  }

  // ----- and only a value's tokens do

  ghost predicate Accepting(p: Parser) {
    p.state == End && p.error.None?
  }

  /** A run that still has to reach the end takes another step. */
  lemma RunMore(p: Parser, tokens: seq<Token>)
    requires Valid(p) && !p.done && p.state != End && Accepting(Run(p, tokens))
    ensures tokens != [] && tokens == [tokens[0]] + tokens[1..]
    ensures Valid(Input(p, tokens[0])) && Input(p, tokens[0]).error.None?
    ensures Run(p, tokens) == Run(Input(p, tokens[0]), tokens[1..])
  {
    RunStep(p, tokens[0], tokens[1..]);
  }

  /** A successful run from where a value is expected starts with the tokens of one value, not
      nested too deep. */
  lemma {:induction false} ReadValue(p: Parser, tokens: seq<Token>) returns (j: Json, rest: seq<Token>)
    requires InValuePosition(p) && Accepting(Run(p, tokens))
    requires p.state == ArrayInit ==> tokens == [] || tokens[0] != EndArray
    ensures tokens == TokensOf(j) + rest && |rest| < |tokens|
    ensures |p.stack| + Depth(j) <= p.setup.height
    ensures Between(AfterValue(p, Eval(j))) && Accepting(Run(AfterValue(p, Eval(j)), rest))
    decreases |tokens|, 2
  {
    hide Run;
    RunMore(p, tokens);
    var t := tokens[0];
    if t in {BeginArray, BeginObject} {
      j, rest := ReadContainer(p, tokens);
    } else {
      assert Scalar(t).Some?;
      rest := tokens[1..];
      j := match t
        case FalseToken => JFalse
        case NullToken => JNull
        case TrueToken => JTrue
        case IntegerToken(n) => JInteger(n)
        case RealToken(d) => JReal(d)
        case StringToken(s) => JString(s)
        case _ => JNull;
      assert TokensOf(j) == [t];
    }
    RunValue(p, j, rest);
  }

  lemma {:induction false} ReadContainer(p: Parser, tokens: seq<Token>) returns (j: Json, rest: seq<Token>)
    requires Valid(p) && !p.done && (ExpectsValue(p.state) || p.state == Start) && Accepting(Run(p, tokens))
    requires tokens != [] && tokens[0] in {BeginArray, BeginObject}
    ensures IsContainer(j) && tokens == TokensOf(j) + rest && |rest| < |tokens|
    ensures |p.stack| + Depth(j) <= p.setup.height
    decreases |tokens|, 1
  {
    hide Run;
    RunMore(p, tokens);
    var t := tokens[0];
    var empty, state := if t == BeginArray then VArray([]) else VObject(map[]),
                        if t == BeginArray then ArrayInit else ObjectInit;
    PushValid(p, empty, state);
    var q := Push(p, empty, state);
    assert Input(p, t) == q;
    if t == BeginArray {
      var es;
      es, rest := ReadElems(q, tokens[1..]);
      j := JArray(es);
    } else {
      var ms;
      ms, rest := ReadMembers(q, tokens[1..]);
      j := JObject(ms);
    }
    assert tokens == TokensOf(j) + rest;
  }

  lemma ElemsTokens(e: Json, more: seq<Json>, rest: seq<Token>)
    ensures [BeginArray] + (TokensOf(e) + (ElemTail(more) + [EndArray] + rest)) == TokensOf(JArray([e] + more)) + rest
    ensures DepthElems([e] + more) == Max(Depth(e), DepthElems(more))
  {
    assert ([e] + more)[1..] == more;
  }

  lemma {:induction false} ReadElems(p: Parser, tokens: seq<Token>) returns (es: seq<Json>, rest: seq<Token>)
    requires Valid(p) && !p.done && p.state == ArrayInit && Accepting(Run(p, tokens))
    ensures [BeginArray] + tokens == TokensOf(JArray(es)) + rest && |rest| < |tokens|
    ensures |p.stack| + DepthElems(es) <= p.setup.height
    decreases |tokens|, 4
  {
    hide Run;
    RunMore(p, tokens);
    if tokens[0] == EndArray {
      es, rest := [], tokens[1..];
    } else {
      var e, tail := ReadValue(p, tokens);
      ArrayAfter(p, Eval(e));
      var more;
      more, rest := ReadElemTail(AfterValue(p, Eval(e)), tail);
      es := [e] + more;
      ElemsTokens(e, more, rest);
    }
  }

  lemma InputArrayNext(p: Parser, t: Token)
    requires Valid(p) && !p.done && p.state == ArrayNext && t != EndArray && Input(p, t).error.None?
    ensures t == ValueSeparator && Input(p, t) == p.(state := ArrayValue)
  {
  }

  lemma {:induction false} ReadElemTail(p: Parser, tokens: seq<Token>) returns (es: seq<Json>, rest: seq<Token>)
    requires Valid(p) && !p.done && p.state == ArrayNext && Accepting(Run(p, tokens))
    ensures tokens == ElemTail(es) + [EndArray] + rest && |rest| < |tokens|
    ensures |p.stack| + DepthElems(es) <= p.setup.height
    decreases |tokens|, 3
  {
    hide Run;
    hide Input;
    RunMore(p, tokens);
    if tokens[0] == EndArray {
      es, rest := [], tokens[1..];
    } else {
      InputArrayNext(p, tokens[0]);
      var q := p.(state := ArrayValue);
      var e, tail, more;
      e, tail := ReadValue(q, tokens[1..]);
      ArrayAfter(q, Eval(e));
      more, rest := ReadElemTail(AfterValue(q, Eval(e)), tail);
      es := [e] + more;
      assert es[1..] == more;
    }
  }

  lemma ReadName(p: Parser, tokens: seq<Token>) returns (name: Bytes, q: Parser, rest: seq<Token>)
    requires Valid(p) && !p.done && p.state in {ObjectInit, ObjectName} && Accepting(Run(p, tokens))
    requires p.state == ObjectInit ==> tokens == [] || tokens[0] != EndObject
    ensures tokens == [StringToken(name), NameSeparator] + rest
    ensures q == p.(memberName := Some(name), state := ObjectValue)
    ensures InValuePosition(q) && Run(p, tokens) == Run(q, rest)
  {
    RunMore(p, tokens);
    var p1 := Input(p, tokens[0]);
    name := tokens[0].s;
    RunMore(p1, tokens[1..]);
    q := Input(p1, tokens[1..][0]);
    rest := tokens[1..][1..];
  }

  lemma {:induction false} ReadMember(p: Parser, tokens: seq<Token>) returns (m: Member, rest: seq<Token>)
    requires Valid(p) && !p.done && p.state in {ObjectInit, ObjectName} && Accepting(Run(p, tokens))
    requires p.state == ObjectInit ==> tokens == [] || tokens[0] != EndObject
    ensures tokens == MemberTokens(m) + rest && |rest| < |tokens|
    ensures |p.stack| + Depth(m.value) <= p.setup.height
    ensures Valid(AfterMember(p, m)) && Accepting(Run(AfterMember(p, m), rest))
    decreases |tokens|, 3
  {
    hide Run;
    var name, p2, value := ReadName(p, tokens);
    var v;
    v, rest := ReadValue(p2, value);
    m := Member(name, v);
    assert AfterValue(p2, Eval(v)) == AfterMember(p, m);
  }

  lemma {:induction false} ReadMembers(p: Parser, tokens: seq<Token>) returns (ms: seq<Member>, rest: seq<Token>)
    requires Valid(p) && !p.done && p.state == ObjectInit && Accepting(Run(p, tokens))
    ensures [BeginObject] + tokens == TokensOf(JObject(ms)) + rest && |rest| < |tokens|
    ensures |p.stack| + DepthMembers(ms) <= p.setup.height
    decreases |tokens|, 5
  {
    hide Run;
    RunMore(p, tokens);
    if tokens[0] == EndObject {
      ms, rest := [], tokens[1..];
    } else {
      var m, tail, more;
      m, tail := ReadMember(p, tokens);
      more, rest := ReadMemberTail(AfterMember(p, m), tail);
      ms := [m] + more;
      assert ms[1..] == more;
    }
  }

  lemma {:induction false} ReadMemberTail(p: Parser, tokens: seq<Token>) returns (ms: seq<Member>, rest: seq<Token>)
    requires Valid(p) && !p.done && p.state == ObjectNext && Accepting(Run(p, tokens))
    ensures tokens == MemberTail(ms) + [EndObject] + rest && |rest| < |tokens|
    ensures |p.stack| + DepthMembers(ms) <= p.setup.height
    decreases |tokens|, 4
  {
    hide Run;
    RunMore(p, tokens);
    if tokens[0] == EndObject {
      ms, rest := [], tokens[1..];
    } else {
      var m, tail, more;
      m, tail := ReadMember(p.(state := ObjectName), tokens[1..]);
      more, rest := ReadMemberTail(AfterMember(p.(state := ObjectName), m), tail);
      ms := [m] + more;
      assert ms[1..] == more;
    }
  }

  // ----- the theorem

  /** The tokens of a document: a container nested at most MAX_HEIGHT deep. */
  ghost predicate IsDocument(j: Json, tokens: seq<Token>) {
    IsContainer(j) && Depth(j) <= MAX_HEIGHT && tokens == TokensOf(j)
  }

  lemma RunDocument(setup: Setup, j: Json, rest: seq<Token>)
    requires IsContainer(j) && Depth(j) <= setup.height
    ensures Valid(Closed(setup, [], Eval(j)))
    ensures Run(InitWith(setup), TokensOf(j) + rest) == Run(Closed(setup, [], Eval(j)), rest)
  {
    var p := InitWith(setup);
    RunBracket(p, j, rest);
    var q := Push(p, Empty(j), Inside(j));
    RunContainer(q, j, rest);
    assert Base(q) == [];
  }

  /** The automaton of a parser that checks for trailing garbage accepts exactly the token forms
      of arrays and objects nested at most 1000 deep; the tree left in stack[0] is the value of
      the document, the last of several members of one name winning. */
  lemma AcceptsExactlyDocuments(tokens: seq<Token>)
    ensures Accepting(Run(Init(true), tokens)) <==> exists j :: IsDocument(j, tokens)
    ensures forall j :: IsDocument(j, tokens) ==>
              var q := Run(Init(true), tokens);
              q.stack == [Frame(Eval(j), [])] && Root(q.stack) == Eval(j)
  {
    var p := Init(true);
    forall j | IsDocument(j, tokens)
      ensures Run(p, tokens) == Closed(p.setup, [], Eval(j))
    {
      RunDocument(p.setup, j, []);
      assert tokens + [] == tokens;
    }
    if Accepting(Run(p, tokens)) {
      RunMore(p, tokens);
      var j, rest := ReadContainer(p, tokens);
      RunDocument(p.setup, j, rest);
      assert TokensOf(j) + [] == TokensOf(j);
      assert IsDocument(j, tokens);
    }
  }

  /** A document, and what follows it. */
  ghost predicate IsDocumentThen(j: Json, rest: seq<Token>, tokens: seq<Token>) {
    IsContainer(j) && Depth(j) <= MAX_HEIGHT && tokens == TokensOf(j) + rest
  }

  /** A parser that does not check for trailing garbage stops behind the first document. */
  lemma AcceptsLeadingDocument(tokens: seq<Token>)
    ensures Accepting(Run(Init(false), tokens)) <==> exists j, rest :: IsDocumentThen(j, rest, tokens)
    ensures forall j, rest :: IsDocumentThen(j, rest, tokens) ==>
              var q := Run(Init(false), tokens);
              q.done && q.stack == [Frame(Eval(j), [])] && Root(q.stack) == Eval(j)
  {
    var p := Init(false);
    forall j, rest | IsDocumentThen(j, rest, tokens)
      ensures Run(p, tokens) == Closed(p.setup, [], Eval(j))
    {
      RunDocument(p.setup, j, rest);
    }
    if Accepting(Run(p, tokens)) {
      RunMore(p, tokens);
      var j, rest := ReadContainer(p, tokens);
      assert IsDocumentThen(j, rest, tokens);
    }
  }
}
