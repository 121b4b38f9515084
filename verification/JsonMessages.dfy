/** Which message a wrong token gets: what the tokens before it call for. */
module JsonMessages {
  import opened Bytes
  import opened JsonValue
  import opened JsonParser
  import opened JsonGrammar

  // ----- what is called for, seen from the tokens

  /** The brackets that have not been closed. */
  function Open(u: seq<Token>): seq<Token> {
    if u == [] then []
    else
      var before, t := Open(u[..|u| - 1]), u[|u| - 1];
      if t in {BeginArray, BeginObject} then before + [t]
      else if t in {EndArray, EndObject} && before != [] then before[..|before| - 1]
      else before
  }

  /** The last token is the name of a member: a string behind an opening brace or a comma. */
  predicate AfterName(u: seq<Token>) {
    && |u| >= 2 && u[|u| - 1].StringToken? && u[|u| - 2] in {BeginObject, ValueSeparator}
    && Open(u) != [] && Open(u)[|Open(u)| - 1] == BeginObject
  }

  /** The message for a token that cannot follow `u`. */
  function Wanted(u: seq<Token>): ErrorKind {
    if u == [] then AtBeginning
    else if Open(u) == [] then TrailingGarbage
    else
      var last, inArray := u[|u| - 1], Open(u)[|Open(u)| - 1] == BeginArray;
      if last == BeginObject || (last == ValueSeparator && !inArray) then ExpectingName
      else if last in {BeginArray, NameSeparator, ValueSeparator} then ExpectingValue
      else if AfterName(u) then ExpectingColon
      else if inArray then ExpectingArrayNext
      else ExpectingObjectNext
  }

  // ----- and from the automaton

  /** The message of a state. */
  function Message(s: ParseState): ErrorKind {
    match s
    case Start => AtBeginning
    case End => TrailingGarbage
    case ObjectInit => ExpectingName
    case ObjectName => ExpectingName
    case ObjectColon => ExpectingColon
    case ObjectValue => ExpectingValue
    case ObjectNext => ExpectingObjectNext
    case ArrayInit => ExpectingValue
    case ArrayValue => ExpectingValue
    case ArrayNext => ExpectingArrayNext
  }

  /** The stack holds the containers whose brackets are open. */
  ghost predicate Stacked(p: Parser, open: seq<Token>) {
    && (p.state == End ==> open == [])
    && (p.state != End ==> |p.stack| == |open|)
    && (p.state != End ==> forall i :: 0 <= i < |p.stack| ==>
          open[i] == if p.stack[i].node.VArray? then BeginArray else BeginObject)
  }

  /** The state is what the tokens call for. */
  ghost predicate Says(s: ParseState, u: seq<Token>) {
    && Message(s) == Wanted(u)
    && (s == ArrayInit ==> u != [] && u[|u| - 1] == BeginArray)
    && (s == ObjectInit ==> u != [] && u[|u| - 1] == BeginObject)
  }

  ghost predicate Follows(p: Parser, u: seq<Token>) {
    Valid(p) && p.error.None? && Says(p.state, u) && Stacked(p, Open(u))
  }

  lemma OpenMore(u: seq<Token>, t: Token)
    ensures var before := Open(u);
            Open(u + [t])
            == if t in {BeginArray, BeginObject} then before + [t]
               else if t in {EndArray, EndObject} && before != [] then before[..|before| - 1]
               else before
  {
    assert (u + [t])[..|u|] == u;
  }

  lemma StackedOpen(p: Parser, open: seq<Token>, t: Token)
    requires Valid(p) && Stacked(p, open) && !p.done && p.error.None?
    requires t in {BeginArray, BeginObject} && Input(p, t).error.None?
    ensures Stacked(Input(p, t), open + [t])
    ensures Input(p, t).state == if t == BeginArray then ArrayInit else ObjectInit
  {
    var n := Input(p, t);
    assert |n.stack| == |p.stack| + 1;
    assert forall i :: 0 <= i < |p.stack| ==> (n.stack[i].node.VArray? <==> p.stack[i].node.VArray?);
  }

  lemma StackedClose(p: Parser, open: seq<Token>, t: Token)
    requires Valid(p) && Stacked(p, open) && !p.done && p.error.None?
    requires t in {EndArray, EndObject} && Input(p, t).error.None?
    ensures open != [] && Stacked(Input(p, t), open[..|open| - 1])
    ensures Input(p, t).state
         == if |open| == 1 then End else if open[|open| - 2] == BeginArray then ArrayNext else ObjectNext
  {
    var n := Input(p, t);
    assert n == Pop(p);
    if |p.stack| > 1 {
      assert |n.stack| == |p.stack| - 1;
      assert forall i :: 0 <= i < |n.stack| ==> (n.stack[i].node.VArray? <==> p.stack[i].node.VArray?);
    }
  }

  /** The state behind a scalar, a colon or a comma. */
  function Behind(s: ParseState, t: Token): ParseState {
    match s
    case ObjectInit => ObjectColon
    case ObjectName => ObjectColon
    case ObjectColon => ObjectValue
    case ObjectValue => ObjectNext
    case ObjectNext => ObjectName
    case ArrayNext => ArrayValue
    case _ => ArrayNext
  }

  lemma StackedOther(p: Parser, open: seq<Token>, t: Token)
    requires Valid(p) && Stacked(p, open) && !p.done && p.error.None?
    requires t !in {BeginArray, BeginObject, EndArray, EndObject} && Input(p, t).error.None?
    ensures p.state !in {Start, End} && Stacked(Input(p, t), open) && Input(p, t).state == Behind(p.state, t)
    ensures open != [] && (open[|open| - 1] == BeginArray <==> InArray(p.state))
    ensures p.state in {ObjectInit, ObjectName} ==> t.StringToken?
    ensures p.state == ObjectColon ==> t == NameSeparator
    ensures p.state in {ObjectNext, ArrayNext} ==> t == ValueSeparator
    ensures p.state in {ObjectValue, ArrayInit, ArrayValue} ==> t !in {NameSeparator, ValueSeparator}
  {
    var n := Input(p, t);
    assert |n.stack| == |p.stack|;
    assert forall i :: 0 <= i < |n.stack| ==> (n.stack[i].node.VArray? <==> p.stack[i].node.VArray?);
  }

  /** An opening bracket. */
  lemma FollowsOpen(p: Parser, u: seq<Token>, t: Token)
    requires Follows(p, u) && !p.done && t in {BeginArray, BeginObject} && Input(p, t).error.None?
    ensures Follows(Input(p, t), u + [t])
  {
    hide Input;
    hide Stacked;
    InputValid(p, t);
    OpenMore(u, t);
    StackedOpen(p, Open(u), t);
    assert (u + [t])[|u|] == t;
  }

  /** A closing one. */
  lemma FollowsClose(p: Parser, u: seq<Token>, t: Token)
    requires Follows(p, u) && !p.done && t in {EndArray, EndObject} && Input(p, t).error.None?
    ensures Follows(Input(p, t), u + [t])
  {
    hide Input;
    hide Stacked;
    InputValid(p, t);
    OpenMore(u, t);
    StackedClose(p, Open(u), t);
    assert (u + [t])[|u|] == t;
  }

  /** A scalar, a colon or a comma. */
  lemma FollowsOther(p: Parser, u: seq<Token>, t: Token)
    requires Follows(p, u) && !p.done && t !in {BeginArray, BeginObject, EndArray, EndObject} && Input(p, t).error.None?
    ensures Follows(Input(p, t), u + [t])
  {
    hide Input;
    hide Stacked;
    InputValid(p, t);
    OpenMore(u, t);
    StackedOther(p, Open(u), t);
    assert (u + [t])[|u|] == t && u != [] && (u + [t])[|u| - 1] == u[|u| - 1];
  }

  lemma FollowsOn(p: Parser, u: seq<Token>, t: Token)
    requires Follows(p, u) && !p.done && Input(p, t).error.None?
    ensures Follows(Input(p, t), u + [t])
  {
    hide Input;
    hide Follows;
    if t in {BeginArray, BeginObject} {
      FollowsOpen(p, u, t);
    } else if t in {EndArray, EndObject} {
      FollowsClose(p, u, t);
    } else {
      FollowsOther(p, u, t);
    }
  }

  lemma {:induction false} RunFollows(p: Parser, u: seq<Token>, v: seq<Token>)
    requires Follows(p, u) && p.setup.trailer && Run(p, v).error.None?
    ensures Follows(Run(p, v), u + v) && Run(p, v).setup == p.setup
    decreases |v|
  {
    hide Input;
    hide Follows;
    if v == [] {
      assert u + v == u;
    } else {
      NotDone(p, u);
      assert v == [v[0]] + v[1..] && u + v == u + [v[0]] + v[1..];
      RunStep(p, v[0], v[1..]);
      FollowsOn(p, u, v[0]);
      SetupStays(p, v[0]);
      RunFollows(Input(p, v[0]), u + [v[0]], v[1..]);
    }
  }

  lemma NotDone(p: Parser, u: seq<Token>)
    requires Follows(p, u) && p.setup.trailer
    ensures Valid(p) && !p.done
  {
  }

  /** The message of a failing token, from a state. */
  lemma FailsWith(p: Parser, u: seq<Token>, t: Token)
    requires Follows(p, u) && !p.done && Input(p, t).error.Some?
    ensures var opens := t in {BeginArray, BeginObject} && Wanted(u) in {AtBeginning, ExpectingValue};
            && Input(p, t).error == Some(if opens then TooDeep else Wanted(u))
            && (opens ==> |Open(u)| == p.setup.height)
  {
  }

  /** The first token that cannot follow the ones before it gets the message that they call for; a
      bracket that could follow is refused only at 1000 open containers, and then for that. */
  lemma WhichMessage(u: seq<Token>, t: Token)
    requires Run(Init(true), u).error.None? && Run(Init(true), u + [t]).error.Some?
    ensures var opens := t in {BeginArray, BeginObject} && Wanted(u) in {AtBeginning, ExpectingValue};
            && Run(Init(true), u + [t]).error == Some(if opens then TooDeep else Wanted(u))
            && (opens ==> |Open(u)| == MAX_HEIGHT)
  {
    hide Input;
    hide Wanted;
    StartFollows();
    hide Valid;
    var p := Run(Init(true), u);
    RunFollows(Init(true), [], u);
    assert [] + u == u;
    NotDone(p, u);
    RunMoreOne(Init(true), u, t);
    FailsWith(p, u, t);
  }

  lemma StartFollows()
    ensures Follows(Init(true), [])
  {
  }

  lemma {:induction false} RunMoreOne(p: Parser, u: seq<Token>, t: Token)
    requires Valid(p) && !Run(p, u).done
    ensures Run(p, u + [t]) == Input(Run(p, u), t)
    decreases |u|
  {
    hide Input;
    if u == [] {
      assert u + [t] == [t] + [];
      RunStep(p, t, []);
    } else {
      assert u == [u[0]] + u[1..] && u + [t] == [u[0]] + (u[1..] + [t]);
      RunStep(p, u[0], u[1..]);
      RunStep(p, u[0], u[1..] + [t]);
      RunMoreOne(Input(p, u[0]), u[1..], t);
    }
  }
}
