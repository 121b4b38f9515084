/** The push-down half of the JSON reader: tokens in, a tree out.  These are the functions that
    the methods of the parser object (JsonReader) are proved against. */
module JsonParser {
  import opened Bytes
  import opened JsonValue
  import JsonCodec
  import JsonNumber

  const MAX_HEIGHT: nat := 1000

  datatype Token =
    | BeginArray | EndArray | BeginObject | EndObject | NameSeparator | ValueSeparator
    | FalseToken | NullToken | TrueToken
    | IntegerToken(n: int) | RealToken(d: Double) | StringToken(s: Bytes)

  datatype ParseState =
    | Start | End
    | ObjectInit | ObjectName | ObjectColon | ObjectValue | ObjectNext
    | ArrayInit | ArrayValue | ArrayNext

  /** The messages of json_error, without their text and position. */
  datatype ErrorKind =
    | AtBeginning | TrailingGarbage | ExpectingName | ExpectingColon | ExpectingValue
    | ExpectingObjectNext | ExpectingArrayNext | TooDeep
    | InvalidKeyword | InvalidCharacter(c: Byte) | Unescaped(c: Byte)
    | InNumber(number: JsonNumber.NumberError) | OutOfRange
    | InString(reason: JsonCodec.UnescapeError)
    | EndInString | EmptyInput | UnexpectedEnd

  /** An open container.  `slot` is the name of the member that the next open container, if
      any, hangs from (in an array it hangs from the last element). */
  datatype Frame = Frame(node: Value, slot: Bytes)

  /** What never changes: whether JSPF_TRAILER is in flags, and how high the stack may be.  The
      height is JSON_MAX_HEIGHT in every parser that the code creates. */
  datatype Setup = Setup(trailer: bool, height: nat)

  /** parse_state, stack and height, member_name, done and error of struct json_parser. */
  datatype Parser = Parser(setup: Setup, state: ParseState, stack: seq<Frame>, memberName: Option<Bytes>,
                           done: bool, error: Option<ErrorKind>)

  function InitWith(setup: Setup): Parser {
    Parser(setup, Start, [], None, false, None)
  }

  function Init(trailer: bool): Parser {
    InitWith(Setup(trailer, MAX_HEIGHT))
  }

  predicate InObject(s: ParseState) {
    s in {ObjectInit, ObjectName, ObjectColon, ObjectValue, ObjectNext}
  }

  predicate InArray(s: ParseState) {
    s in {ArrayInit, ArrayValue, ArrayNext}
  }

  predicate IsOpen(v: Value) { v.VObject? || v.VArray? }

  /** What holds between any two tokens, errors included: the height bound, the type of the top
      of the stack, whether a member name is pending, and that the stack is a path. */
  ghost predicate Valid(p: Parser) {
    && |p.stack| <= p.setup.height
    && (p.state == Start <==> p.stack == [])
    && (p.state == End ==> |p.stack| == 1)
    && (p.stack != [] ==> IsOpen(Top(p).node))
    && (InObject(p.state) ==> Top(p).node.VObject?)
    && (InArray(p.state) ==> Top(p).node.VArray?)
    && (p.memberName.Some? <==> p.state in {ObjectColon, ObjectValue})
    && (forall i :: 0 <= i < |p.stack| - 1 ==> Linked(p.stack[i]))
    && (p.done <==> p.error.Some? || (p.state == End && !p.setup.trailer))
  }

  /** The frame has a slot for the container above it. */
  predicate Linked(f: Frame) {
    match f.node
    case VObject(m) => f.slot in m
    case VArray(es) => es != []
    case _ => false
  }

  function Top(p: Parser): Frame
    requires p.stack != []
  {
    p.stack[|p.stack| - 1]
  }

  function SetTop(p: Parser, f: Frame): Parser
    requires p.stack != []
  {
    p.(stack := p.stack[..|p.stack| - 1] + [f])
  }

  /** json_error: only the first error counts. */
  function Fail(p: Parser, kind: ErrorKind): Parser {
    if p.error.Some? then p else p.(error := Some(kind), done := true)
  }

  /** json_parser_put_value. */
  function PutValue(p: Parser, v: Value): Parser
    requires p.stack != [] && IsOpen(Top(p).node)
    requires Top(p).node.VObject? ==> p.memberName.Some?
  {
    match Top(p).node
    case VObject(m) => SetTop(p, Frame(VObject(m[p.memberName.value := v]), p.memberName.value)).(memberName := None)
    case VArray(es) => SetTop(p, Frame(VArray(es + [v]), Top(p).slot))
  }

  /** json_parser_push. */
  function Push(p: Parser, v: Value, state: ParseState): Parser
    requires p.stack != [] ==> IsOpen(Top(p).node) && (Top(p).node.VObject? ==> p.memberName.Some?)
  {
    if |p.stack| < p.setup.height then
      var q := if p.stack != [] then PutValue(p, v) else p;
      q.(stack := q.stack + [Frame(v, [])], state := state)
    else
      Fail(p, TooDeep)
  }

  /** The container above a frame, put where it hangs from. */
  function Plug(f: Frame, v: Value): Value
    requires Linked(f)
  {
    match f.node
    case VObject(m) => VObject(m[f.slot := v])
    case VArray(es) => VArray(es[..|es| - 1] + [v])
  }

  /** json_parser_pop. */
  function Pop(p: Parser): Parser
    requires Valid(p) && p.stack != []
  {
    if |p.stack| == 1 then
      p.(stack := [Frame(Top(p).node, [])], state := End, done := p.done || !p.setup.trailer)
    else
      var below := p.stack[|p.stack| - 2];
      var f := below.(node := Plug(below, Top(p).node));
      p.(stack := p.stack[..|p.stack| - 2] + [f], state := if f.node.VArray? then ArrayNext else ObjectNext)
  }

  /** The value of a scalar token. */
  function Scalar(t: Token): Option<Value> {
    match t
    case FalseToken => Some(VFalse)
    case NullToken => Some(VNull)
    case TrueToken => Some(VTrue)
    case IntegerToken(n) => Some(VInteger(n))
    case RealToken(d) => Some(VReal(d))
    case StringToken(s) => Some(VString(s))
    case _ => None
  }

  /** json_parse_value. */
  function ParseValue(p: Parser, t: Token, next: ParseState): Parser
    requires p.stack != [] && IsOpen(Top(p).node) && (Top(p).node.VObject? ==> p.memberName.Some?)
  {
    if t == BeginObject then Push(p, VObject(map[]), ObjectInit)
    else if t == BeginArray then Push(p, VArray([]), ArrayInit)
    else if Scalar(t).None? then Fail(p, ExpectingValue)
    else PutValue(p, Scalar(t).value).(state := next)
  }

  /** json_parser_input, without the reset of the lexer. */
  function Input(p: Parser, t: Token): Parser
    requires Valid(p)
  {
    match p.state
    case Start =>
      if t == BeginObject then Push(p, VObject(map[]), ObjectInit)
      else if t == BeginArray then Push(p, VArray([]), ArrayInit)
      else Fail(p, AtBeginning)
    case End => Fail(p, TrailingGarbage)
    case ObjectInit => if t == EndObject then Pop(p) else InputName(p, t)
    case ObjectName => InputName(p, t)
    case ObjectColon => if t == NameSeparator then p.(state := ObjectValue) else Fail(p, ExpectingColon)
    case ObjectValue => ParseValue(p, t, ObjectNext)
    case ObjectNext =>
      if t == ValueSeparator then p.(state := ObjectName)
      else if t == EndObject then Pop(p)
      else Fail(p, ExpectingObjectNext)
    case ArrayInit => if t == EndArray then Pop(p) else ParseValue(p, t, ArrayNext)
    case ArrayValue => ParseValue(p, t, ArrayNext)
    case ArrayNext =>
      if t == ValueSeparator then p.(state := ArrayValue)
      else if t == EndArray then Pop(p)
      else Fail(p, ExpectingArrayNext)
  }

  function InputName(p: Parser, t: Token): Parser {
    if t.StringToken? then p.(memberName := Some(t.s), state := ObjectColon) else Fail(p, ExpectingName)
  }

  /** The tree that hangs from stack[0]. */
  function Root(stack: seq<Frame>): Value
    requires stack != [] && forall i :: 0 <= i < |stack| - 1 ==> Linked(stack[i])
    decreases |stack|
  {
    if |stack| == 1 then stack[0].node
    else
      var below := stack[|stack| - 2];
      assert forall i :: 0 <= i < |stack| - 2 ==> Linked(stack[i]);
      Root(stack[..|stack| - 2] + [below.(node := Plug(below, stack[|stack| - 1].node))])
  }

  // ----- safety

  predicate ExpectsValue(s: ParseState) {
    s in {ObjectValue, ArrayInit, ArrayValue}
  }

  /** The state after a complete value: json_parser_put_value and the next state. */
  function AfterValue(p: Parser, v: Value): Parser
    requires Valid(p) && ExpectsValue(p.state)
  {
    PutValue(p, v).(state := if p.state == ObjectValue then ObjectNext else ArrayNext)
  }

  lemma PutValid(p: Parser, v: Value)
    requires Valid(p) && ExpectsValue(p.state)
    ensures Valid(AfterValue(p, v))
    ensures |AfterValue(p, v).stack| == |p.stack|
    ensures Linked(Top(AfterValue(p, v)))
    ensures forall i :: 0 <= i < |p.stack| - 1 ==> AfterValue(p, v).stack[i] == p.stack[i]
  {
  }

  lemma PushValid(p: Parser, v: Value, state: ParseState)
    requires Valid(p) && (ExpectsValue(p.state) || p.state == Start)
    requires (v.VObject? && state == ObjectInit) || (v.VArray? && state == ArrayInit)
    ensures Valid(Push(p, v, state))
  {
    if |p.stack| < p.setup.height && p.stack != [] {
      PutValid(p, v);
      var q := AfterValue(p, v);
      assert forall i :: 0 <= i < |q.stack| ==> Linked(q.stack[i]);
      assert Push(p, v, state).stack == q.stack + [Frame(v, [])];
    }
  }

  lemma PopValid(p: Parser)
    requires Valid(p) && p.stack != [] && p.state != End && p.memberName.None?
    ensures Valid(Pop(p))
    ensures |p.stack| > 1 ==> Root(Pop(p).stack) == Root(p.stack)
  {
    if |p.stack| > 1 {
      var below := p.stack[|p.stack| - 2];
      assert Linked(below);
      var q := Pop(p);
      assert forall i :: 0 <= i < |q.stack| - 1 ==> q.stack[i] == p.stack[i];
    }
  }

  /** Every token keeps the invariant, in every state, also after an error; so none of the
      branches that the C code marks as impossible can be taken. */
  lemma InputValid(p: Parser, t: Token)
    requires Valid(p)
    ensures Valid(Input(p, t))
    ensures p.error.Some? ==> Input(p, t).error == p.error
  {
    if p.state == Start {
      if t == BeginObject {
        PushValid(p, VObject(map[]), ObjectInit);
      } else if t == BeginArray {
        PushValid(p, VArray([]), ArrayInit);
      }
    } else if t in {EndObject, EndArray} {
      if p.state in {ObjectInit, ObjectNext, ArrayInit, ArrayNext} {
        PopValid(p);
      }
    } else if ExpectsValue(p.state) {
      ValueTokenValid(p, t);
    }
  }

  lemma SetupStays(p: Parser, t: Token)
    requires Valid(p)
    ensures Input(p, t).setup == p.setup
  {
  }

  lemma ValueTokenValid(p: Parser, t: Token)
    requires Valid(p) && ExpectsValue(p.state)
    ensures var next := if p.state == ObjectValue then ObjectNext else ArrayNext;
            Valid(ParseValue(p, t, next)) && (p.error.Some? ==> ParseValue(p, t, next).error == p.error)
  {
    if t == BeginObject {
      PushValid(p, VObject(map[]), ObjectInit);
    } else if t == BeginArray {
      PushValid(p, VArray([]), ArrayInit);
    } else if Scalar(t).Some? {
      PutValid(p, Scalar(t).value);
    }
  }
}
