/** The checker that compares an encoder with a .proto file: the block parser, the wire type of a field, and
    the comparison. Lines come already classified. */
module ProtoSpec {
  import opened Wrappers

  // ----- fields -----

  datatype Decl = MapField(name: string, number: nat)
                | Field(repeated: bool, proto: string, name: string, number: nat, packed: bool)

  datatype Entry = Entry(name: string, wire: nat)

  type Fields = map<nat, Entry>

  function ScalarWire(proto: string): Option<nat> {
    if proto in {"int32", "int64", "uint32", "uint64", "sint32", "sint64", "bool", "enum"} then Some(0)
    else if proto in {"fixed64", "sfixed64", "double"} then Some(1)
    else if proto in {"string", "bytes"} then Some(2)
    else if proto in {"fixed32", "sfixed32", "float"} then Some(5)
    else None
  }

  function WireFor(proto: string, repeated: bool, packed: bool): nat {
    if ScalarWire(proto).None? || (packed && repeated) then 2 else ScalarWire(proto).value
  }

  function WireOf(d: Decl): nat {
    if d.MapField? then 2 else WireFor(d.proto, d.repeated, d.packed)
  }

  /** The wire type of a declaration, by the name of its type: 0 for what is encoded as a varint, 1 and 5 for numbers
      of 64 and 32 bits, 2 for everything else: strings, bytes, types not in the lists, maps and packed lists. Packing
      matters only to lists. */
  lemma WireTypes(d: Decl)
    ensures d.MapField? ==> WireOf(d) == 2
    ensures d.Field? ==>
              var packedList := d.repeated && d.packed;
              && (WireOf(d) == 0 <==>
                    d.proto in ["int32", "int64", "uint32", "uint64", "sint32", "sint64", "bool", "enum"] && !packedList)
              && (WireOf(d) == 1 <==> d.proto in ["fixed64", "sfixed64", "double"] && !packedList)
              && (WireOf(d) == 5 <==> d.proto in ["fixed32", "sfixed32", "float"] && !packedList)
              && WireOf(d) in [0, 1, 2, 5]
  {
  }

  /** What a type is to protobuf's encoding; a type that the user defines is a message or an enum. */
  datatype Encoding = Varint | Fixed64 | Fixed32 | LengthDelimited

  function EncodingOf(proto: string, isEnum: bool): Encoding {
    match proto
    case "int32" => Varint
    case "int64" => Varint
    case "uint32" => Varint
    case "uint64" => Varint
    case "sint32" => Varint
    case "sint64" => Varint
    case "bool" => Varint
    case "enum" => Varint
    case "fixed64" => Fixed64
    case "sfixed64" => Fixed64
    case "double" => Fixed64
    case "fixed32" => Fixed32
    case "sfixed32" => Fixed32
    case "float" => Fixed32
    case "string" => LengthDelimited
    case "bytes" => LengthDelimited
    case _ => if isEnum then Varint else LengthDelimited
  }

  /** The wire type protobuf gives to a field, for a list packed as its option says; a map is a list of messages. */
  function ProtobufWire(d: Decl, isEnum: bool): nat {
    if d.MapField? || (d.repeated && d.packed) then 2
    else
      match EncodingOf(d.proto, isEnum)
      case Varint => 0
      case Fixed64 => 1
      case LengthDelimited => 2
      case Fixed32 => 5
  }

  predicate IsUserType(proto: string) {
    proto !in ["int32", "int64", "uint32", "uint64", "sint32", "sint64", "bool", "enum", "fixed64", "sfixed64", "double",
               "fixed32", "sfixed32", "float", "string", "bytes"]
  }

  /** The checker expects protobuf's wire type exactly unless the field has a user's enum for its type and is no
      packed list. */
  lemma WireIsProtobufs(d: Decl, isEnum: bool)
    ensures WireOf(d) == ProtobufWire(d, isEnum)
            <==> d.MapField? || !IsUserType(d.proto) || !isEnum || (d.repeated && d.packed)
  {
  }

  // ----- the block parser -----

  datatype Line = OpenMessage(name: string) | OpenOneof | Close | Declares(decl: Decl) | Other

  datatype Frame = Frame(name: string, fields: Fields)

  datatype State = State(messages: map<string, Fields>, stack: seq<Frame>, oneofs: nat)

  const START := State(map[], [], 0)

  function Insert(fields: Fields, d: Decl): Fields {
    fields[d.number := Entry(d.name, WireOf(d))]
  }

  /** The state after the innermost open message got new fields; an outermost message is also the entry the
      result shows. */
  function WithTop(s: State, fields: Fields): State
    requires s.stack != []
  {
    var n := |s.stack|;
    var top := Frame(s.stack[n - 1].name, fields);
    State(if n == 1 then s.messages[top.name := fields] else s.messages, s.stack[..n - 1] + [top], s.oneofs)
  }

  function Step(s: State, line: Line): State {
    match line
    case OpenMessage(name) =>
      State(if s.stack == [] then s.messages[name := map[]] else s.messages, s.stack + [Frame(name, map[])], s.oneofs)
    case OpenOneof => s.(oneofs := s.oneofs + 1)
    case Close =>
      if s.oneofs > 0 then s.(oneofs := s.oneofs - 1)
      else if s.stack != [] then s.(stack := s.stack[..|s.stack| - 1])
      else s
    case Declares(d) =>
      if s.stack == [] then s else WithTop(s, Insert(s.stack[|s.stack| - 1].fields, d))
    case Other => s
  }

  function Run(s: State, lines: seq<Line>): State
    decreases |lines|
  {
    if lines == [] then s else Run(Step(s, lines[0]), lines[1..])
  }

  function Parse(lines: seq<Line>): map<string, Fields> {
    Run(START, lines).messages
  }

  // ----- the parser as it runs, on message objects that the stack and the result share -----

  class ProtoMessage {
    const name: string
    var fields: Fields

    constructor (name: string)
      ensures this.name == name && fields == map[]
    {
      this.name := name;
      fields := map[];
    }
  }

  /** The heap shows the state s. */
  ghost predicate Shows(s: State, messages: map<string, ProtoMessage>, stack: seq<ProtoMessage>)
    reads set m | m in stack, set n | n in messages :: messages[n]
  {
    && |stack| == |s.stack| && messages.Keys == s.messages.Keys
    && (forall k | 0 <= k < |stack| :: stack[k].name == s.stack[k].name && stack[k].fields == s.stack[k].fields)
    && (forall n | n in messages :: messages[n].fields == s.messages[n])
    && (forall j, k | 0 <= j < k < |stack| :: stack[j] != stack[k])
    && (forall n, k | n in messages && 0 <= k < |stack| :: messages[n] == stack[k] <==> k == 0 && n == stack[0].name)
    && (stack != [] ==> stack[0].name in messages)
  }

  lemma ShowsOpened(s: State, messages: map<string, ProtoMessage>, stack: seq<ProtoMessage>, msg: ProtoMessage)
    requires Shows(s, messages, stack) && msg.fields == map[]
    requires msg !in stack && forall n | n in messages :: messages[n] != msg
    ensures Shows(Step(s, OpenMessage(msg.name)), if stack == [] then messages[msg.name := msg] else messages, stack + [msg])
  {
  }

  lemma ShowsClosed(s: State, messages: map<string, ProtoMessage>, stack: seq<ProtoMessage>)
    requires Shows(s, messages, stack)
    ensures Shows(Step(s, Close), messages, if s.oneofs == 0 && stack != [] then stack[..|stack| - 1] else stack)
    ensures Step(s, Close).oneofs == if s.oneofs > 0 then s.oneofs - 1 else 0
  {
  }

  /** A field goes to the innermost open message. */
  method AddField(d: Decl, stack: seq<ProtoMessage>, ghost s: State, ghost messages: map<string, ProtoMessage>)
    requires Shows(s, messages, stack) && stack != []
    modifies stack[|stack| - 1]
    ensures Shows(Step(s, Declares(d)), messages, stack)
  {
    var top := stack[|stack| - 1];
    top.fields := top.fields[d.number := Entry(d.name, WireOf(d))];
  }

  lemma StepKeepsOneofs(s: State, line: Line)
    ensures !line.OpenOneof? && !line.Close? ==> Step(s, line).oneofs == s.oneofs
    ensures line.OpenOneof? ==> Step(s, line) == s.(oneofs := s.oneofs + 1)
    ensures line.Other? || (line.Declares? && s.stack == []) ==> Step(s, line) == s
  {
  }

  lemma RunFirst(s: State, lines: seq<Line>, i: nat)
    requires i < |lines|
    ensures Run(s, lines[i..]) == Run(Step(s, lines[i]), lines[i + 1..])
  {
    assert lines[i..][1..] == lines[i + 1..];
  }

  lemma ShowsStack(s: State, messages: map<string, ProtoMessage>, stack: seq<ProtoMessage>, oneofs: nat)
    requires Shows(s, messages, stack)
    ensures |stack| == |s.stack| && Shows(s.(oneofs := oneofs), messages, stack)
  {
  }

  lemma ShowsStart()
    ensures Shows(START, map[], [])
  {
  }

  method ParseProto(lines: seq<Line>) returns (messages: map<string, ProtoMessage>)
    ensures messages.Keys == Parse(lines).Keys
    ensures forall n | n in messages :: fresh(messages[n]) && messages[n].fields == Parse(lines)[n]
  {
    hide Step, Run, Shows;
    messages := map[];
    var stack: seq<ProtoMessage> := [];
    var oneof_depth := 0;
    ghost var s := START;
    ShowsStart();
    var i := 0;
    assert lines[0..] == lines;
    while i < |lines|
      invariant 0 <= i <= |lines| && Run(s, lines[i..]) == Run(START, lines)
      invariant (forall k | 0 <= k < |stack| :: fresh(stack[k])) && forall n | n in messages :: fresh(messages[n])
      invariant oneof_depth == s.oneofs && Shows(s, messages, stack)
    {
      RunFirst(s, lines, i);
      var line := lines[i];
      ghost var before := s;
      i := i + 1;
      s := Step(s, line);
      StepKeepsOneofs(before, line);
      ShowsStack(before, messages, stack, s.oneofs);
      match line {
        case OpenMessage(name) =>
          var msg := new ProtoMessage(name);
          ShowsOpened(before, messages, stack, msg);
          if stack == [] {
            messages := messages[name := msg];
          }
          stack := stack + [msg];
        case OpenOneof =>
          oneof_depth := oneof_depth + 1;
        case Close =>
          ShowsClosed(before, messages, stack);
          if oneof_depth > 0 {
            oneof_depth := oneof_depth - 1;
          } else if stack != [] {
            stack := stack[..|stack| - 1];
          }
        case Declares(d) =>
          if stack == [] {
            continue;
          }
          AddField(d, stack, before, messages);
        case Other =>
      }
    }
    assert lines[i..] == [];
    RunNothing(s);
    ShownEntries(s, messages, stack);
  }

  lemma ShownEntries(s: State, messages: map<string, ProtoMessage>, stack: seq<ProtoMessage>)
    requires Shows(s, messages, stack)
    ensures messages.Keys == s.messages.Keys && forall n | n in messages :: messages[n].fields == s.messages[n]
  {
  }

  // ----- what the parser should find -----

  datatype Item = Noise
                | Declaration(decl: Decl)
                | Oneof(body: Body)
                | Message(name: string, body: Body)
                | Block(size: nat)          // an enum or another block the parser does not know

  datatype Body = End | Then(first: Item, rest: Body)

  function Others(n: nat): seq<Line> { seq(n, _ => Other) }

  /** One construct per line. */
  function PrintItem(item: Item): seq<Line> {
    match item
    case Noise => [Other]
    case Declaration(d) => [Declares(d)]
    case Oneof(body) => [OpenOneof] + Print(body) + [Close]
    case Message(name, body) => [OpenMessage(name)] + Print(body) + [Close]
    case Block(size) => [Other] + Others(size) + [Close]
  }

  function Print(body: Body): seq<Line> {
    match body
    case End => []
    case Then(first, rest) => PrintItem(first) + Print(rest)
  }

  /** The fields of a message in the order they are written: its own and those of its oneofs, not those of
      the messages nested in it. */
  function Direct(body: Body): seq<Decl> {
    match body
    case End => []
    case Then(first, rest) => Own(first) + Direct(rest)
  }

  function Own(item: Item): seq<Decl> {
    match item
    case Declaration(d) => [d]
    case Oneof(inner) => Direct(inner)
    case _ => []
  }

  function Fill(fields: Fields, decls: seq<Decl>): Fields
    decreases |decls|
  {
    if decls == [] then fields else Fill(Insert(fields, decls[0]), decls[1..])
  }

  function Collect(messages: map<string, Fields>, file: Body): map<string, Fields>
    decreases file
  {
    match file
    case End => messages
    case Then(Message(name, body), rest) => Collect(messages[name := Fill(map[], Direct(body))], rest)
    case Then(_, rest) => Collect(messages, rest)
  }

  /** A oneof holds only fields. */
  predicate Flat(body: Body) {
    match body
    case End => true
    case Then(first, rest) => (first.Noise? || first.Declaration?) && Flat(rest)
  }

  /** The body of a message: fields, oneofs and messages. */
  predicate Proper(body: Body) {
    match body
    case End => true
    case Then(first, rest) =>
      && (match first
          case Oneof(inner) => Flat(inner)
          case Message(_, inner) => Proper(inner)
          case Block(_) => false
          case _ => true)
      && Proper(rest)
  }

  /** A file: outside the messages other blocks may stand too. */
  predicate ProperFile(file: Body) {
    match file
    case End => true
    case Then(first, rest) =>
      && (match first
          case Oneof(inner) => Flat(inner)
          case Message(_, inner) => Proper(inner)
          case _ => true)
      && ProperFile(rest)
  }

  // ----- running a printed tree -----

  lemma {:induction false} RunAppend(s: State, a: seq<Line>, b: seq<Line>)
    ensures Run(s, a + b) == Run(Run(s, a), b)
    decreases |a|
  {
    hide Step;
    if a == [] {
      assert a + b == b;
    } else {
      assert (a + b)[1..] == a[1..] + b;
      RunAppend(Step(s, a[0]), a[1..], b);
    }
  }

  lemma RunOne(s: State, line: Line)
    ensures Run(s, [line]) == Step(s, line)
  {
    assert [line][1..] == [];
  }

  lemma RunBlock(s: State, open: Line, body: seq<Line>)
    ensures Run(s, [open] + body + [Close]) == Step(Run(Step(s, open), body), Close)
  {
    hide Run, Step;
    assert [open] + body + [Close] == [open] + (body + [Close]);
    RunAppend(s, [open], body + [Close]);
    RunAppend(Step(s, open), body, [Close]);
    RunOne(s, open);
    RunOne(Run(Step(s, open), body), Close);
  }

  lemma {:induction false} RunOthers(s: State, n: nat)
    ensures Run(s, Others(n)) == s
  {
    if n > 0 {
      assert Others(n)[1..] == Others(n - 1);
      RunOthers(s, n - 1);
    }
  }

  lemma {:induction false} FillAppend(fields: Fields, a: seq<Decl>, b: seq<Decl>)
    ensures Fill(fields, a + b) == Fill(Fill(fields, a), b)
    decreases |a|
  {
    hide Insert;
    if a == [] {
      assert a + b == b;
    } else {
      assert (a + b)[1..] == a[1..] + b;
      FillAppend(Insert(fields, a[0]), a[1..], b);
    }
  }

  /** The shown entry of the outermost open message is that message. */
  ghost predicate Live(s: State) {
    s.stack != [] ==> s.stack[0].name in s.messages && s.messages[s.stack[0].name] == s.stack[0].fields
  }

  ghost function TopFields(s: State): Fields
    requires s.stack != []
  {
    s.stack[|s.stack| - 1].fields
  }

  /** The state after the direct fields of a body were read into the innermost open message. */
  ghost function Filled(s: State, body: Body): State
    requires s.stack != []
  {
    WithTop(s, Fill(TopFields(s), Direct(body)))
  }

  lemma WithTopTwice(s: State, f: Fields, g: Fields)
    requires s.stack != []
    ensures var t := WithTop(s, f); t.stack != [] && TopFields(t) == f && t.oneofs == s.oneofs
    ensures WithTop(WithTop(s, f), g) == WithTop(s, g)
  {
    var n := |s.stack|;
    var lower, top := s.stack[..n - 1], Frame(s.stack[n - 1].name, f);
    var t := WithTop(s, f);
    assert t.stack == lower + [top];
    assert (lower + [top])[..n - 1] == lower && (lower + [top])[n - 1] == top;
    assert s.messages[top.name := f][top.name := g] == s.messages[top.name := g];
  }

  lemma WithTopLive(s: State, f: Fields)
    requires s.stack != [] && Live(s)
    ensures Live(WithTop(s, f)) && WithTop(s, TopFields(s)) == s
  {
    var n := |s.stack|;
    assert s.stack[..n - 1] + [s.stack[n - 1]] == s.stack;
    if n == 1 {
      assert s.messages[s.stack[0].name := s.stack[0].fields] == s.messages;
    }
  }

  /** Reading one item and then the rest. */
  lemma FilledThen(s: State, t: State, first: Item, rest: Body)
    requires s.stack != [] && t == Filled(s, Then(first, End))
    ensures t.stack != [] && Filled(t, rest) == Filled(s, Then(first, rest))
  {
    hide WithTop, Fill;
    var a := Own(first);
    assert Direct(Then(first, End)) == a + [] == a;
    WithTopTwice(s, Fill(TopFields(s), a), Fill(Fill(TopFields(s), a), Direct(rest)));
    FillAppend(TopFields(s), a, Direct(rest));
  }

  /** Inside a message every body fills that message with its direct fields, and nothing else changes. */
  lemma {:induction false} RunBody(s: State, body: Body)
    requires s.stack != [] && Live(s) && (Flat(body) || (Proper(body) && s.oneofs == 0))
    ensures Run(s, Print(body)) == Filled(s, body) && Live(Filled(s, body))
    decreases body
  {
    hide Run, WithTop, Fill, Live, Step;
    WithTopLive(s, Fill(TopFields(s), Direct(body)));
    match body
    case End =>
      RunNothing(s);
      assert Fill(TopFields(s), []) == TopFields(s) by { FillNothing(TopFields(s)); }
    case Then(first, rest) =>
      var t := Filled(s, Then(first, End));
      RunItem(s, first);
      WithTopLive(s, Fill(TopFields(s), Direct(Then(first, End))));
      WithTopTwice(s, Fill(TopFields(s), Direct(Then(first, End))), map[]);
      RunBody(t, rest);
      RunAppend(s, PrintItem(first), Print(rest));
      FilledThen(s, t, first, rest);
  }

  lemma RunNothing(s: State)
    ensures Run(s, []) == s
  {
  }

  lemma FillNothing(fields: Fields)
    ensures Fill(fields, []) == fields
  {
  }

  lemma {:induction false} RunItem(s: State, item: Item)
    requires s.stack != [] && Live(s)
    requires item.Noise? || item.Declaration? || (s.oneofs == 0 && Proper(Then(item, End)))
    ensures Run(s, PrintItem(item)) == Filled(s, Then(item, End))
    decreases item
  {
    hide Run, WithTop, Fill, Live, Step, Direct;
    FilledByItem(s, item);
    match item
    case Noise =>
      RunOne(s, Other);
      StepOther(s);
    case Declaration(d) =>
      RunOne(s, Declares(d));
      StepField(s, d);
    case Oneof(body) =>
      var t := s.(oneofs := s.oneofs + 1);
      SameLive(s, t);
      RunBody(t, body);
      RunBlock(s, OpenOneof, Print(body));
      OneofCloses(s, Fill(TopFields(s), Direct(body)));
    case Message(name, body) =>
      var t := Step(s, OpenMessage(name));
      NestedOpens(s, name);
      RunBody(t, body);
      RunBlock(s, OpenMessage(name), Print(body));
      NestedCloses(s, name, Fill(TopFields(t), Direct(body)));
  }

  lemma FilledByItem(s: State, item: Item)
    requires s.stack != [] && Live(s)
    ensures Filled(s, Then(item, End)) == WithTop(s, Fill(TopFields(s), Own(item)))
    ensures Own(item) == [] ==> Filled(s, Then(item, End)) == s
  {
    hide WithTop, Live;
    WithTopLive(s, map[]);
    FillNothing(TopFields(s));
    assert Direct(Then(item, End)) == Own(item) + [] == Own(item);
  }

  lemma StepOther(s: State)
    ensures Step(s, Other) == s
  {
  }

  lemma StepField(s: State, d: Decl)
    requires s.stack != []
    ensures Step(s, Declares(d)) == WithTop(s, Fill(TopFields(s), [d]))
  {
    FillOne(TopFields(s), d);
  }

  lemma FillOne(fields: Fields, d: Decl)
    ensures Fill(fields, [d]) == Insert(fields, d)
  {
    assert [d][1..] == [];
  }

  lemma SameLive(s: State, t: State)
    requires Live(s) && t.messages == s.messages && t.stack == s.stack
    ensures Live(t)
  {
  }

  lemma OneofCloses(s: State, f: Fields)
    requires s.stack != []
    ensures Step(s, OpenOneof) == s.(oneofs := s.oneofs + 1)
    ensures Step(WithTop(s.(oneofs := s.oneofs + 1), f), Close) == WithTop(s, f)
  {
  }

  lemma NestedOpens(s: State, name: string)
    requires s.stack != [] && Live(s)
    ensures var t := Step(s, OpenMessage(name)); t.stack != [] && t.oneofs == s.oneofs && Live(t)
  {
  }

  lemma NestedCloses(s: State, name: string, f: Fields)
    requires s.stack != [] && s.oneofs == 0
    ensures Step(WithTop(Step(s, OpenMessage(name)), f), Close) == s
  {
    var n := |s.stack|;
    assert (s.stack + [Frame(name, map[])])[..n] == s.stack;
    assert (s.stack + [Frame(name, f)])[..n] == s.stack;
  }

  /** Outside all messages. */
  lemma {:induction false} RunFile(s: State, file: Body)
    requires s.stack == [] && s.oneofs == 0 && ProperFile(file)
    ensures Run(s, Print(file)) == s.(messages := Collect(s.messages, file))
    decreases file
  {
    hide Run, Fill;
    match file
    case End => RunNothing(s);
    case Then(first, rest) =>
      var t := s.(messages := Collect(s.messages, Then(first, End)));
      RunTopItem(s, first);
      RunFile(t, rest);
      RunAppend(s, PrintItem(first), Print(rest));
  }

  lemma RunTopItem(s: State, item: Item)
    requires s.stack == [] && s.oneofs == 0 && ProperFile(Then(item, End))
    ensures Run(s, PrintItem(item)) == s.(messages := Collect(s.messages, Then(item, End)))
  {
    hide Run, Fill;
    match item
    case Noise => RunOne(s, Other);
    case Declaration(d) => RunOne(s, Declares(d));
    case Oneof(body) =>
      RunBlock(s, OpenOneof, Print(body));
      IgnoredOutside(Step(s, OpenOneof), body);
    case Block(size) =>
      RunBlock(s, Other, Others(size));
      RunOthers(s, size);
    case Message(name, body) =>
      RunBlock(s, OpenMessage(name), Print(body));
      RunBody(Step(s, OpenMessage(name)), body);
      OutermostCloses(s, name, Fill(map[], Direct(body)));
  }

  lemma OutermostCloses(s: State, name: string, f: Fields)
    requires s.stack == [] && s.oneofs == 0
    ensures Step(WithTop(Step(s, OpenMessage(name)), f), Close) == s.(messages := s.messages[name := f])
  {
    var inside := State(s.messages[name := map[]], [Frame(name, map[])], 0);
    assert [] + [Frame(name, map[])] == [Frame(name, map[])];
    assert Step(s, OpenMessage(name)) == inside;
    assert inside.messages[name := f] == s.messages[name := f];
    assert inside.stack[..0] == [] && [Frame(name, f)][..0] == [];
    assert WithTop(inside, f) == State(s.messages[name := f], [Frame(name, f)], 0);
  }

  lemma {:induction false} IgnoredOutside(s: State, body: Body)
    requires s.stack == [] && Flat(body)
    ensures Run(s, Print(body)) == s
    decreases body
  {
    hide Run;
    match body
    case End => RunNothing(s);
    case Then(first, rest) =>
      RunAppend(s, PrintItem(first), Print(rest));
      RunOne(s, PrintItem(first)[0]);
      IgnoredOutside(s, rest);
  }

  /** The parser finds, for each outermost message of a printed file, exactly its own and its oneofs' fields,
      never those of nested messages. */
  lemma ParseOfPrint(file: Body)
    requires ProperFile(file)
    ensures Parse(Print(file)) == Collect(map[], file)
  {
    hide Run;
    RunFile(START, file);
  }

  // ----- what the tables hold -----

  /** A number is declared if some field carries it, and the last such field gives its entry. */
  lemma {:induction false} FillHoldsLast(fields: Fields, decls: seq<Decl>, number: nat)
    ensures number in Fill(fields, decls) <==> number in fields || exists i | 0 <= i < |decls| :: decls[i].number == number
    ensures forall i | 0 <= i < |decls| && decls[i].number == number ::
              (forall j | i < j < |decls| :: decls[j].number != number)
              ==> Fill(fields, decls)[number] == Entry(decls[i].name, ProtobufWire(decls[i], false))
    ensures (forall i | 0 <= i < |decls| :: decls[i].number != number) && number in fields
            ==> Fill(fields, decls)[number] == fields[number]
    decreases |decls|
  {
    hide WireOf, ProtobufWire;
    if decls != [] {
      var rest := decls[1..];
      WireIsProtobufs(decls[0], false);
      FillHoldsLast(Insert(fields, decls[0]), rest, number);
      assert forall i | 0 < i < |decls| :: decls[i] == rest[i - 1];
      assert forall i | 0 <= i < |rest| :: rest[i] == decls[i + 1];
    }
  }

  /** The outermost messages of a file called `name`. */
  function Bodies(file: Body, name: string): seq<Body> {
    match file
    case End => []
    case Then(Message(other, body), rest) => (if other == name then [body] else []) + Bodies(rest, name)
    case Then(_, rest) => Bodies(rest, name)
  }

  /** A name is found if an outermost message has it, and the last such message gives its fields. */
  lemma {:induction false} CollectHoldsLast(messages: map<string, Fields>, file: Body, name: string)
    ensures var bodies := Bodies(file, name);
            && (name in Collect(messages, file) <==> name in messages || bodies != [])
            && (bodies != [] ==> Collect(messages, file)[name] == Fill(map[], Direct(bodies[|bodies| - 1])))
            && (bodies == [] && name in messages ==> Collect(messages, file)[name] == messages[name])
    decreases file
  {
    hide Fill, Direct;
    match file
    case End =>
    case Then(first, rest) =>
      match first
      case Message(other, body) => CollectHoldsLast(messages[other := Fill(map[], Direct(body))], rest, name);
      case _ => CollectHoldsLast(messages, rest, name);
  }

  function Append(a: Body, b: Body): Body {
    match a
    case End => b
    case Then(first, rest) => Then(first, Append(rest, b))
  }

  lemma {:induction false} PrintAppend(a: Body, b: Body)
    ensures Print(Append(a, b)) == Print(a) + Print(b)
    decreases a
  {
    hide PrintItem;
    match a
    case End =>
    case Then(first, rest) => PrintAppend(rest, b);
  }

  lemma {:induction false} DirectAppend(a: Body, b: Body)
    ensures Direct(Append(a, b)) == Direct(a) + Direct(b)
    decreases a
  {
    hide Own;
    match a
    case End =>
    case Then(first, rest) => DirectAppend(rest, b);
  }

  lemma {:induction false} CollectAppend(messages: map<string, Fields>, a: Body, b: Body)
    ensures Collect(messages, Append(a, b)) == Collect(Collect(messages, a), b)
    decreases a
  {
    hide Fill, Direct;
    match a
    case End =>
    case Then(Message(name, body), rest) => CollectAppend(messages[name := Fill(map[], Direct(body))], rest, b);
    case Then(_, rest) => CollectAppend(messages, rest, b);
  }

  // ----- blocks the parser does not know -----

  /** An unknown block, such as an enum, in a message: among its items, or in a message nested in it, at any depth. */
  datatype Cut = Here(size: nat)
               | Deeper(name: string, before: Body, inner: Cut, after: Body)

  function ItemOf(cut: Cut): Item {
    match cut
    case Here(size) => Block(size)
    case Deeper(name, before, inner, after) => Message(name, Append(before, Then(ItemOf(inner), after)))
  }

  predicate ProperCut(cut: Cut) {
    cut.Deeper? ==> Proper(cut.before) && ProperCut(cut.inner) && Proper(cut.after)
  }

  /** What the parser reads into the message around, before it takes that for closed. */
  function Stray(cut: Cut): Body {
    if cut.Here? then End else cut.after
  }

  lemma RegroupLines(a: seq<Line>, b: seq<Line>, c: seq<Line>, d: seq<Line>, e: seq<Line>)
    ensures a + (b + (c + d)) + e == a + (b + (c + (d + e)))
  {
  }

  lemma LinesAround(name: string, before: Body, item: Item, after: Body)
    ensures PrintItem(Message(name, Append(before, Then(item, after))))
            == [OpenMessage(name)] + (Print(before) + (PrintItem(item) + (Print(after) + [Close])))
  {
    PrintAppend(before, Then(item, after));
    assert Print(Then(item, after)) == PrintItem(item) + Print(after);
    RegroupLines([OpenMessage(name)], Print(before), PrintItem(item), Print(after), [Close]);
  }

  /** Two bodies, one behind the other, fill the innermost message. */
  lemma FilledTwice(s: State, a: Body, b: Body)
    requires s.stack != []
    ensures var t := Filled(s, a); t.stack != [] && t.oneofs == s.oneofs
    ensures Filled(Filled(s, a), b) == WithTop(s, Fill(TopFields(s), Direct(a) + Direct(b)))
  {
    hide Fill, Direct, WithTop;
    var f := Fill(TopFields(s), Direct(a));
    WithTopTwice(s, f, Fill(f, Direct(b)));
    FillAppend(TopFields(s), Direct(a), Direct(b));
  }

  lemma FilledByNothing(s: State)
    requires s.stack != [] && Live(s)
    ensures Filled(s, End) == s
  {
    hide WithTop;
    WithTopLive(s, map[]);
    FillNothing(TopFields(s));
  }

  /** From an open message s up to an unknown block in it, and on to the end of the item that holds the block. */
  lemma RunToCut(s: State, before: Body, cut: Cut)
    requires s.stack != [] && Live(s) && s.oneofs == 0 && Proper(before) && ProperCut(cut)
    ensures Run(Run(s, Print(before)), PrintItem(ItemOf(cut)))
            == Step(WithTop(s, Fill(TopFields(s), Direct(before) + Direct(Stray(cut)))), Close)
    decreases cut, 1
  {
    hide Run, Fill, Direct, Print, PrintItem, WithTop, Step, Live;
    RunBody(s, before);
    FilledTwice(s, before, Stray(cut));
    BlockInMessage(Filled(s, before), cut);
  }

  /** Inside a message, at any depth, an unknown block ends the message it stands in. What follows it there is read
      into the message around, and the closing brace then ends that one. */
  lemma {:induction false} BlockInMessage(s: State, cut: Cut)
    requires s.stack != [] && Live(s) && s.oneofs == 0 && ProperCut(cut)
    ensures Run(s, PrintItem(ItemOf(cut))) == Step(Filled(s, Stray(cut)), Close)
    decreases cut, 0
  {
    hide Run, Fill, Direct, Others, Print, WithTop, Step, Live, Filled;
    match cut
    case Here(size) =>
      RunBlock(s, Other, Others(size));
      StepOther(s);
      RunOthers(s, size);
      FilledByNothing(s);
    case Deeper(name, before, inner, after) =>
      var t := Step(s, OpenMessage(name));
      NestedOpens(s, name);
      LinesAround(name, before, ItemOf(inner), after);
      RunAppend(s, [OpenMessage(name)], Print(before) + (PrintItem(ItemOf(inner)) + (Print(after) + [Close])));
      RunOne(s, OpenMessage(name));
      RunAppend(t, Print(before), PrintItem(ItemOf(inner)) + (Print(after) + [Close]));
      RunAppend(Run(t, Print(before)), PrintItem(ItemOf(inner)), Print(after) + [Close]);
      RunToCut(t, before, inner);
      NestedCloses(s, name, Fill(TopFields(t), Direct(before) + Direct(Stray(inner))));
      RunAppend(s, Print(after), [Close]);
      RunBody(s, after);
      RunOne(Filled(s, after), Close);
  }

  lemma OutermostIsLive(s: State, name: string)
    requires s.stack == []
    ensures var t := Step(s, OpenMessage(name)); t.stack != [] && t.oneofs == s.oneofs && Live(t) && TopFields(t) == map[]
  {
  }

  lemma StrayClose(s: State)
    requires s.stack == [] && s.oneofs == 0
    ensures Step(s, Close) == s
  {
  }

  /** A file in which messages hold unknown blocks; what follows the first one's item in an outermost message may
      hold more. */
  datatype File = Done
                | Sound(item: Item, next: File)
                | Broken(name: string, before: Body, cut: Cut, after: File, next: File)

  function TreeOf(file: File): Body {
    match file
    case Done => End
    case Sound(item, next) => Then(item, TreeOf(next))
    case Broken(name, before, cut, after, next) =>
      Then(Message(name, Append(before, Then(ItemOf(cut), TreeOf(after)))), TreeOf(next))
  }

  /** The file as the parser reads it: what follows the item with the block stands outside the message. */
  function ReadAs(file: File): Body {
    match file
    case Done => End
    case Sound(item, next) => Then(item, ReadAs(next))
    case Broken(name, before, cut, after, next) =>
      Then(Message(name, Append(before, Stray(cut))), Append(ReadAs(after), ReadAs(next)))
  }

  predicate ProperPieces(file: File) {
    match file
    case Done => true
    case Sound(item, next) => ProperFile(Then(item, End)) && ProperPieces(next)
    case Broken(_, before, cut, after, next) =>
      Proper(before) && ProperCut(cut) && ProperPieces(after) && ProperPieces(next)
  }

  /** Outside all messages a file is read so. */
  lemma {:induction false} RunPieces(s: State, file: File)
    requires s.stack == [] && s.oneofs == 0 && ProperPieces(file)
    ensures Run(s, Print(TreeOf(file))) == s.(messages := Collect(s.messages, ReadAs(file)))
    decreases file, 0
  {
    hide Run, Fill, Direct, PrintItem;
    match file
    case Done => RunNothing(s);
    case Sound(item, next) =>
      RunTopItem(s, item);
      RunPieces(s.(messages := Collect(s.messages, Then(item, End))), next);
      RunAppend(s, PrintItem(item), Print(TreeOf(next)));
    case Broken(name, before, cut, after, next) =>
      var item := Message(name, Append(before, Then(ItemOf(cut), TreeOf(after))));
      var fields := Fill(map[], Direct(before) + Direct(Stray(cut)));
      RunCutMessage(s, name, before, cut, after);
      RunPieces(s.(messages := Collect(s.messages[name := fields], ReadAs(after))), next);
      RunAppend(s, PrintItem(item), Print(TreeOf(next)));
      DirectAppend(before, Stray(cut));
      CollectAppend(s.messages[name := fields], ReadAs(after), ReadAs(next));
  }

  /** An outermost message with an unknown block somewhere in it: what follows in it is read as if it stood outside,
      and its own brace closes nothing. */
  lemma {:induction false} RunCutMessage(s: State, name: string, before: Body, cut: Cut, after: File)
    requires s.stack == [] && s.oneofs == 0 && Proper(before) && ProperCut(cut) && ProperPieces(after)
    ensures Run(s, PrintItem(Message(name, Append(before, Then(ItemOf(cut), TreeOf(after))))))
            == s.(messages := Collect(s.messages[name := Fill(map[], Direct(before) + Direct(Stray(cut)))], ReadAs(after)))
    decreases after, 1
  {
    hide Run, Fill, Direct, Print, PrintItem, WithTop, Step, Live, Collect;
    var t := Step(s, OpenMessage(name));
    var fields, rest := Fill(map[], Direct(before) + Direct(Stray(cut))), Print(TreeOf(after)) + [Close];
    LinesAround(name, before, ItemOf(cut), TreeOf(after));
    RunAppend(s, [OpenMessage(name)], Print(before) + (PrintItem(ItemOf(cut)) + rest));
    RunOne(s, OpenMessage(name));
    OutermostIsLive(s, name);
    RunAppend(t, Print(before), PrintItem(ItemOf(cut)) + rest);
    RunAppend(Run(t, Print(before)), PrintItem(ItemOf(cut)), rest);
    RunToCut(t, before, cut);
    OutermostCloses(s, name, fields);
    var closed := s.(messages := s.messages[name := fields]);
    var read := closed.(messages := Collect(closed.messages, ReadAs(after)));
    RunAppend(closed, Print(TreeOf(after)), [Close]);
    RunPieces(closed, after);
    RunOne(read, Close);
    StrayClose(read);
  }

  /** A block the parser does not know, such as an enum, ends the message it stands in: the tables are those of the
      file as it is read then. */
  lemma UnknownBlockEndsMessage(file: File)
    requires ProperPieces(file)
    ensures Parse(Print(TreeOf(file))) == Collect(map[], ReadAs(file))
  {
    hide Run;
    RunPieces(START, file);
  }

  // ----- when the tables are right in spite of the block -----

  /** The names of the outermost messages of a body. */
  function MessageNames(body: Body): seq<string> {
    match body
    case End => []
    case Then(Message(name, _), rest) => [name] + MessageNames(rest)
    case Then(_, rest) => MessageNames(rest)
  }

  lemma {:induction false} BodiesAreNamed(file: Body, name: string)
    ensures name in MessageNames(file) <==> Bodies(file, name) != []
    decreases file
  {
    match file
    case End =>
    case Then(first, rest) => BodiesAreNamed(rest, name);
  }

  /** The fields of the last outermost message of that name. */
  function Table(file: Body, name: string): Option<Fields> {
    var bodies := Bodies(file, name);
    if bodies == [] then None else Some(Fill(map[], Direct(bodies[|bodies| - 1])))
  }

  function Lookup(messages: map<string, Fields>, name: string): Option<Fields> {
    if name in messages then Some(messages[name]) else None
  }

  lemma LookupIs(messages: map<string, Fields>, file: Body, name: string)
    ensures Lookup(Collect(messages, file), name)
            == if name in MessageNames(file) then Table(file, name) else Lookup(messages, name)
    ensures name in MessageNames(file) <==> Table(file, name).Some?
  {
    hide Collect, Fill, Direct, Bodies, MessageNames;
    CollectHoldsLast(messages, file, name);
    BodiesAreNamed(file, name);
  }

  lemma SameTables(a: map<string, Fields>, b: map<string, Fields>)
    ensures a == b <==> forall name :: Lookup(a, name) == Lookup(b, name)
  {
    if forall name :: Lookup(a, name) == Lookup(b, name) {
      forall name ensures name in a <==> name in b
        ensures name in a ==> a[name] == b[name]
      {
        assert Lookup(a, name) == Lookup(b, name);
      }
    }
  }

  /** A file with one such message, and its table as it should be. */
  function CutFile(front: Body, name: string, before: Body, cut: Cut, after: Body, back: Body): Body {
    Append(front, Then(Message(name, Append(before, Then(ItemOf(cut), after))), back))
  }

  function Pieces(body: Body): File {
    match body
    case End => Done
    case Then(first, rest) => Sound(first, Pieces(rest))
  }

  lemma {:induction false} PiecesOf(body: Body)
    requires ProperFile(body)
    ensures TreeOf(Pieces(body)) == body && ReadAs(Pieces(body)) == body && ProperPieces(Pieces(body))
    decreases body
  {
    match body
    case End =>
    case Then(first, rest) => PiecesOf(rest);
  }

  lemma CutTables(front: Body, name: string, before: Body, cut: Cut, after: Body, back: Body)
    requires ProperFile(front) && Proper(before) && ProperCut(cut) && ProperFile(after) && ProperFile(back)
    ensures var file, others := CutFile(front, name, before, cut, after, back), Collect(map[], front);
            && Parse(Print(file))
               == Collect(Collect(others[name := Fill(map[], Direct(before) + Direct(Stray(cut)))], after), back)
            && Collect(map[], file) == Collect(others[name := Fill(map[], Direct(before) + Direct(after))], back)
  {
    hide Run, Fill, Direct, PrintItem;
    var item := Message(name, Append(before, Then(ItemOf(cut), after)));
    var others := Collect(map[], front);
    PrintAppend(front, Then(item, back));
    RunAppend(START, Print(front), PrintItem(item) + Print(back));
    RunFile(START, front);
    var s := START.(messages := others);
    RunAppend(s, PrintItem(item), Print(back));
    PiecesOf(after);
    RunCutMessage(s, name, before, cut, Pieces(after));
    RunFile(s.(messages := Collect(others[name := Fill(map[], Direct(before) + Direct(Stray(cut)))], after)), back);
    CollectAppend(map[], front, Then(item, back));
    DirectAround(before, cut, after);
  }

  lemma DirectAround(before: Body, cut: Cut, after: Body)
    ensures Direct(Append(before, Then(ItemOf(cut), after))) == Direct(before) + Direct(after)
  {
    DirectAppend(before, Then(ItemOf(cut), after));
    assert Own(ItemOf(cut)) == [];
  }

  /** A message that ended up outside hides no table of that name: a later message has the name anyway, or the one it
      hides has the same fields. */
  predicate HidesNothing(front: Body, after: Body, back: Body, other: string) {
    other in MessageNames(back) || Table(after, other) == Table(front, other)
  }

  /** The result is the intended table, in spite of the block, if and only if
      - the cut message is hidden by a later one of its name, or it was read with all its fields and none of its own
        messages now outside has its name, or such a message has the same fields;
      - every message now outside hides nothing.
      In a file without repeated names that means: no message of it is now outside, and it has all its fields. */
  lemma CutMessageIsRightExactly(front: Body, name: string, before: Body, cut: Cut, after: Body, back: Body)
    requires ProperFile(front) && Proper(before) && ProperCut(cut) && ProperFile(after) && ProperFile(back)
    ensures var file := CutFile(front, name, before, cut, after, back);
            var seen, full := Fill(map[], Direct(before) + Direct(Stray(cut))), Fill(map[], Direct(before) + Direct(after));
            && (Parse(Print(file)) == Collect(map[], file) <==>
                && (name in MessageNames(back)
                    || (if name in MessageNames(after) then Table(after, name) == Some(full) else seen == full))
                && forall other <- MessageNames(after) :: other == name || HidesNothing(front, after, back, other))
            && (name !in MessageNames(back)
                && (forall other <- MessageNames(after) :: other !in MessageNames(front) + [name] + MessageNames(back))
                ==> (Parse(Print(file)) == Collect(map[], file) <==> MessageNames(after) == [] && seen == full))
  {
    hide Parse, Print, Collect, Fill, Direct, Bodies, MessageNames, Append, Table, Lookup;
    var file := CutFile(front, name, before, cut, after, back);
    var seen, full := Fill(map[], Direct(before) + Direct(Stray(cut))), Fill(map[], Direct(before) + Direct(after));
    CutTables(front, name, before, cut, after, back);
    hide CutFile;
    SameTables(Parse(Print(file)), Collect(map[], file));
    forall n
      ensures Lookup(Parse(Print(file)), n) == Lookup(Collect(map[], file), n) <==>
                n in MessageNames(back)
                || (if n in MessageNames(after) then Table(after, n) == (if n == name then Some(full) else Table(front, n))
                    else n == name ==> seen == full)
    {
      AgreeAt(front, name, seen, full, after, back, n);
    }
    forall other <- MessageNames(after) ensures other !in MessageNames(front) ==> Table(after, other) != Table(front, other) {
      LookupIs(map[], front, other);
      LookupIs(map[], after, other);
    }
    if MessageNames(after) != [] {
      assert MessageNames(after)[0] in MessageNames(after);
    }
  }

  /** The two tables of one name. */
  lemma AgreeAt(front: Body, name: string, seen: Fields, full: Fields, after: Body, back: Body, n: string)
    ensures var others := Collect(map[], front);
            Lookup(Collect(Collect(others[name := seen], after), back), n) == Lookup(Collect(others[name := full], back), n) <==>
              n in MessageNames(back)
              || (if n in MessageNames(after) then Table(after, n) == (if n == name then Some(full) else Table(front, n))
                  else n == name ==> seen == full)
  {
    hide Collect, MessageNames, Table;
    var others := Collect(map[], front);
    LookupIs(map[], front, n);
    LookupIs(others[name := seen], after, n);
    LookupIs(Collect(others[name := seen], after), back, n);
    LookupIs(others[name := full], back, n);
  }

  // ----- the comparison -----

  /** The pairs of field number and wire type that an encoder emits and the message does not declare so. */
  function Undeclared(emitted: set<(nat, nat)>, spec: Fields): set<(nat, nat)> {
    set p | p in emitted && !(p.0 in spec && spec[p.0].wire == p.1)
  }

  function Failures(messages: map<string, Fields>, encoder: map<string, seq<(nat, nat)>>, name: string): nat {
    if name !in messages then 1
    else if name !in encoder || encoder[name] == [] then 1
    else |Undeclared((set p | p in encoder[name]), messages[name])|
  }

  const REQUIRED := ["GraphDef", "NodeDef"]

  /** The loops of the original; the pairs of one message are visited in some order. */
  method Check(messages: map<string, Fields>, encoder: map<string, seq<(nat, nat)>>) returns (failures: nat)
    ensures failures == Failures(messages, encoder, "GraphDef") + Failures(messages, encoder, "NodeDef")
    ensures (forall name <- ["GraphDef", "NodeDef"] :: name !in messages || name !in encoder || encoder[name] == []) ==> failures == 2
    ensures (forall name <- ["GraphDef", "NodeDef"] :: name in messages && name in encoder && encoder[name] != []) ==>
              failures == |set p | p in encoder["GraphDef"] && !(p.0 in messages["GraphDef"] && messages["GraphDef"][p.0].wire == p.1)|
                          + |set p | p in encoder["NodeDef"] && !(p.0 in messages["NodeDef"] && messages["NodeDef"][p.0].wire == p.1)|
  {
    failures := 0;
    for i := 0 to |REQUIRED|
      invariant failures == (if i > 0 then Failures(messages, encoder, REQUIRED[0]) else 0)
                            + (if i > 1 then Failures(messages, encoder, REQUIRED[1]) else 0)
      invariant forall k | 0 <= k < i :: var name := REQUIRED[k];
                  name in messages && name in encoder && encoder[name] != [] ==>
                    Failures(messages, encoder, name)
                    == |set p | p in encoder[name] && !(p.0 in messages[name] && messages[name][p.0].wire == p.1)|
    {
      var name := REQUIRED[i];
      var emit := if name in encoder then encoder[name] else [];
      if name !in messages {
        failures := failures + 1;
        continue;
      }
      if emit == [] {
        failures := failures + 1;
        continue;
      }
      var pairs := set p | p in emit;
      var msg_failures := CountUndeclared(pairs, messages[name]);
      failures := failures + msg_failures;
      UndeclaredIs(emit, messages[name]);
    }
  }

  lemma UndeclaredIs(emit: seq<(nat, nat)>, spec: Fields)
    ensures Undeclared((set p | p in emit), spec) == set p | p in emit && !(p.0 in spec && spec[p.0].wire == p.1)
  {
  }

  method CountUndeclared(pairs: set<(nat, nat)>, spec: Fields) returns (failures: nat)
    ensures failures == |Undeclared(pairs, spec)|
  {
    failures := 0;
    var rest := pairs;
    while rest != {}
      invariant rest <= pairs && failures + |Undeclared(rest, spec)| == |Undeclared(pairs, spec)|
      decreases rest
    {
      var pair :| pair in rest;
      OnePairLess(rest, pair, spec);
      rest := rest - {pair};
      if pair.0 !in spec {
        failures := failures + 1;
        continue;
      }
      if spec[pair.0].wire != pair.1 {
        failures := failures + 1;
      }
    }
  }

  lemma OnePairLess(pairs: set<(nat, nat)>, pair: (nat, nat), spec: Fields)
    requires pair in pairs
    ensures |Undeclared(pairs, spec)|
            == |Undeclared(pairs - {pair}, spec)| + if pair.0 in spec && spec[pair.0].wire == pair.1 then 0 else 1
  {
    if pair.0 in spec && spec[pair.0].wire == pair.1 {
      assert Undeclared(pairs, spec) == Undeclared(pairs - {pair}, spec);
    } else {
      assert Undeclared(pairs, spec) == Undeclared(pairs - {pair}, spec) + {pair};
    }
  }

  /** A field of a message carries the number with that wire type, any type the user defines counting as a message,
      and no later field of it has the number. */
  ghost predicate DeclaredIn(decls: seq<Decl>, number: nat, wire: nat) {
    exists i | 0 <= i < |decls| :: decls[i].number == number && ProtobufWire(decls[i], false) == wire
                                   && forall j | i < j < |decls| :: decls[j].number != number
  }

  lemma LastWithNumber(decls: seq<Decl>, number: nat) returns (i: nat)
    requires exists k | 0 <= k < |decls| :: decls[k].number == number
    ensures i < |decls| && decls[i].number == number && forall j | i < j < |decls| :: decls[j].number != number
  {
    i := |decls| - 1;
    while decls[i].number != number
      invariant i < |decls| && forall j | i < j < |decls| :: decls[j].number != number
      invariant exists k | 0 <= k <= i :: decls[k].number == number
      decreases i
    {
      i := i - 1;
    }
  }

  lemma FillDeclares(decls: seq<Decl>, number: nat, wire: nat)
    ensures DeclaredIn(decls, number, wire) <==> number in Fill(map[], decls) && Fill(map[], decls)[number].wire == wire
  {
    hide Fill, ProtobufWire;
    FillHoldsLast(map[], decls, number);
    if number in Fill(map[], decls) {
      var i := LastWithNumber(decls, number);
      assert Fill(map[], decls)[number].wire == ProtobufWire(decls[i], false);
      if DeclaredIn(decls, number, wire) {
        var k :| 0 <= k < |decls| && decls[k].number == number && ProtobufWire(decls[k], false) == wire
                 && forall j | k < j < |decls| :: decls[j].number != number;
        assert k == i;
      }
    }
  }

  /** Every pair emitted for a message is declared by the file's last outermost message of that name, and the
      encoder emits something for it. */
  ghost predicate Agrees(file: Body, encoder: map<string, seq<(nat, nat)>>, name: string) {
    && name in encoder && encoder[name] != []
    && var bodies := Bodies(file, name);
       bodies != [] && forall p | p in encoder[name] :: DeclaredIn(Direct(bodies[|bodies| - 1]), p.0, p.1)
  }

  lemma NoFailures(file: Body, encoder: map<string, seq<(nat, nat)>>, name: string)
    ensures Failures(Collect(map[], file), encoder, name) == 0 <==> Agrees(file, encoder, name)
  {
    hide Fill, Collect, DeclaredIn, Direct, Bodies;
    var messages, bodies := Collect(map[], file), Bodies(file, name);
    CollectHoldsLast(map[], file, name);
    if name in encoder && encoder[name] != [] && bodies != [] {
      var spec := messages[name];
      var pairs := set p | p in encoder[name];
      forall p | p in encoder[name]
        ensures DeclaredIn(Direct(bodies[|bodies| - 1]), p.0, p.1) <==> p !in Undeclared(pairs, spec)
      {
        FillDeclares(Direct(bodies[|bodies| - 1]), p.0, p.1);
        assert p in pairs;
      }
      assert |Undeclared(pairs, spec)| == 0 <==> Undeclared(pairs, spec) == {};
    }
  }

  /** From file to verdict: the comparison of a printed file's messages finds no failure exactly if both
      messages agree with the encoder. */
  lemma CheckIsAgreement(file: Body, encoder: map<string, seq<(nat, nat)>>)
    requires ProperFile(file)
    ensures var messages := Parse(Print(file));
            Failures(messages, encoder, "GraphDef") + Failures(messages, encoder, "NodeDef") == 0
            <==> Agrees(file, encoder, "GraphDef") && Agrees(file, encoder, "NodeDef")
  {
    hide Failures, Agrees, Parse;
    ParseOfPrint(file);
    NoFailures(file, encoder, "GraphDef");
    NoFailures(file, encoder, "NodeDef");
  }
}
