/**
 * The line-oriented parsers of internal/mermaid/parser.go: the dialect
 * detector, the ER parser (a two-state machine with an entity in progress)
 * and the sequence parser (an ordered participant list without duplicates).
 *
 * Each parser is a method with the source's loop and local state, proved equal
 * to a specification function over the input lines; the properties the
 * source promises are proved about those functions.
 *
 * Input is split on '\n' as strings.Split does; bufio.Scanner's line
 * splitting differs only by a trailing empty line and a trailing '\r' on each
 * line, both of which the parsers trim or skip.
 */
module Parser {
  import opened Options
  import opened Text
  import opened Model
  import opened Recognizers

  /** The input lines, as strings.Split(input, "\n") gives them. */
  function Lines(input: string): seq<string> {
    SplitOn(input, '\n')
  }

  // ---------------------------------------------------------------------------
  // DetectDiagramType and ParseDiagram

  /** A line that, once trimmed, opens either dialect. */
  predicate IsHeader(line: string) {
    OpensER(TrimSpace(line)) || OpensSequence(TrimSpace(line))
  }

  predicate OpensER(line: string) {
    HasPrefix(line, "erDiagram")
  }

  predicate OpensSequence(line: string) {
    HasPrefix(line, "sequenceDiagram")
  }

  /** Line i is the first header line, and it opens an ER diagram. */
  predicate ERDecidedAt(lines: seq<string>, i: int) {
    0 <= i < |lines| && OpensER(TrimSpace(lines[i]))
    && forall j :: 0 <= j < i ==> !IsHeader(lines[j])
  }

  /**
   * DetectDiagramType: the first trimmed line starting with either keyword
   * decides, erDiagram checked first; with no such line the answer is
   * Sequence.
   */
  method DetectDiagramType(input: string) returns (t: DiagramType)
    ensures t == ERDiagramType <==> exists i :: ERDecidedAt(Lines(input), i)
  {
    var lines := Lines(input);
    var i := 0;
    while i < |lines|
      invariant 0 <= i <= |lines|
      invariant forall j :: 0 <= j < i ==> !IsHeader(lines[j])
    {
      var line := TrimSpace(lines[i]);
      if OpensER(line) {
        assert ERDecidedAt(lines, i);
        return ERDiagramType;
      }
      if OpensSequence(line) {
        SequenceFirst(lines, i);
        return SequenceDiagramType;
      }
      i := i + 1;
    }
    SequenceFirst(lines, i);
    return SequenceDiagramType;
  }

  /** When a sequence header, or the end of input, comes before any ER header, no line decides ER. */
  lemma SequenceFirst(lines: seq<string>, i: nat)
    requires i <= |lines| && forall j :: 0 <= j < i ==> !IsHeader(lines[j])
    requires i < |lines| ==> OpensSequence(TrimSpace(lines[i])) && !OpensER(TrimSpace(lines[i]))
    ensures forall k :: !ERDecidedAt(lines, k)
  {
    forall k | ERDecidedAt(lines, k) ensures false {
      if k > i { assert IsHeader(lines[i]); }
      else if k < i { assert IsHeader(lines[k]); }
    }
  }

  /**
   * ParseDiagram: the detector's answer picks the parser. The source's
   * default branch cannot be reached with two diagram types.
   */
  method ParseDiagram(input: string) returns (d: Diagram)
    ensures d.GetType() == ERDiagramType <==> exists i :: ERDecidedAt(Lines(input), i)
    ensures d.EntityRelationship? ==> d.er == ERSpec(input)
    ensures d.Sequence? ==> d.sequence == SequenceSpec(input)
  {
    var diagramType := DetectDiagramType(input);
    match diagramType
    case SequenceDiagramType =>
      var sd := ParseSequenceDiagram(input);
      d := Sequence(sd);
    case ERDiagramType =>
      var erd := ParseERDiagram(input);
      d := EntityRelationship(erd);
  }

  // ---------------------------------------------------------------------------
  // ParseERDiagram

  /** The parser's state: the committed entities and relationships, and the entity in progress (inside a block). */
  datatype ERState = ERState(entities: seq<Entity>, relationships: seq<Relationship>, current: Option<Entity>)

  const ERStart := ERState([], [], None)

  /** One line of ParseERDiagram's loop. */
  function ERStep(st: ERState, rawLine: string): (r: ERState)
    ensures IsPrefix(st.entities, r.entities) && |r.entities| <= |st.entities| + 1
    ensures IsPrefix(st.relationships, r.relationships) && |r.relationships| <= |st.relationships| + 1
  {
    var line := TrimSpace(rawLine);
    if ShouldSkipLine(line) then st
    else if line == "}" && st.current.Some? then
      ERState(st.entities + [st.current.value], st.relationships, None)
    else match ParseEntityStart(line)
      case Some(e) =>
        if HasSuffix(line, "{}") then ERState(st.entities + [e], st.relationships, None)
        else ERState(st.entities, st.relationships, Some(e))
      case None =>
        if st.current.Some? then
          match ParseAttribute(line)
          case Some(a) => ERState(st.entities, st.relationships,
                                  Some(Entity(st.current.value.name, st.current.value.attributes + [a])))
          case None => st
        else
          match ParseRelationship(line)
          case Some(rel) => ERState(st.entities, st.relationships + [rel], None)
          case None => st
  }

  /** The state after the given lines. */
  function ERRun(st: ERState, lines: seq<string>): ERState
    decreases |lines|
  {
    if lines == [] then st else ERStep(ERRun(st, lines[..|lines| - 1]), lines[|lines| - 1])
  }

  /** After the last line, a block still open is committed with the attributes seen so far. */
  function ERFinish(st: ERState): (d: ERDiagram)
    ensures d.relationships == st.relationships
    ensures d.entities == st.entities + (if st.current.Some? then [st.current.value] else [])
  {
    ERDiagram(st.entities + (if st.current.Some? then [st.current.value] else []), st.relationships)
  }

  /** What ParseERDiagram returns for an input. */
  function ERSpec(input: string): ERDiagram {
    ERFinish(ERRun(ERStart, Lines(input)))
  }

  /**
   * ParseERDiagram: the loop keeps `inEntity` and the entity in progress, and
   * appends committed entities, attributes and relationships.
   */
  method ParseERDiagram(input: string) returns (d: ERDiagram)
    ensures d == ERSpec(input)
  {
    var lines := Lines(input);
    var entities: seq<Entity> := [];
    var relationships: seq<Relationship> := [];
    var currentEntity: Option<Entity> := None;
    var inEntity := false;
    var i := 0;
    while i < |lines|
      invariant 0 <= i <= |lines|
      invariant inEntity <==> currentEntity.Some?
      invariant ERRun(ERStart, lines[..i]) == ERState(entities, relationships, currentEntity)
    {
      assert lines[..i + 1][..i] == lines[..i];
      var line := TrimSpace(lines[i]);
      i := i + 1;
      if ShouldSkipLine(line) {
        continue;
      }
      if line == "}" && inEntity {
        if currentEntity.Some? {
          entities := entities + [currentEntity.value];
        }
        inEntity := false;
        currentEntity := None;
        continue;
      }
      var entity := ParseEntityStart(line);
      if entity.Some? {
        currentEntity := entity;
        inEntity := true;
        if HasSuffix(line, "{}") {
          entities := entities + [currentEntity.value];
          inEntity := false;
          currentEntity := None;
        }
        continue;
      }
      if inEntity && currentEntity.Some? {
        var attr := ParseAttribute(line);
        if attr.Some? {
          currentEntity := Some(Entity(currentEntity.value.name, currentEntity.value.attributes + [attr.value]));
        }
        continue;
      }
      var rel := ParseRelationship(line);
      if rel.Some? {
        relationships := relationships + [rel.value];
      }
    }
    assert lines[..|lines|] == lines;
    if inEntity && currentEntity.Some? {
      entities := entities + [currentEntity.value];
    }
    d := ERDiagram(entities, relationships);
  }

  /** Running two stretches of lines is running the first, then the second. */
  lemma {:induction false} ERRunAppend(st: ERState, a: seq<string>, b: seq<string>)
    ensures ERRun(st, a + b) == ERRun(ERRun(st, a), b)
    decreases |b|
  {
    if b == [] {
      assert a + b == a;
    } else {
      assert (a + b)[..|a + b| - 1] == a + b[..|b| - 1];
      ERRunAppend(st, a, b[..|b| - 1]);
    }
  }

  /** Committed entities and relationships are never removed or reordered: later lines only append. */
  lemma {:induction false} ERRunAppendOnly(st: ERState, lines: seq<string>)
    ensures IsPrefix(st.entities, ERRun(st, lines).entities)
    ensures IsPrefix(st.relationships, ERRun(st, lines).relationships)
    decreases |lines|
  {
    if lines != [] {
      var mid := ERRun(st, lines[..|lines| - 1]);
      ERRunAppendOnly(st, lines[..|lines| - 1]);
      var r := ERStep(mid, lines[|lines| - 1]);
      PrefixTrans(st.entities, mid.entities, r.entities);
      PrefixTrans(st.relationships, mid.relationships, r.relationships);
    }
  }

  ghost predicate IsPrefix<T>(a: seq<T>, b: seq<T>) {
    |a| <= |b| && b[..|a|] == a
  }

  lemma PrefixTrans<T>(a: seq<T>, b: seq<T>, c: seq<T>)
    requires IsPrefix(a, b) && IsPrefix(b, c)
    ensures IsPrefix(a, c)
  {
    assert c[..|a|] == c[..|b|][..|a|];
  }

  lemma CloseIsNoEntityStart()
    ensures ParseEntityStart("}").None?
  {
    var t := "}";
    assert SpaceLen(t) == 0;
    assert WordLen(t) == 0;
  }

  /** A line that opens a block for the entity `name` (and does not close it on the same line). */
  predicate OpensBlock(line: string, name: string) {
    var t := TrimSpace(line);
    !ShouldSkipLine(t) && ParseEntityStart(t) == Some(Entity(name, [])) && !HasSuffix(t, "{}")
  }

  /** A line inside a block that neither closes it nor opens another one. */
  predicate InBlockLine(line: string) {
    var t := TrimSpace(line);
    ShouldSkipLine(t) || (t != "}" && ParseEntityStart(t).None?)
  }

  /** Every line of a stretch is an InBlockLine. */
  predicate AllInBlock(lines: seq<string>)
    decreases |lines|
  {
    lines == [] || (AllInBlock(lines[..|lines| - 1]) && InBlockLine(lines[|lines| - 1]))
  }

  /** The attribute a line inside a block contributes, if any. */
  function LineAttribute(line: string): Option<Attribute> {
    var t := TrimSpace(line);
    if ShouldSkipLine(t) then None else ParseAttribute(t)
  }

  /** The attribute of a line as a list of zero or one element. */
  function LineAttributes(line: string): (r: seq<Attribute>)
    ensures |r| <= 1
  {
    match LineAttribute(line) case Some(a) => [a] case None => []
  }

  /** The attributes a stretch of lines inside a block contributes, in order. */
  function BlockAttributes(lines: seq<string>): seq<Attribute>
    decreases |lines|
  {
    if lines == [] then [] else BlockAttributes(lines[..|lines| - 1]) + LineAttributes(lines[|lines| - 1])
  }

  /** One line inside a block: its attribute, if any, is added to the entity in progress. */
  lemma InBlockStep(st: ERState, line: string)
    requires st.current.Some? && InBlockLine(line)
    ensures ERStep(st, line) == ERState(st.entities, st.relationships,
      Some(Entity(st.current.value.name, st.current.value.attributes + LineAttributes(line))))
  {
    var e := st.current.value;
    AppendEmpty2(e.attributes);
    assert st == ERState(st.entities, st.relationships, Some(Entity(e.name, e.attributes)));
  }

  /**
   * Inside a block, each attribute line adds its attribute to the entity in
   * progress and nothing else changes: in particular, relationship lines are
   * not parsed and add no relationship.
   */
  lemma {:induction false} InsideBlock(st: ERState, body: seq<string>)
    requires st.current.Some?
    requires AllInBlock(body)
    ensures ERRun(st, body) == ERState(st.entities, st.relationships,
      Some(Entity(st.current.value.name, st.current.value.attributes + BlockAttributes(body))))
    decreases |body|
  {
    var e := st.current.value;
    if body == [] {
      assert e.attributes + [] == e.attributes;
    } else {
      InsideBlock(st, body[..|body| - 1]);
      InsideBlockStep(st, body);
    }
  }

  /** The induction step of InsideBlock: one more line inside the block. */
  lemma InsideBlockStep(st: ERState, body: seq<string>)
    requires st.current.Some? && body != [] && InBlockLine(body[|body| - 1])
    requires ERRun(st, body[..|body| - 1]) == ERState(st.entities, st.relationships,
      Some(Entity(st.current.value.name, st.current.value.attributes + BlockAttributes(body[..|body| - 1]))))
    ensures ERRun(st, body) == ERState(st.entities, st.relationships,
      Some(Entity(st.current.value.name, st.current.value.attributes + BlockAttributes(body))))
  {
    var e := st.current.value;
    var init, line := body[..|body| - 1], body[|body| - 1];
    InBlockStep(ERRun(st, init), line);
    AppendAssoc(e.attributes, BlockAttributes(init), LineAttributes(line));
  }

  lemma ERRunSnoc(st: ERState, init: seq<string>, line: string)
    ensures ERRun(st, init + [line]) == ERStep(ERRun(st, init), line)
  {
    assert (init + [line])[..|init|] == init;
  }

  lemma BlockAttributesSnoc(init: seq<string>, line: string)
    ensures BlockAttributes(init + [line]) == BlockAttributes(init) + LineAttributes(line)
  {
    assert (init + [line])[..|init|] == init;
  }

  /** Outside a block, a line that opens one starts the entity in progress and commits nothing. */
  lemma OpenStep(st: ERState, line: string, name: string)
    requires OpensBlock(line, name)
    ensures ERStep(st, line) == ERState(st.entities, st.relationships, Some(Entity(name, [])))
  {
    CloseIsNoEntityStart();
  }

  /** After the opening line and lines inside the block, the entity in progress holds the block's attributes. */
  lemma OpenedBlock(st: ERState, openLine: string, name: string, body: seq<string>)
    requires OpensBlock(openLine, name) && AllInBlock(body)
    ensures ERRun(st, [openLine] + body)
         == ERState(st.entities, st.relationships, Some(Entity(name, BlockAttributes(body))))
  {
    OpenStep(st, openLine, name);
    var started := ERStep(st, openLine);
    ERRunSnoc(st, [], openLine);
    assert [] + [openLine] == [openLine];
    ERRunAppend(st, [openLine], body);
    InsideBlock(started, body);
    AppendEmpty(BlockAttributes(body));
  }

  lemma AppendEmpty<T>(a: seq<T>)
    ensures [] + a == a
  {
  }

  lemma AppendEmpty2<T>(a: seq<T>)
    ensures a + [] == a
  {
  }

  /** `}` inside a block commits the entity in progress. */
  lemma CloseStep(st: ERState, close: string)
    requires st.current.Some? && TrimSpace(close) == "}"
    ensures ERStep(st, close) == ERState(st.entities + [st.current.value], st.relationships, None)
  {
    assert !HasPrefix("}", "%%");
  }

  /**
   * An entity block from an outside state: `NAME {`, lines inside the block and
   * `}` commit exactly one entity, whose attributes are those of the block in
   * order.
   */
  lemma EntityBlock(st: ERState, openLine: string, name: string, body: seq<string>, close: string)
    requires OpensBlock(openLine, name) && TrimSpace(close) == "}"
    requires AllInBlock(body)
    ensures ERRun(st, [openLine] + body + [close])
         == ERState(st.entities + [Entity(name, BlockAttributes(body))], st.relationships, None)
  {
    OpenedBlock(st, openLine, name, body);
    ERRunSnoc(st, [openLine] + body, close);
    CloseStep(ERRun(st, [openLine] + body), close);
  }

  /** A block still open at the end of input is committed with the attributes seen so far. */
  lemma UnterminatedBlock(st: ERState, openLine: string, name: string, body: seq<string>)
    requires OpensBlock(openLine, name) && AllInBlock(body)
    ensures ERFinish(ERRun(st, [openLine] + body))
         == ERDiagram(st.entities + [Entity(name, BlockAttributes(body))], st.relationships)
  {
    OpenedBlock(st, openLine, name, body);
  }

  /** `NAME {}` commits an entity with no attributes at once, outside or inside a block. */
  lemma EmptyEntityLine(st: ERState, line: string, name: string)
    requires !ShouldSkipLine(TrimSpace(line)) && ParseEntityStart(TrimSpace(line)) == Some(Entity(name, []))
    requires HasSuffix(TrimSpace(line), "{}")
    ensures ERStep(st, line) == ERState(st.entities + [Entity(name, [])], st.relationships, None)
  {
    CloseIsNoEntityStart();
  }

  /**
   * A line that opens a block while another is in progress replaces the
   * entity in progress, which is dropped without being committed.
   */
  lemma NestedStartReplaces(st: ERState, line: string, name: string)
    requires st.current.Some? && OpensBlock(line, name)
    ensures ERStep(st, line) == ERState(st.entities, st.relationships, Some(Entity(name, [])))
    ensures ERFinish(ERStep(st, line)).entities == st.entities + [Entity(name, [])]
  {
    OpenStep(st, line, name);
  }

  /** Outside a block, a relationship line that is not an entity start appends its relationship. */
  lemma RelationshipOutside(st: ERState, line: string, r: Relationship)
    requires st.current.None?
    requires var t := TrimSpace(line); !ShouldSkipLine(t) && ParseEntityStart(t).None? && ParseRelationship(t) == Some(r)
    ensures ERStep(st, line) == ERState(st.entities, st.relationships + [r], None)
  {
  }

  /** Blank, `%%` comment and `erDiagram` header lines leave the state as it is, inside a block too. */
  lemma ERSkippedLines(st: ERState, rawLine: string)
    requires var t := TrimSpace(rawLine); t == [] || HasPrefix(t, "%%") || HasPrefix(t, "erDiagram")
    ensures ERStep(st, rawLine) == st
  {
  }

  // ---------------------------------------------------------------------------
  // ParseSequenceDiagram and ensureParticipantsExist

  /** How ParseSequenceDiagram's loop treats one line. */
  datatype SequenceLine =
    | Skipped                       // blank, `%%` comment or `sequenceDiagram` header
    | Declaration(p: Participant)   // a `participant` line
    | MessageLine(m: Message)       // a message line
    | Ignored                       // anything else: activate, deactivate, notes, unrecognised text

  /** The branch of the loop a line takes: participant lines are tried before messages. */
  function ClassifySequenceLine(rawLine: string): SequenceLine {
    var t := TrimSpace(rawLine);
    if ShouldSkipSequenceLine(t) then Skipped
    else match ParseParticipant(t)
      case Some(p) => Declaration(p)
      case None =>
        match ParseMessage(t)
        case Some(m) => MessageLine(m)
        case None => Ignored
  }

  /** The classified lines of an input. */
  function Classify(lines: seq<string>): (r: seq<SequenceLine>)
    ensures |r| == |lines|
  {
    seq(|lines|, i requires 0 <= i < |lines| => ClassifySequenceLine(lines[i]))
  }

  lemma ClassifyAt(lines: seq<string>, i: nat)
    requires i < |lines|
    ensures Classify(lines)[i] == ClassifySequenceLine(lines[i])
  {
  }

  /** The participant a message endpoint creates when it is first used: its alias is its name. */
  function Endpoint(name: string): Participant {
    Participant(name, name)
  }

  /**
   * The participants a line mentions, in order: the declared one, or the two
   * endpoints of a message (`from` before `to`).
   */
  function LineMentions(k: SequenceLine): (r: seq<Participant>)
    ensures |r| <= 2
  {
    match k
    case Declaration(p) => [p]
    case MessageLine(m) => [Endpoint(m.from), Endpoint(m.to)]
    case _ => []
  }

  /** The messages of a line: zero or one. */
  function LineMessages(k: SequenceLine): (r: seq<Message>)
    ensures |r| <= 1
  {
    if k.MessageLine? then [k.m] else []
  }

  /** Every participant mention of the given lines, in order of appearance. */
  function Mentions(ks: seq<SequenceLine>): seq<Participant>
    decreases |ks|
  {
    if ks == [] then [] else Mentions(ks[..|ks| - 1]) + LineMentions(ks[|ks| - 1])
  }

  /** The recognised message lines, in input order. */
  function MessagesOf(ks: seq<SequenceLine>): seq<Message>
    decreases |ks|
  {
    if ks == [] then [] else MessagesOf(ks[..|ks| - 1]) + LineMessages(ks[|ks| - 1])
  }

  ghost function Names(ps: seq<Participant>): set<string> {
    set p | p in ps :: p.name
  }

  /** Participant names are pairwise distinct. */
  ghost predicate Distinct(ps: seq<Participant>) {
    forall i, j :: 0 <= i < j < |ps| ==> ps[i].name != ps[j].name
  }

  /** Appends a participant unless its name is already present. */
  function Register(ps: seq<Participant>, p: Participant): seq<Participant> {
    if exists q :: q in ps && q.name == p.name then ps else ps + [p]
  }

  /** Registers the mentions one after the other. */
  function Extend(ps: seq<Participant>, ms: seq<Participant>): seq<Participant>
    decreases |ms|
  {
    if ms == [] then ps else Register(Extend(ps, ms[..|ms| - 1]), ms[|ms| - 1])
  }

  /** The participant list a sequence of mentions produces: one per name, at its first mention. */
  function FirstMentions(ms: seq<Participant>): seq<Participant> {
    Extend([], ms)
  }

  /** What ParseSequenceDiagram returns for an input. */
  function SequenceSpec(input: string): SequenceDiagram {
    var ks := Classify(Lines(input));
    SequenceDiagram(FirstMentions(Mentions(ks)), MessagesOf(ks))
  }

  lemma NamesSnoc(ps: seq<Participant>, p: Participant)
    ensures Names(ps + [p]) == Names(ps) + {p.name}
  {
    assert forall q :: q in ps + [p] <==> q in ps || q == p;
  }

  lemma NamesMember(ps: seq<Participant>, n: string)
    ensures n in Names(ps) <==> exists q :: q in ps && q.name == n
  {
  }

  /** Registering keeps the names distinct, adds the new name, and only ever appends. */
  lemma RegisterFacts(ps: seq<Participant>, p: Participant)
    requires Distinct(ps)
    ensures var r := Register(ps, p);
      Distinct(r) && Names(r) == Names(ps) + {p.name} && IsPrefix(ps, r)
      && (r == ps <==> p.name in Names(ps)) && (r != ps ==> r == ps + [p])
  {
    NamesMember(ps, p.name);
    var r := Register(ps, p);
    if p.name in Names(ps) {
      assert Names(ps) + {p.name} == Names(ps);
      assert r[..|ps|] == ps;
    } else {
      NamesSnoc(ps, p);
      assert r[..|ps|] == ps;
      forall i, j | 0 <= i < j < |r| ensures r[i].name != r[j].name {
        if j == |ps| {
          assert r[i] in ps;
        }
      }
    }
  }

  /** Extending by two stretches of mentions is extending by the first, then the second. */
  lemma {:induction false} ExtendAppend(ps: seq<Participant>, a: seq<Participant>, b: seq<Participant>)
    ensures Extend(ps, a + b) == Extend(Extend(ps, a), b)
    decreases |b|
  {
    if b == [] {
      assert a + b == a;
    } else {
      assert (a + b)[..|a + b| - 1] == a + b[..|b| - 1];
      ExtendAppend(ps, a, b[..|b| - 1]);
    }
  }

  /**
   * Extending a list of distinct names keeps them distinct, gains exactly the
   * mentioned names, keeps the list as a prefix, and adds only mentioned
   * participants.
   */
  lemma {:induction false} ExtendFacts(ps: seq<Participant>, ms: seq<Participant>)
    requires Distinct(ps)
    ensures var r := Extend(ps, ms);
      Distinct(r) && Names(r) == Names(ps) + Names(ms) && IsPrefix(ps, r)
      && forall q :: q in r ==> q in ps || q in ms
    decreases |ms|
  {
    if ms == [] {
      PrefixRefl(ps);
    } else {
      ExtendFacts(ps, ms[..|ms| - 1]);
      ExtendStep(ps, ms);
    }
  }

  /** The induction step of ExtendFacts. */
  lemma ExtendStep(ps: seq<Participant>, ms: seq<Participant>)
    requires Distinct(ps) && ms != []
    requires var r := Extend(ps, ms[..|ms| - 1]);
      Distinct(r) && Names(r) == Names(ps) + Names(ms[..|ms| - 1]) && IsPrefix(ps, r)
      && forall q :: q in r ==> q in ps || q in ms[..|ms| - 1]
    ensures var r := Extend(ps, ms);
      Distinct(r) && Names(r) == Names(ps) + Names(ms) && IsPrefix(ps, r)
      && forall q :: q in r ==> q in ps || q in ms
  {
    var init, m := ms[..|ms| - 1], ms[|ms| - 1];
    var mid := Extend(ps, init);
    RegisterFacts(mid, m);
    PrefixTrans(ps, mid, Register(mid, m));
    NamesLast(ms);
  }

  /** The names and members of a non-empty list, split at its last element. */
  lemma NamesLast(ms: seq<Participant>)
    requires ms != []
    ensures Names(ms) == Names(ms[..|ms| - 1]) + {ms[|ms| - 1].name}
    ensures forall q :: q in ms <==> q in ms[..|ms| - 1] || q == ms[|ms| - 1]
  {
    LastSplit(ms);
    NamesSnoc(ms[..|ms| - 1], ms[|ms| - 1]);
  }

  lemma PrefixRefl<T>(a: seq<T>)
    ensures IsPrefix(a, a)
  {
    assert a[..|a|] == a;
  }

  lemma LastSplit<T>(s: seq<T>)
    requires s != []
    ensures s[..|s| - 1] + [s[|s| - 1]] == s
  {
  }

  /** The position of the first mention of a name. */
  ghost function FirstIndex(ms: seq<Participant>, n: string): (k: nat)
    requires n in Names(ms)
    ensures k < |ms| && ms[k].name == n && forall j :: 0 <= j < k ==> ms[j].name != n
    decreases |ms|
  {
    if ms[0].name == n then 0
    else
      var q :| q in ms && q.name == n;
      assert q in ms[1..] by { assert ms == [ms[0]] + ms[1..]; }
      1 + FirstIndex(ms[1..], n)
  }

  /** FirstIndex is the only position holding the first mention of its name. */
  lemma FirstIndexUnique(ms: seq<Participant>, n: string, k: nat)
    requires k < |ms| && ms[k].name == n && forall j :: 0 <= j < k ==> ms[j].name != n
    ensures n in Names(ms) && FirstIndex(ms, n) == k
  {
    assert ms[k] in ms;
  }

  /**
   * r lists, once each, the first mention of every name it holds, in the
   * order of those first mentions.
   */
  ghost predicate FirstMentionsOf(ms: seq<Participant>, r: seq<Participant>) {
    && (forall i :: 0 <= i < |r| ==> r[i].name in Names(ms) && r[i] == ms[FirstIndex(ms, r[i].name)])
    && (forall i, j :: 0 <= i < j < |r| ==> FirstIndex(ms, r[i].name) < FirstIndex(ms, r[j].name))
  }

  /**
   * The participant list keeps, for each name, the participant of its first
   * mention (a repeated declaration or a later endpoint is ignored), in
   * order of first mention, and it holds every mentioned name exactly once.
   */
  lemma {:induction false} FirstMentionsSpec(ms: seq<Participant>)
    ensures var r := FirstMentions(ms);
      FirstMentionsOf(ms, r) && Distinct(r) && Names(r) == Names(ms)
    decreases |ms|
  {
    ExtendFacts([], ms);
    assert Names([]) == {};
    if ms != [] {
      FirstMentionsSpec(ms[..|ms| - 1]);
      FirstMentionsStep(ms);
    }
  }

  /** The induction step of FirstMentionsSpec. */
  lemma FirstMentionsStep(ms: seq<Participant>)
    requires ms != []
    requires var r := FirstMentions(ms[..|ms| - 1]);
      FirstMentionsOf(ms[..|ms| - 1], r) && Distinct(r) && Names(r) == Names(ms[..|ms| - 1])
    ensures FirstMentionsOf(ms, FirstMentions(ms))
  {
    var init, m := ms[..|ms| - 1], ms[|ms| - 1];
    var r0 := FirstMentions(init);
    assert FirstMentions(ms) == Register(r0, m);
    RegisterFacts(r0, m);
    KeptMentions(ms, r0);
    if m.name !in Names(r0) {
      NewMention(ms, r0);
    }
  }

  /** Earlier first mentions stay first mentions when a mention is appended. */
  lemma KeptMentions(ms: seq<Participant>, r0: seq<Participant>)
    requires ms != [] && FirstMentionsOf(ms[..|ms| - 1], r0)
    ensures FirstMentionsOf(ms, r0)
    ensures forall i :: 0 <= i < |r0| ==> FirstIndex(ms, r0[i].name) < |ms| - 1
  {
    var init := ms[..|ms| - 1];
    forall i | 0 <= i < |r0|
      ensures r0[i].name in Names(ms) && FirstIndex(ms, r0[i].name) == FirstIndex(init, r0[i].name)
    {
      FirstIndexPrefix(ms, r0[i].name);
    }
  }

  lemma FirstIndexPrefix(ms: seq<Participant>, n: string)
    requires ms != [] && n in Names(ms[..|ms| - 1])
    ensures n in Names(ms) && FirstIndex(ms, n) == FirstIndex(ms[..|ms| - 1], n)
  {
    var init := ms[..|ms| - 1];
    FirstIndexUnique(ms, n, FirstIndex(init, n));
  }

  /** A mention of a new name becomes the last first mention. */
  lemma NewMention(ms: seq<Participant>, r0: seq<Participant>)
    requires ms != [] && FirstMentionsOf(ms, r0)
    requires forall i :: 0 <= i < |r0| ==> FirstIndex(ms, r0[i].name) < |ms| - 1
    requires ms[|ms| - 1].name !in Names(ms[..|ms| - 1])
    ensures FirstMentionsOf(ms, r0 + [ms[|ms| - 1]])
  {
    var init, m := ms[..|ms| - 1], ms[|ms| - 1];
    NewNameFirst(ms);
    var r := r0 + [m];
    NewMentionMembers(ms, r0, r);
    NewMentionOrder(ms, r0, r);
  }

  lemma NewNameFirst(ms: seq<Participant>)
    requires ms != [] && ms[|ms| - 1].name !in Names(ms[..|ms| - 1])
    ensures ms[|ms| - 1].name in Names(ms) && FirstIndex(ms, ms[|ms| - 1].name) == |ms| - 1
  {
    var init, m := ms[..|ms| - 1], ms[|ms| - 1];
    forall j | 0 <= j < |init| ensures ms[j].name != m.name {
      assert init[j] in init;
    }
    FirstIndexUnique(ms, m.name, |init|);
  }

  lemma NewMentionMembers(ms: seq<Participant>, r0: seq<Participant>, r: seq<Participant>)
    requires ms != [] && r == r0 + [ms[|ms| - 1]]
    requires forall i :: 0 <= i < |r0| ==> r0[i].name in Names(ms) && r0[i] == ms[FirstIndex(ms, r0[i].name)]
    requires ms[|ms| - 1].name in Names(ms) && FirstIndex(ms, ms[|ms| - 1].name) == |ms| - 1
    ensures forall i :: 0 <= i < |r| ==> r[i].name in Names(ms) && r[i] == ms[FirstIndex(ms, r[i].name)]
  {
    forall i | 0 <= i < |r|
      ensures r[i].name in Names(ms) && r[i] == ms[FirstIndex(ms, r[i].name)]
    {
      if i < |r0| { assert r[i] == r0[i]; }
    }
  }

  lemma NewMentionOrder(ms: seq<Participant>, r0: seq<Participant>, r: seq<Participant>)
    requires ms != [] && r == r0 + [ms[|ms| - 1]]
    requires forall i :: 0 <= i < |r| ==> r[i].name in Names(ms)
    requires forall i :: 0 <= i < |r0| ==> r0[i].name in Names(ms)
    requires ms[|ms| - 1].name in Names(ms)
    requires forall i, j :: 0 <= i < j < |r0| ==> FirstIndex(ms, r0[i].name) < FirstIndex(ms, r0[j].name)
    requires forall i :: 0 <= i < |r0| ==> FirstIndex(ms, r0[i].name) < |ms| - 1
    requires FirstIndex(ms, ms[|ms| - 1].name) == |ms| - 1
    ensures forall i, j :: 0 <= i < j < |r| ==> FirstIndex(ms, r[i].name) < FirstIndex(ms, r[j].name)
  {
    forall i, j | 0 <= i < j < |r|
      ensures FirstIndex(ms, r[i].name) < FirstIndex(ms, r[j].name)
    {
      assert r[i] == r0[i];
      if j < |r0| {
        assert r[j] == r0[j];
      } else {
        assert r[j] == ms[|ms| - 1];
      }
    }
  }

  /**
   * Every mention is either a declaration from some `participant` line or a
   * message endpoint, whose alias is its name.
   */
  lemma {:induction false} MentionsOrigin(ks: seq<SequenceLine>)
    ensures forall p :: p in Mentions(ks) ==> Origin(ks, p)
    decreases |ks|
  {
    if ks != [] {
      var init, last := ks[..|ks| - 1], ks[|ks| - 1];
      MentionsOrigin(init);
      forall p | p in Mentions(ks) ensures Origin(ks, p) {
        if p in Mentions(init) {
          OriginGrows(ks, p);
        } else if p.alias != p.name {
          assert ks[|ks| - 1] == Declaration(p);
        }
      }
    }
  }

  /** A participant whose alias is its name, or one some line declares. */
  ghost predicate Origin(ks: seq<SequenceLine>, p: Participant) {
    p.alias == p.name || exists k :: 0 <= k < |ks| && ks[k] == Declaration(p)
  }

  lemma OriginGrows(ks: seq<SequenceLine>, p: Participant)
    requires ks != [] && Origin(ks[..|ks| - 1], p)
    ensures Origin(ks, p)
  {
    var init := ks[..|ks| - 1];
    if p.alias != p.name {
      var k :| 0 <= k < |init| && init[k] == Declaration(p);
      assert ks[k] == init[k];
    }
  }

  /**
   * A participant whose alias differs from its name was declared by a
   * `participant` line: participants created as message endpoints have
   * alias = name.
   */
  lemma SynthesizedAlias(input: string)
    ensures var lines := Lines(input);
      forall p :: p in SequenceSpec(input).participants ==>
        p.alias == p.name || exists k :: 0 <= k < |lines| && ClassifySequenceLine(lines[k]) == Declaration(p)
  {
    var lines := Lines(input);
    var ks := Classify(lines);
    ExtendFacts([], Mentions(ks));
    MentionsOrigin(ks);
    forall p | p in SequenceSpec(input).participants
      ensures p.alias == p.name || exists k :: 0 <= k < |lines| && ClassifySequenceLine(lines[k]) == Declaration(p)
    {
      assert Origin(ks, p);
      if p.alias != p.name {
        var k :| 0 <= k < |ks| && ks[k] == Declaration(p);
        assert ClassifySequenceLine(lines[k]) == Declaration(p);
      }
    }
  }

  /**
   * The properties of the participant list, on whole inputs: names are
   * pairwise distinct, every mentioned name is present, and each participant
   * is the first mention of its name, in order of first mention.
   */
  lemma SequenceParticipants(input: string)
    ensures var ms := Mentions(Classify(Lines(input)));
      var ps := SequenceSpec(input).participants;
      Distinct(ps) && Names(ps) == Names(ms) && FirstMentionsOf(ms, ps)
  {
    FirstMentionsSpec(Mentions(Classify(Lines(input))));
  }

  lemma ClassifySnoc(lines: seq<string>, i: nat)
    requires i < |lines|
    ensures Classify(lines[..i + 1]) == Classify(lines[..i]) + [ClassifySequenceLine(lines[i])]
  {
    var a, b := Classify(lines[..i + 1]), Classify(lines[..i]);
    forall j | 0 <= j < |a| ensures a[j] == (b + [ClassifySequenceLine(lines[i])])[j] {
      ClassifyAt(lines[..i + 1], j);
      if j < i { ClassifyAt(lines[..i], j); }
    }
  }

  /** The state after one more line: the line's mentions are registered and its message appended. */
  lemma SequenceSnoc(ks: seq<SequenceLine>, k: SequenceLine)
    ensures FirstMentions(Mentions(ks + [k])) == Extend(FirstMentions(Mentions(ks)), LineMentions(k))
    ensures MessagesOf(ks + [k]) == MessagesOf(ks) + LineMessages(k)
  {
    assert (ks + [k])[..|ks|] == ks;
    ExtendAppend([], Mentions(ks), LineMentions(k));
  }

  /** The endpoint participants a message creates for the given names. */
  function Endpoints(names: seq<string>): (r: seq<Participant>)
    ensures |r| == |names| && forall i :: 0 <= i < |names| ==> r[i] == Endpoint(names[i])
  {
    seq(|names|, i requires 0 <= i < |names| => Endpoint(names[i]))
  }

  /**
   * ensureParticipantsExist: each name not yet known is appended as a
   * participant whose alias is its name, and becomes known. The name set
   * stands for the source's map[string]bool, whose values are only ever true.
   */
  method EnsureParticipantsExist(participants: seq<Participant>, known: set<string>, names: seq<string>)
    returns (ps: seq<Participant>, kn: set<string>)
    requires known == Names(participants)
    ensures ps == Extend(participants, Endpoints(names)) && kn == Names(ps)
  {
    ps, kn := participants, known;
    var i := 0;
    while i < |names|
      invariant 0 <= i <= |names|
      invariant ps == Extend(participants, Endpoints(names[..i])) && kn == Names(ps)
    {
      var p := names[i];
      assert Endpoints(names[..i + 1])[..i] == Endpoints(names[..i]);
      NamesMember(ps, p);
      if p !in kn {
        NamesSnoc(ps, Endpoint(p));
        ps := ps + [Endpoint(p)];
        kn := kn + {p};
      }
      i := i + 1;
    }
    assert names[..i] == names;
  }

  /**
   * ParseSequenceDiagram: participants are registered by name in a set
   * standing for the source's map[string]bool; messages are appended in input
   * order.
   */
  method ParseSequenceDiagram(input: string) returns (d: SequenceDiagram)
    ensures d == SequenceSpec(input)
  {
    var lines := Lines(input);
    var participants: seq<Participant> := [];
    var messages: seq<Message> := [];
    var participantMap: set<string> := {};
    var i := 0;
    while i < |lines|
      invariant 0 <= i <= |lines|
      invariant participants == FirstMentions(Mentions(Classify(lines[..i])))
      invariant messages == MessagesOf(Classify(lines[..i]))
      invariant participantMap == Names(participants)
    {
      SequencePrefixStep(lines, i);
      participants, messages, participantMap := SequenceLineStep(lines[i], participants, messages, participantMap);
      i := i + 1;
    }
    SequenceAllLines(lines, i);
    d := SequenceDiagram(participants, messages);
  }

  /** One more line of the input: its mentions are registered and its message appended. */
  lemma SequencePrefixStep(lines: seq<string>, i: nat)
    requires i < |lines|
    ensures var k := ClassifySequenceLine(lines[i]);
      && FirstMentions(Mentions(Classify(lines[..i + 1])))
         == Extend(FirstMentions(Mentions(Classify(lines[..i]))), LineMentions(k))
      && MessagesOf(Classify(lines[..i + 1])) == MessagesOf(Classify(lines[..i])) + LineMessages(k)
  {
    ClassifySnoc(lines, i);
    SequenceSnoc(Classify(lines[..i]), ClassifySequenceLine(lines[i]));
  }

  lemma SequenceAllLines(lines: seq<string>, i: nat)
    requires i == |lines|
    ensures Classify(lines[..i]) == Classify(lines)
  {
    assert lines[..i] == lines;
  }

  /**
   * One pass of the ParseSequenceDiagram loop: the line's mentions are
   * registered and its message, if any, appended. Each `return` stands for
   * the loop's `continue`.
   */
  method SequenceLineStep(rawLine: string, participants: seq<Participant>, messages: seq<Message>,
                          participantMap: set<string>)
    returns (ps: seq<Participant>, ms: seq<Message>, known: set<string>)
    requires participantMap == Names(participants)
    ensures ps == Extend(participants, LineMentions(ClassifySequenceLine(rawLine)))
    ensures ms == messages + LineMessages(ClassifySequenceLine(rawLine))
    ensures known == Names(ps)
  {
    ghost var k := ClassifySequenceLine(rawLine);
    ps, ms, known := participants, messages, participantMap;
    var line := TrimSpace(rawLine);
    if ShouldSkipSequenceLine(line) {
      QuietLine(participants, k);
      AppendEmpty2(messages);
      return;
    }
    var participant := ParseParticipant(line);
    if participant.Some? {
      NamesMember(participants, participant.value.name);
      DeclarationLine(participants, participant.value);
      AppendEmpty2(messages);
      if participant.value.name !in participantMap {
        NamesSnoc(participants, participant.value);
        ps := participants + [participant.value];
        known := participantMap + {participant.value.name};
      }
      return;
    }
    var message := ParseMessage(line);
    if message.Some? {
      MessageLineMentions(participants, message.value);
      ps, known := EnsureParticipantsExist(participants, participantMap, [message.value.from, message.value.to]);
      ms := messages + [message.value];
      return;
    }
    // activate and deactivate lines are recognised and have no effect
    QuietLine(participants, k);
    AppendEmpty2(messages);
  }

  /** A skipped or ignored line changes nothing. */
  lemma QuietLine(ps: seq<Participant>, k: SequenceLine)
    requires k == Skipped || k == Ignored
    ensures Extend(ps, LineMentions(k)) == ps && LineMessages(k) == []
  {
  }

  lemma DeclarationLine(ps: seq<Participant>, p: Participant)
    ensures Extend(ps, LineMentions(Declaration(p))) == Register(ps, p)
    ensures LineMessages(Declaration(p)) == []
  {
    assert [p][..0] == [];
  }

  lemma MessageLineMentions(ps: seq<Participant>, m: Message)
    ensures LineMentions(MessageLine(m)) == Endpoints([m.from, m.to])
    ensures LineMessages(MessageLine(m)) == [m]
  {
  }

  /** The messages are exactly the message lines; `SequenceSnoc` gives their order. */
  lemma {:induction false} MessagesAreMessageLines(ks: seq<SequenceLine>)
    ensures |MessagesOf(ks)| <= |ks|
    ensures forall m :: m in MessagesOf(ks) <==> exists k :: 0 <= k < |ks| && ks[k] == MessageLine(m)
    decreases |ks|
  {
    if ks != [] {
      var init := ks[..|ks| - 1];
      MessagesAreMessageLines(init);
      forall m ensures m in MessagesOf(ks) <==> exists k :: 0 <= k < |ks| && ks[k] == MessageLine(m) {
        if m in MessagesOf(init) {
          var k :| 0 <= k < |init| && init[k] == MessageLine(m);
          assert ks[k] == init[k];
        }
        if j :| 0 <= j < |ks| && ks[j] == MessageLine(m) {
          if j < |init| {
            assert init[j] == ks[j];
          }
        }
      }
    }
  }

  /** Both endpoints of every message are among the mentions, so they become participants. */
  lemma {:induction false} MessageEndpointsMentioned(ks: seq<SequenceLine>)
    ensures forall m :: m in MessagesOf(ks) ==> Endpoint(m.from) in Mentions(ks) && Endpoint(m.to) in Mentions(ks)
    decreases |ks|
  {
    if ks != [] {
      var init, last := ks[..|ks| - 1], ks[|ks| - 1];
      MessageEndpointsMentioned(init);
      forall m | m in MessagesOf(ks)
        ensures Endpoint(m.from) in Mentions(ks) && Endpoint(m.to) in Mentions(ks)
      {
        if m !in MessagesOf(init) {
          assert last == MessageLine(m);
        }
      }
    }
  }

  /** Lines that are neither declarations nor messages add nothing: no participant and no message. */
  lemma {:induction false} QuietLines(ks: seq<SequenceLine>, extra: seq<SequenceLine>)
    requires forall k :: 0 <= k < |extra| ==> extra[k] == Skipped || extra[k] == Ignored
    ensures SequenceOf(ks + extra) == SequenceOf(ks)
    decreases |extra|
  {
    if extra == [] {
      AppendEmpty2(ks);
    } else {
      var init, last := extra[..|extra| - 1], extra[|extra| - 1];
      QuietLines(ks, init);
      LastSplit(extra);
      AppendAssoc(ks, init, [last]);
      SequenceSnoc(ks + init, last);
      QuietLine(FirstMentions(Mentions(ks + init)), last);
    }
  }

  /** The participants and messages of classified lines. */
  function SequenceOf(ks: seq<SequenceLine>): SequenceDiagram {
    SequenceDiagram(FirstMentions(Mentions(ks)), MessagesOf(ks))
  }

  /**
   * A line made of a word, whitespace and more text starting with a word
   * character is not a message: after the first word the pattern needs an
   * arrow. This covers `activate A`, `deactivate A` and `Note over A: text`.
   */
  lemma NotAMessage(line: string, w: string, sp: string, x: string)
    requires line == w + sp + x && IsWord(w) && sp != [] && AllRegexSpace(sp)
    requires x != [] && IsWordChar(x[0])
    ensures ParseMessage(line).None?
  {
    var y := sp + x;
    AppendAssoc(w, sp, x);
    assert line == w + y;
    assert y[0] == sp[0];
    WordLenOf(w, y);
    assert SpaceLen(line) == 0 by { assert line[0] == w[0]; }
    assert line[0..] == line;
    assert line[|w|..] == y;
    SpaceLenOf(sp, x);
    assert y[|sp|..] == x;
    ArrowsStartWithDash();
    NoArrow(x, w, Arrows);
  }

  lemma ArrowsStartWithDash()
    ensures forall i :: 0 <= i < |Arrows| ==> Arrows[i] != [] && Arrows[i][0] == '-'
  {
  }

  lemma NoArrow(t: string, from: string, alts: seq<string>)
    requires t != [] && t[0] != '-'
    requires forall i :: 0 <= i < |alts| ==> alts[i] != [] && alts[i][0] == '-'
    ensures TryArrows(t, from, alts).None?
    decreases |alts|
  {
    if alts != [] {
      assert !HasPrefix(t, alts[0]) by { if |alts[0]| <= |t| { assert t[..|alts[0]|][0] == t[0]; } }
      NoArrow(t, from, alts[1..]);
    }
  }

  /**
   * A keyword line shorter than `participant`, such as `activate A`,
   * `deactivate A` or `Note over A: text`, is neither a declaration nor a
   * message, so it adds nothing to the diagram.
   */
  lemma KeywordLineIgnored(t: string, w: string, sp: string, x: string)
    requires t == w + sp + x && IsWord(w) && w != "participant" && sp != [] && AllRegexSpace(sp)
    requires x != [] && IsWordChar(x[0])
    ensures ParseParticipant(t).None? && ParseMessage(t).None?
  {
    NotAMessage(t, w, sp, x);
    NotAParticipant(t, w, sp, x);
  }

  /** A word other than `participant` at the head of a line makes it no participant line. */
  lemma NotAParticipant(t: string, w: string, sp: string, x: string)
    requires t == w + sp + x && IsWord(w) && w != "participant" && sp != [] && AllRegexSpace(sp)
    requires x != [] && IsWordChar(x[0])
    ensures ParseParticipant(t).None?
  {
    ParticipantShape(t);
    assert SpaceLen(t) == 0 by { assert t[0] == w[0]; }
    assert t[0..] == t;
    if |w| < 11 {
      assert t[|w|] == sp[0];
      KeywordHasNoSpace();
      assert |t| >= 11 ==> t[..11][|w|] == t[|w|];
    } else if |w| == 11 {
      assert t[..11] == w;
    } else {
      assert t[11] == w[11] && !IsRegexSpace(t[11]);
    }
  }

  /** A participant line is `participant` and at least one space after the leading spaces. */
  lemma ParticipantShape(line: string)
    ensures var t := line[SpaceLen(line)..];
      ParseParticipant(line).Some? ==> HasPrefix(t, "participant") && |t| > 11 && IsRegexSpace(t[11])
  {
    var t := line[SpaceLen(line)..];
    if HasPrefix(t, "participant") && |t| > 11 {
      assert t[11..][0] == t[11];
    }
  }

  lemma KeywordHasNoSpace()
    ensures forall i :: 0 <= i < |"participant"| ==> !IsRegexSpace("participant"[i])
  {
  }

  /** Blank, `%%` comment and header lines are skipped. */
  lemma SkippedLines(rawLine: string)
    requires var t := TrimSpace(rawLine); t == [] || HasPrefix(t, "%%") || HasPrefix(t, "sequenceDiagram")
    ensures ClassifySequenceLine(rawLine) == Skipped
  {
  }
}
