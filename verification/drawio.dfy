/**
 * GenerateDrawIOXML of internal/drawio/generator.go: the switch on the
 * diagram's dialect. The source's diagram is an interface, and a value of
 * any other type implementing it takes the "unsupported diagram type" error.
 * Here the diagram is a closed datatype of the two dialects, so that error
 * has no counterpart and the switch is an exhaustive match.
 */
module DrawIO {
  import opened Model
  import opened Generator
  import opened ERGenerator
  import opened SequenceGenerator
  import Parser

  /** The cell list drawn for a diagram of either dialect. */
  function DiagramCells(d: Diagram): seq<Cell> {
    match d
    case Sequence(s) => SequenceCells(s)
    case EntityRelationship(e) => ERCells(e)
  }

  /** GenerateDrawIOXML up to marshalling: the base model holding the dialect's cell list. */
  method GenerateDrawIOXML(diagram: Diagram) returns (model: GraphModel)
    ensures model == CreateBaseModel().(cells := DiagramCells(diagram))
  {
    match diagram
    case Sequence(d) =>
      model := GenerateSequenceDrawIOXML(d);
    case EntityRelationship(d) =>
      model := GenerateERDrawIOXML(d);
  }

  /**
   * Every drawing starts with cell "0" (no parent) and cell "1" (parent
   * "0"), gives every later cell a numbered id carrying its position, so all
   * ids are distinct, and draws every edge between vertices drawn before it.
   */
  lemma DrawingWellFormed(d: Diagram)
    ensures var cells := DiagramCells(d);
      && |cells| >= 2 && cells[..2] == CreateDefaultCells()
      && cells[0].id == "0" && cells[0].parent == "" && cells[1].id == "1" && cells[1].parent == "0"
      && Numbered(cells)
      && (forall i, j :: 0 <= i < j < |cells| ==> cells[i].id != cells[j].id)
      && EdgesPointBack(cells)
  {
    var cells := DiagramCells(d);
    match d
    case Sequence(s) =>
      SequenceIdsDistinct(s);
      SequenceEdgesPointBack(s);
    case EntityRelationship(e) =>
      ERIdsDistinct(e);
      EREdgesPointBack(e);
    assert cells[0] == cells[..2][0] && cells[1] == cells[..2][1];
  }

  /** A diagram with nothing to draw yields exactly the two default cells. */
  lemma EmptyDiagram(d: Diagram)
    requires d == Sequence(SequenceDiagram([], [])) || d == EntityRelationship(ERDiagram([], []))
    ensures DiagramCells(d) == CreateDefaultCells()
  {
    match d
    case Sequence(s) => SequenceNoParticipants(s);
    case EntityRelationship(e) => ERNoEntities(e);
  }

  /** Messages whose ends are all registered are all kept. */
  lemma {:induction false} AllMessagesKept(ms: seq<Message>, ids: map<string, string>)
    requires forall m :: m in ms ==> Connected(ids, m.from, m.to)
    ensures KeptMessages(ms, ids) == ms
    decreases |ms|
  {
    if ms != [] {
      AllMessagesKept(ms[..|ms| - 1], ids);
      Parser.LastSplit(ms);
    }
  }

  /** A name some participant of the list carries is the name of the participant at some index. */
  lemma NamedParticipant(ps: seq<Participant>, name: string)
    requires name in Parser.Names(ps)
    ensures exists i :: 0 <= i < |ps| && ps[i].name == name
  {
    var q :| q in ps && q.name == name;
    var i :| 0 <= i < |ps| && ps[i] == q;
  }

  /**
   * A parsed sequence diagram loses no message in the drawing: every
   * message's ends became participants while parsing, so the drawing has
   * 2 + 2 cells per participant + 1 per message.
   */
  lemma ParsedSequenceDrawsEveryMessage(input: string)
    ensures var d := Parser.SequenceSpec(input);
      && KeptMessages(d.messages, ParticipantIds(d.participants)) == d.messages
      && |SequenceCells(d)| == 2 + 2 * |d.participants| + |d.messages|
  {
    var d := Parser.SequenceSpec(input);
    var ks := Parser.Classify(Parser.Lines(input));
    var ps := d.participants;
    Parser.FirstMentionsSpec(Parser.Mentions(ks));
    Parser.MessageEndpointsMentioned(ks);
    forall m | m in d.messages
      ensures Connected(ParticipantIds(ps), m.from, m.to)
    {
      assert Parser.Endpoint(m.from) in Parser.Mentions(ks) && Parser.Endpoint(m.to) in Parser.Mentions(ks);
      assert m.from in Parser.Names(Parser.Mentions(ks)) && m.to in Parser.Names(Parser.Mentions(ks));
      NamedParticipant(ps, m.from);
      NamedParticipant(ps, m.to);
      MessageConnectedIffDeclared(ps, m.from, m.to);
    }
    AllMessagesKept(d.messages, ParticipantIds(ps));
  }
}
