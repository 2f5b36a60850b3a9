/**
 * GenerateSequenceDrawIOXML of internal/drawio/generator.go: one rectangle
 * and one lifeline per participant, left to right, then one edge per message
 * whose ends both name a participant. The method is proved equal to
 * SequenceCells; the layout, count, id and edge properties are proved about
 * SequenceCells.
 */
module SequenceGenerator {
  import opened Options
  import opened Text
  import opened Model
  import opened Generator
  import Parser

  /** The left edge of the i-th participant: 200 points apart from x = 50. */
  function ParticipantX(i: nat): int {
    50 + 200 * i
  }

  function ParticipantId(n: nat): string {
    "participant_" + Decimal(n)
  }

  /** The rectangle of the i-th participant, drawn with counter value n and labelled with its alias. */
  function ParticipantCell(p: Participant, i: nat, n: nat): Cell {
    Cell(ParticipantId(n), p.alias, Rectangle, "1", "", "1", "", "",
      Some(Geometry(Some(ParticipantX(i)), Some(50), Some(100), Some(50))))
  }

  /** A lifeline with counter value n: a dashed edge with no ends. */
  function LifelineCell(n: nat): Cell {
    Cell("lifeline_" + Decimal(n), "", Lifeline, "", "1", "1", "", "", NoGeometry)
  }

  /** The two cells of the i-th participant: its rectangle, then its lifeline with the next counter value. */
  function ParticipantPair(p: Participant, i: nat, n: nat): (r: seq<Cell>)
    ensures |r| == 2
  {
    [ParticipantCell(p, i, n), LifelineCell(n + 1)]
  }

  /** Two cells per participant in order; the i-th pair starts at counter value 2 + 2i. */
  function ParticipantCells(ps: seq<Participant>): (r: seq<Cell>)
    ensures |r| == 2 * |ps|
  {
    if ps == [] then []
    else
      var init := ps[..|ps| - 1];
      ParticipantCells(init) + ParticipantPair(ps[|ps| - 1], |init|, FirstCellId + 2 * |init|)
  }

  /** The name-to-rectangle-id map; a later participant of the same name overwrites the earlier one. */
  function ParticipantIds(ps: seq<Participant>): map<string, string> {
    if ps == [] then map[]
    else
      var init := ps[..|ps| - 1];
      ParticipantIds(init)[ps[|ps| - 1].name := ParticipantId(FirstCellId + 2 * |init|)]
  }

  /** The messages that get an edge, in input order. */
  function KeptMessages(ms: seq<Message>, ids: map<string, string>): (r: seq<Message>)
    ensures |r| <= |ms|
  {
    if ms == [] then []
    else
      var init, last := ms[..|ms| - 1], ms[|ms| - 1];
      KeptMessages(init, ids) + if Connected(ids, last.from, last.to) then [last] else []
  }

  function MessageCell(m: Message, ids: map<string, string>, n: nat): Cell {
    Cell("message_" + Decimal(n), m.text, Arrow(m.msgType), "", "1", "1",
      Lookup(ids, m.from), Lookup(ids, m.to), NoGeometry)
  }

  /** One edge per kept message, counted on from n. */
  function MessageCells(ms: seq<Message>, ids: map<string, string>, n: nat): (r: seq<Cell>)
    ensures |r| == |KeptMessages(ms, ids)|
  {
    if ms == [] then []
    else
      var init, last := ms[..|ms| - 1], ms[|ms| - 1];
      MessageCells(init, ids, n)
        + if Connected(ids, last.from, last.to) then [MessageCell(last, ids, n + |KeptMessages(init, ids)|)] else []
  }

  /**
   * The whole cell list of a sequence diagram: two default cells, two per
   * participant, and one per kept message.
   */
  function SequenceCells(d: SequenceDiagram): (r: seq<Cell>)
    ensures |r| == FirstCellId + 2 * |d.participants| + |KeptMessages(d.messages, ParticipantIds(d.participants))|
    ensures r[..2] == CreateDefaultCells()
  {
    CreateDefaultCells() + ParticipantCells(d.participants)
      + MessageCells(d.messages, ParticipantIds(d.participants), FirstCellId + 2 * |d.participants|)
  }

  /**
   * GenerateSequenceDrawIOXML up to marshalling. The body of each of the
   * source's two loops is its own method here (EmitParticipant,
   * EmitMessage); the counter, the name-to-id map and the cell list are
   * threaded exactly as in the source.
   */
  method GenerateSequenceDrawIOXML(diagram: SequenceDiagram) returns (model: GraphModel)
    ensures model == CreateBaseModel().(cells := SequenceCells(diagram))
  {
    model := CreateBaseModel();
    var cells := CreateDefaultCells();
    var cellID: nat := FirstCellId;
    var participantCells: map<string, string> := map[];
    var ps := diagram.participants;
    NoParticipantsYet(ps);
    for i := 0 to |ps|
      invariant cells == CreateDefaultCells() + ParticipantCells(ps[..i])
      invariant cellID == FirstCellId + 2 * i
      invariant participantCells == ParticipantIds(ps[..i])
    {
      var participant := ps[i];
      var x := StartX + i * ParticipantSpacing;
      ghost var before := cells;
      ghost var n := cellID;
      var pair, id := EmitParticipant(participant, i, x, cellID);
      participantCells := participantCells[participant.name := id];
      cells := cells + pair;
      cellID := cellID + |pair|;
      ParticipantAppended(ps, i, n, before, pair, cells);
      ParticipantIdsStep(ps, i);
    }
    var ms := diagram.messages;
    ghost var base := FirstCellId + 2 * |ps|;
    ghost var participantPart := cells;
    AllParticipants(ps, participantCells, cells);
    NoMessagesYet(ms, participantCells, base, participantPart);
    for j := 0 to |ms|
      invariant cells == participantPart + MessageCells(ms[..j], participantCells, base)
      invariant cellID == base + |KeptMessages(ms[..j], participantCells)|
    {
      ghost var before := cells;
      ghost var m := cellID;
      var edge := EmitMessage(ms[j], participantCells, cellID);
      cells := cells + edge;
      cellID := cellID + |edge|;
      MessageStepped(ms, j, participantCells, base, participantPart, before, m, edge, cells);
    }
    AllMessages(diagram, participantCells, base, participantPart, cells);
    model := model.(cells := cells);
  }

  /**
   * The rectangle of the i-th participant at x with counter value n, and
   * its lifeline with counter value n + 1.
   */
  method EmitParticipant(participant: Participant, i: nat, x: int, n: nat) returns (pair: seq<Cell>, id: string)
    requires x == StartX + i * ParticipantSpacing
    ensures pair == ParticipantPair(participant, i, n)
    ensures id == ParticipantId(n)
  {
    var cellID := n;
    id := "participant_" + Decimal(cellID);
    var cell := Cell(id, participant.alias, Rectangle, "1", "", "1", "", "",
      Some(Geometry(Some(x), Some(ParticipantY), Some(ParticipantWidth), Some(ParticipantHeight))));
    pair := [cell];
    cellID := cellID + 1;
    var lifelineCell := Cell("lifeline_" + Decimal(cellID), "", Lifeline, "", "1", "1", "", "", NoGeometry);
    pair := pair + [lifelineCell];
  }

  /**
   * The edge of one message, counted n, or nothing when one of its ends
   * names no participant (the source skips it without consuming an id).
   */
  method EmitMessage(message: Message, participantCells: map<string, string>, n: nat) returns (edge: seq<Cell>)
    ensures Connected(participantCells, message.from, message.to) ==> edge == [MessageCell(message, participantCells, n)]
    ensures !Connected(participantCells, message.from, message.to) ==> edge == []
  {
    var fromID := Lookup(participantCells, message.from);
    var toID := Lookup(participantCells, message.to);
    if fromID == "" || toID == "" {
      return [];
    }
    var style := Arrow(message.msgType);
    var messageCell := Cell("message_" + Decimal(n), message.text, style, "", "1", "1", fromID, toID, NoGeometry);
    edge := [messageCell];
  }

  lemma NoParticipantsYet(ps: seq<Participant>)
    ensures CreateDefaultCells() == CreateDefaultCells() + ParticipantCells(ps[..0])
    ensures ParticipantIds(ps[..0]) == map[]
  {
    assert ps[..0] == [];
  }

  lemma ParticipantAppended(ps: seq<Participant>, i: nat, n: nat, before: seq<Cell>, pair: seq<Cell>, cells: seq<Cell>)
    requires i < |ps| && n == FirstCellId + 2 * i
    requires before == CreateDefaultCells() + ParticipantCells(ps[..i])
    requires pair == ParticipantPair(ps[i], i, n) && cells == before + pair
    ensures cells == CreateDefaultCells() + ParticipantCells(ps[..i + 1])
  {
    ParticipantCellsStep(ps, i);
    AppendAssoc(CreateDefaultCells(), ParticipantCells(ps[..i]), pair);
  }

  lemma AllParticipants(ps: seq<Participant>, ids: map<string, string>, cells: seq<Cell>)
    requires cells == CreateDefaultCells() + ParticipantCells(ps[..|ps|])
    requires ids == ParticipantIds(ps[..|ps|])
    ensures cells == CreateDefaultCells() + ParticipantCells(ps) && ids == ParticipantIds(ps)
  {
    assert ps[..|ps|] == ps;
  }

  lemma NoMessagesYet(ms: seq<Message>, ids: map<string, string>, n: nat, cells: seq<Cell>)
    ensures cells == cells + MessageCells(ms[..0], ids, n)
    ensures KeptMessages(ms[..0], ids) == []
  {
    assert ms[..0] == [];
  }

  lemma MessageStepped(ms: seq<Message>, j: nat, ids: map<string, string>, n: nat,
                       prefix: seq<Cell>, before: seq<Cell>, m: nat, edge: seq<Cell>, cells: seq<Cell>)
    requires j < |ms| && m == n + |KeptMessages(ms[..j], ids)|
    requires before == prefix + MessageCells(ms[..j], ids, n)
    requires Connected(ids, ms[j].from, ms[j].to) ==> edge == [MessageCell(ms[j], ids, m)]
    requires !Connected(ids, ms[j].from, ms[j].to) ==> edge == []
    requires cells == before + edge
    ensures cells == prefix + MessageCells(ms[..j + 1], ids, n)
    ensures m + |edge| == n + |KeptMessages(ms[..j + 1], ids)|
  {
    MessagesStep(ms, j, ids, n);
    AppendAssoc(prefix, MessageCells(ms[..j], ids, n), edge);
  }

  lemma AllMessages(d: SequenceDiagram, ids: map<string, string>, base: nat, participantPart: seq<Cell>, cells: seq<Cell>)
    requires ids == ParticipantIds(d.participants) && base == FirstCellId + 2 * |d.participants|
    requires participantPart == CreateDefaultCells() + ParticipantCells(d.participants)
    requires cells == participantPart + MessageCells(d.messages[..|d.messages|], ids, base)
    ensures cells == SequenceCells(d)
  {
    assert d.messages[..|d.messages|] == d.messages;
  }

  /** One more participant appends its pair, */
  lemma ParticipantCellsStep(ps: seq<Participant>, i: nat)
    requires i < |ps|
    ensures ParticipantCells(ps[..i + 1]) == ParticipantCells(ps[..i]) + ParticipantPair(ps[i], i, FirstCellId + 2 * i)
  {
    var s := ps[..i + 1];
    assert s[..|s| - 1] == ps[..i] && s[|s| - 1] == ps[i];
  }

  /** and maps its name to its rectangle's id. */
  lemma ParticipantIdsStep(ps: seq<Participant>, i: nat)
    requires i < |ps|
    ensures ParticipantIds(ps[..i + 1]) == ParticipantIds(ps[..i])[ps[i].name := ParticipantId(FirstCellId + 2 * i)]
  {
    var s := ps[..i + 1];
    assert s[..|s| - 1] == ps[..i] && s[|s| - 1] == ps[i];
  }

  /** One more message appends its edge exactly when both its ends are registered. */
  lemma MessagesStep(ms: seq<Message>, j: nat, ids: map<string, string>, n: nat)
    requires j < |ms|
    ensures var m := ms[j];
      var kept := KeptMessages(ms[..j], ids);
      if Connected(ids, m.from, m.to) then
        && KeptMessages(ms[..j + 1], ids) == kept + [m]
        && MessageCells(ms[..j + 1], ids, n) == MessageCells(ms[..j], ids, n) + [MessageCell(m, ids, n + |kept|)]
      else
        && KeptMessages(ms[..j + 1], ids) == kept
        && MessageCells(ms[..j + 1], ids, n) == MessageCells(ms[..j], ids, n)
  {
    assert ms[..j + 1][..j] == ms[..j];
  }

  // ---------------------------------------------------------------------------
  // Layout of the participants

  /** Pair member t of the i-th participant sits at index r = 2i + t of ParticipantCells. */
  lemma {:induction false} ParticipantPairAt(ps: seq<Participant>, i: nat, t: nat, r: nat)
    requires i < |ps| && t < 2 && r == 2 * i + t
    ensures r < |ParticipantCells(ps)|
    ensures ParticipantCells(ps)[r] == ParticipantPair(ps[i], i, FirstCellId + 2 * i)[t]
    decreases |ps|
  {
    var init := ps[..|ps| - 1];
    var pair := ParticipantPair(ps[|ps| - 1], |init|, FirstCellId + 2 * |init|);
    if i < |ps| - 1 {
      PrefixOfPrefix(ps, |ps| - 1, i);
      ParticipantPairAt(init, i, t, r);
      IndexLeft(ParticipantCells(init), pair, r);
    } else {
      IndexRight(ParticipantCells(init), pair, r, t);
    }
  }

  /** After the two default cells, SequenceCells continues with the participant cells. */
  lemma ParticipantPartOfSequence(d: SequenceDiagram, r: nat, j: nat)
    requires r < 2 * |d.participants| && j == FirstCellId + r
    ensures j < |SequenceCells(d)| && SequenceCells(d)[j] == ParticipantCells(d.participants)[r]
  {
    var ps := d.participants;
    IndexLeft(CreateDefaultCells() + ParticipantCells(ps),
      MessageCells(d.messages, ParticipantIds(ps), FirstCellId + 2 * |ps|), j);
    IndexRight(CreateDefaultCells(), ParticipantCells(ps), j, r);
  }

  /**
   * The i-th participant is a rectangle labelled with its alias at
   * x = 50 + 200i, y = 50, 100 by 50, with counter value 2 + 2i; the cell
   * right after it is its lifeline, a dashed edge with no ends.
   */
  lemma SequenceParticipantPlacement(d: SequenceDiagram, i: nat)
    requires i < |d.participants|
    ensures var p := FirstCellId + 2 * i;
      && p + 1 < |SequenceCells(d)|
      && SequenceCells(d)[p].id == "participant_" + Decimal(p)
      && SequenceCells(d)[p].value == d.participants[i].alias
      && SequenceCells(d)[p].style == Rectangle && SequenceCells(d)[p].vertex == "1" && SequenceCells(d)[p].edge == ""
      && SequenceCells(d)[p].parent == "1"
      && SequenceCells(d)[p].geometry == Some(Geometry(Some(50 + 200 * i), Some(50), Some(100), Some(50)))
      && SequenceCells(d)[p + 1].id == "lifeline_" + Decimal(p + 1)
      && SequenceCells(d)[p + 1].style == Lifeline && SequenceCells(d)[p + 1].edge == "1" && SequenceCells(d)[p + 1].vertex == ""
      && SequenceCells(d)[p + 1].parent == "1"
      && SequenceCells(d)[p + 1].source == "" && SequenceCells(d)[p + 1].target == ""
  {
    var ps := d.participants;
    ParticipantPairAt(ps, i, 0, 2 * i);
    ParticipantPairAt(ps, i, 1, 2 * i + 1);
    ParticipantPartOfSequence(d, 2 * i, FirstCellId + 2 * i);
    ParticipantPartOfSequence(d, 2 * i + 1, FirstCellId + 2 * i + 1);
  }

  // ---------------------------------------------------------------------------
  // Message edges

  /** The t-th edge is drawn for the t-th kept message with counter value n + t. */
  lemma {:induction false} MessageCellAt(ms: seq<Message>, ids: map<string, string>, n: nat, t: nat)
    requires t < |KeptMessages(ms, ids)|
    ensures MessageCells(ms, ids, n)[t] == MessageCell(KeptMessages(ms, ids)[t], ids, n + t)
    decreases |ms|
  {
    var init, last := ms[..|ms| - 1], ms[|ms| - 1];
    var keptTail := if Connected(ids, last.from, last.to) then [last] else [];
    var cellTail := if Connected(ids, last.from, last.to) then [MessageCell(last, ids, n + |KeptMessages(init, ids)|)] else [];
    if t < |KeptMessages(init, ids)| {
      MessageCellAt(init, ids, n, t);
      IndexLeft(MessageCells(init, ids, n), cellTail, t);
      IndexLeft(KeptMessages(init, ids), keptTail, t);
    } else {
      IndexRight(MessageCells(init, ids, n), cellTail, t, 0);
      IndexRight(KeptMessages(init, ids), keptTail, t, 0);
    }
  }

  /** A message keeps its edge exactly when both its ends are registered. */
  lemma {:induction false} KeptMessageMembership(ms: seq<Message>, ids: map<string, string>, m: Message)
    ensures m in KeptMessages(ms, ids) <==> m in ms && Connected(ids, m.from, m.to)
    decreases |ms|
  {
    if ms != [] {
      KeptMessageMembership(ms[..|ms| - 1], ids, m);
      Parser.LastSplit(ms);
    }
  }

  /** The t-th kept message's edge sits at index j = 2 + 2|participants| + t. */
  lemma SequenceMessageAt(d: SequenceDiagram, t: nat, j: nat)
    requires t < |KeptMessages(d.messages, ParticipantIds(d.participants))|
    requires j == FirstCellId + 2 * |d.participants| + t
    ensures j < |SequenceCells(d)|
    ensures SequenceCells(d)[j] == MessageCell(KeptMessages(d.messages, ParticipantIds(d.participants))[t], ParticipantIds(d.participants), j)
  {
    var ps, ids := d.participants, ParticipantIds(d.participants);
    var base := FirstCellId + 2 * |ps|;
    MessageCellAt(d.messages, ids, base, t);
    IndexRight(CreateDefaultCells() + ParticipantCells(ps), MessageCells(d.messages, ids, base), j, t);
  }

  /**
   * The edges come after the participant cells, one per kept message in
   * input order: the t-th is labelled with the message text, drawn in the
   * style of its type, and runs from the rectangle registered for its
   * sender to the one registered for its receiver, both of which exist.
   */
  lemma SequenceEdge(d: SequenceDiagram, t: nat)
    requires t < |KeptMessages(d.messages, ParticipantIds(d.participants))|
    ensures var ids, j := ParticipantIds(d.participants), FirstCellId + 2 * |d.participants| + t;
      var m := KeptMessages(d.messages, ids)[t];
      && m in d.messages
      && j < |SequenceCells(d)|
      && SequenceCells(d)[j].id == "message_" + Decimal(j)
      && SequenceCells(d)[j].value == m.text
      && SequenceCells(d)[j].style == Arrow(m.msgType) && SequenceCells(d)[j].edge == "1" && SequenceCells(d)[j].vertex == ""
      && SequenceCells(d)[j].parent == "1"
      && m.from in ids && SequenceCells(d)[j].source == ids[m.from]
      && m.to in ids && SequenceCells(d)[j].target == ids[m.to]
  {
    var ids := ParticipantIds(d.participants);
    var m := KeptMessages(d.messages, ids)[t];
    KeptMessageMembership(d.messages, ids, m);
    SequenceMessageAt(d, t, FirstCellId + 2 * |d.participants| + t);
  }

  // ---------------------------------------------------------------------------
  // The name-to-rectangle map

  /** Every participant name is registered. */
  lemma {:induction false} ParticipantNameRegistered(ps: seq<Participant>, i: nat)
    requires i < |ps|
    ensures ps[i].name in ParticipantIds(ps)
    decreases |ps|
  {
    if i < |ps| - 1 {
      ParticipantNameRegistered(ps[..|ps| - 1], i);
    }
  }

  /**
   * A participant with no later namesake is registered to its own rectangle
   * (a later participant of the same name would overwrite the entry).
   */
  lemma {:induction false} ParticipantIdsLast(ps: seq<Participant>, i: nat)
    requires i < |ps|
    requires forall i' :: i < i' < |ps| ==> ps[i'].name != ps[i].name
    ensures ps[i].name in ParticipantIds(ps) && ParticipantIds(ps)[ps[i].name] == ParticipantId(FirstCellId + 2 * i)
    decreases |ps|
  {
    ParticipantNameRegistered(ps, i);
    if i < |ps| - 1 {
      PrefixOfPrefix(ps, |ps| - 1, i);
      ParticipantIdsLast(ps[..|ps| - 1], i);
    }
  }

  /** Only participant names are registered, each to the rectangle of a participant of that name. */
  lemma {:induction false} ParticipantIdsRectangle(ps: seq<Participant>, name: string)
    requires name in ParticipantIds(ps)
    ensures exists i :: 0 <= i < |ps| && ps[i].name == name && ParticipantIds(ps)[name] == ParticipantId(FirstCellId + 2 * i)
    decreases |ps|
  {
    var init := ps[..|ps| - 1];
    if ps[|ps| - 1].name != name {
      ParticipantIdsRectangle(init, name);
      var i :| 0 <= i < |init| && init[i].name == name && ParticipantIds(init)[name] == ParticipantId(FirstCellId + 2 * i);
      assert ps[i] == init[i];
    }
  }

  /** A name is registered exactly when some participant has it, and it then maps to a non-empty id. */
  lemma RegisteredIffParticipant(ps: seq<Participant>, name: string)
    ensures name in ParticipantIds(ps) <==> exists i :: 0 <= i < |ps| && ps[i].name == name
    ensures name in ParticipantIds(ps) ==> ParticipantIds(ps)[name] != ""
  {
    if name in ParticipantIds(ps) {
      ParticipantIdsRectangle(ps, name);
    }
    if i :| 0 <= i < |ps| && ps[i].name == name {
      ParticipantNameRegistered(ps, i);
    }
  }

  /** A message gets an edge exactly when both its ends name a participant of the diagram. */
  lemma MessageConnectedIffDeclared(ps: seq<Participant>, from: string, to: string)
    ensures Connected(ParticipantIds(ps), from, to)
        <==> (exists i :: 0 <= i < |ps| && ps[i].name == from) && (exists i :: 0 <= i < |ps| && ps[i].name == to)
  {
    RegisteredIffParticipant(ps, from);
    RegisteredIffParticipant(ps, to);
  }

  // ---------------------------------------------------------------------------
  // Whole-list properties

  /** With no participant registered, no message is kept. */
  lemma {:induction false} NoMessageKept(ms: seq<Message>)
    ensures KeptMessages(ms, map[]) == []
    decreases |ms|
  {
    if ms != [] {
      NoMessageKept(ms[..|ms| - 1]);
    }
  }

  /** A diagram without participants is drawn as the two default cells alone, whatever its messages. */
  lemma SequenceNoParticipants(d: SequenceDiagram)
    requires d.participants == []
    ensures SequenceCells(d) == CreateDefaultCells()
  {
    NoMessageKept(d.messages);
    assert ParticipantIds(d.participants) == map[];
  }

  lemma ParticipantPairNumbered(p: Participant, i: nat, n: nat)
    ensures NumberedNoEnds(ParticipantPair(p, i, n), n)
  {
  }

  /** The participant cells carry counter values 2, 3, ... in order and have no ends. */
  lemma {:induction false} ParticipantCellsNumbered(ps: seq<Participant>)
    ensures NumberedNoEnds(ParticipantCells(ps), FirstCellId)
    decreases |ps|
  {
    if ps != [] {
      var init := ps[..|ps| - 1];
      ParticipantCellsNumbered(init);
      ParticipantPairNumbered(ps[|ps| - 1], |init|, FirstCellId + 2 * |init|);
      NumberedNoEndsAppend(ParticipantCells(init), ParticipantPair(ps[|ps| - 1], |init|, FirstCellId + 2 * |init|), FirstCellId);
    }
  }

  lemma MessageCellsNumbered(ms: seq<Message>, ids: map<string, string>, n: nat)
    ensures NumberedFrom(MessageCells(ms, ids, n), n)
  {
    forall t | 0 <= t < |MessageCells(ms, ids, n)|
      ensures IdNumbered(MessageCells(ms, ids, n)[t].id, n + t)
    {
      MessageCellAt(ms, ids, n, t);
    }
  }

  /**
   * Every cell after the two default ones carries the counter value of its
   * position, so the ids of a sequence drawing are pairwise distinct.
   */
  lemma SequenceIdsDistinct(d: SequenceDiagram)
    ensures Numbered(SequenceCells(d))
    ensures forall i, j :: 0 <= i < j < |SequenceCells(d)| ==> SequenceCells(d)[i].id != SequenceCells(d)[j].id
  {
    var ps, ids := d.participants, ParticipantIds(d.participants);
    var pairs := ParticipantCells(ps);
    var edges := MessageCells(d.messages, ids, FirstCellId + 2 * |ps|);
    ParticipantCellsNumbered(ps);
    NumberedNoEndsNumbered(pairs, FirstCellId);
    MessageCellsNumbered(d.messages, ids, FirstCellId + 2 * |ps|);
    NumberedAppend(pairs, edges, FirstCellId);
    AppendAssoc(CreateDefaultCells(), pairs, edges);
    DropPrefix(CreateDefaultCells(), pairs + edges, SequenceCells(d));
    NumberedWhole(SequenceCells(d));
    NumberedIdsDistinct(SequenceCells(d));
  }

  /** A registered name's id is that of a participant rectangle drawn before every message. */
  lemma RegisteredRectangleBefore(d: SequenceDiagram, name: string, j: nat)
    requires name in ParticipantIds(d.participants) && FirstCellId + 2 * |d.participants| <= j
    ensures EarlierVertex(SequenceCells(d), j, ParticipantIds(d.participants)[name])
  {
    var ps := d.participants;
    ParticipantIdsRectangle(ps, name);
    var i :| 0 <= i < |ps| && ps[i].name == name && ParticipantIds(ps)[name] == ParticipantId(FirstCellId + 2 * i);
    SequenceParticipantPlacement(d, i);
    assert SequenceCells(d)[FirstCellId + 2 * i].vertex == "1";
  }

  /** The ends of the cell at index j, where set, are earlier vertices. */
  lemma SequenceCellEnds(d: SequenceDiagram, j: nat)
    requires j < |SequenceCells(d)|
    ensures SequenceCells(d)[j].source != "" ==> EarlierVertex(SequenceCells(d), j, SequenceCells(d)[j].source)
    ensures SequenceCells(d)[j].target != "" ==> EarlierVertex(SequenceCells(d), j, SequenceCells(d)[j].target)
  {
    if j < FirstCellId + 2 * |d.participants| {
      SequenceVertexNoEnds(d, j);
    } else {
      SequenceMessageEnds(d, j);
    }
  }

  /** The default cells, the rectangles and the lifelines have neither source nor target. */
  lemma SequenceVertexNoEnds(d: SequenceDiagram, j: nat)
    requires j < FirstCellId + 2 * |d.participants|
    ensures j < |SequenceCells(d)| && SequenceCells(d)[j].source == "" && SequenceCells(d)[j].target == ""
  {
    if j < FirstCellId {
      assert SequenceCells(d)[j] == SequenceCells(d)[..2][j];
    } else {
      ParticipantPartOfSequence(d, j - FirstCellId, j);
      ParticipantCellsNumbered(d.participants);
    }
  }

  /** A message edge runs between rectangles drawn before it. */
  lemma SequenceMessageEnds(d: SequenceDiagram, j: nat)
    requires FirstCellId + 2 * |d.participants| <= j < |SequenceCells(d)|
    ensures EarlierVertex(SequenceCells(d), j, SequenceCells(d)[j].source)
    ensures EarlierVertex(SequenceCells(d), j, SequenceCells(d)[j].target)
  {
    var ids := ParticipantIds(d.participants);
    var t := j - (FirstCellId + 2 * |d.participants|);
    SequenceEdge(d, t);
    var m := KeptMessages(d.messages, ids)[t];
    RegisteredRectangleBefore(d, m.from, j);
    RegisteredRectangleBefore(d, m.to, j);
  }

  /** Every message edge of a sequence drawing runs between participant rectangles drawn before it. */
  lemma SequenceEdgesPointBack(d: SequenceDiagram)
    ensures EdgesPointBack(SequenceCells(d))
  {
    forall j | 0 <= j < |SequenceCells(d)|
      ensures SequenceCells(d)[j].source != "" ==> EarlierVertex(SequenceCells(d), j, SequenceCells(d)[j].source)
      ensures SequenceCells(d)[j].target != "" ==> EarlierVertex(SequenceCells(d), j, SequenceCells(d)[j].target)
    {
      SequenceCellEnds(d, j);
    }
  }
}
