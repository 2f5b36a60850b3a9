/**
 * The layout generators of internal/drawio/generator.go: they turn a parsed
 * diagram into the flat cell list of a draw.io graph model. XML marshalling
 * is not part of this model; the generators stop at the model record.
 *
 * Each generator is a method with the source's loops and local state (the
 * cell id counter, the row and column of the entity grid, the name-to-id map
 * and the appended cell list), proved equal to a specification function; the
 * layout, id and edge properties are proved about those functions.
 *
 * Coordinates are whole numbers everywhere in the source, so they are ints.
 */
module Generator {
  import opened Options
  import opened Text
  import opened Model
  import opened Recognizers
  import Parser

  // ---------------------------------------------------------------------------
  // Records and constants

  /** mxGeometry; absent coordinates are the source's nil fields. Its `as` attribute is always "geometry". */
  datatype Geometry = Geometry(x: Option<int>, y: Option<int>, width: Option<int>, height: Option<int>)

  /**
   * The style a cell is drawn with, by name; StyleText gives the exact style
   * string the source writes for each.
   */
  datatype Style =
    | NoStyle
    | Swimlane
    | AttributeText
    | Connector(relType: RelationshipType)
    | Rectangle
    | Lifeline
    | Arrow(msgType: MessageType)

  /** mxCell; an empty string is an attribute the source leaves unset. */
  datatype Cell = Cell(
    id: string, value: string, style: Style, vertex: string, edge: string,
    parent: string, source: string, target: string, geometry: Option<Geometry>)

  /** mxGraphModel with its root's cell list. PageScale is the literal 1.0. */
  datatype GraphModel = GraphModel(
    dx: int, dy: int, grid: int, gridSize: int, guides: int, tooltips: int, connect: int,
    arrows: int, fold: int, page: int, pageScale: int, pageWidth: int, pageHeight: int,
    math: int, shadow: int, cells: seq<Cell>)

  const EntityWidth := 200
  const EntityHeight := 30
  const AttributeHeight := 20
  const EntitySpacing := 300
  const StartX := 50
  const StartY := 50
  const EntitiesPerRow := 3

  const ParticipantWidth := 100
  const ParticipantHeight := 50
  const ParticipantSpacing := 200
  const ParticipantY := 50

  const HeaderStyle := "swimlane;fontStyle=1;align=center;verticalAlign=middle;childLayout=stackLayout;horizontal=1;startSize=30;horizontalStack=0;resizeParent=1;resizeParentMax=0;resizeLast=0;collapsible=0;marginBottom=0;whiteSpace=wrap;html=1;"
  const AttributeStyle := "text;strokeColor=none;fillColor=none;align=left;verticalAlign=middle;spacingLeft=4;spacingRight=4;overflow=hidden;points=[[0,0.5],[1,0.5]];portConstraint=eastwest;rotatable=0;whiteSpace=wrap;html=1;"
  const ERBaseStyle := "endArrow=none;html=1;rounded=0;entryX=0;entryY=0.5;entryDx=0;entryDy=0;exitX=1;exitY=0.5;exitDx=0;exitDy=0;"
  const ParticipantStyle := "rounded=0;whiteSpace=wrap;html=1;"
  const LifelineStyle := "endArrow=none;dashed=1;html=1;"

  /** The key and link glyphs that mark primary and foreign keys, each followed by a space. */
  const KEY := "\U{1F511} "
  const LINK := "\U{1F517} "

  /**
   * The marks as the generator's literals spell them: the UTF-8 bytes of the
   * two glyphs read as Windows-1252 characters, each followed by a space.
   */
  const KEY_AS_WRITTEN := "\U{00F0}\U{0178}\U{201D}\U{2018} "
  const LINK_AS_WRITTEN := "\U{00F0}\U{0178}\U{201D}\U{2014} "

  /** createBaseModel: the fixed model attributes and an empty root. */
  function CreateBaseModel(): (m: GraphModel)
    ensures m.cells == [] && m.pageScale == 1
  {
    GraphModel(1234, 732, 1, 10, 1, 1, 1, 1, 1, 1, 1, 827, 1169, 0, 0, [])
  }

  /** createDefaultCells: the root cell "0" and the default layer "1" inside it. */
  function CreateDefaultCells(): (r: seq<Cell>)
    ensures |r| == 2 && r[0].id == "0" && r[0].parent == "" && r[1].id == "1" && r[1].parent == "0"
  {
    [Cell("0", "", NoStyle, "", "", "", "", "", None), Cell("1", "", NoStyle, "", "", "0", "", "", None)]
  }

  /** A geometry with no coordinates, as edges have. */
  const NoGeometry := Some(Geometry(None, None, None, None))

  /** What the source reads from a Go map of strings: the empty string for a missing key. */
  function Lookup(m: map<string, string>, k: string): (r: string)
    ensures k !in m ==> r == ""
    ensures r == "" ==> k !in m || m[k] == ""
  {
    if k in m then m[k] else ""
  }

  /**
   * Both endpoint names were registered; otherwise the source skips the edge.
   * A name stored with the empty id counts as missing.
   */
  predicate Connected(ids: map<string, string>, from: string, to: string): (r: bool)
    ensures r <==> from in ids && ids[from] != "" && to in ids && ids[to] != ""
  {
    Lookup(ids, from) != "" && Lookup(ids, to) != ""
  }

  // ---------------------------------------------------------------------------
  // Labels and styles

  /**
   * The attribute label built with the given key and link marks: the key
   * mark is prepended for a primary key, then the link mark for a foreign key
   * (so both give link, key, ...), then " (UK)" and " (NN)" are appended
   * independently.
   */
  function MarkedLabel(key: string, link: string, a: Attribute): string {
    var base := a.name + ": " + a.attrType;
    var withKey := if a.isPK then key + base else base;
    var withLink := if a.isFK then link + withKey else withKey;
    var withUnique := if a.isUnique then withLink + " (UK)" else withLink;
    if a.isNotNull then withUnique + " (NN)" else withUnique
  }

  /** The attribute label with the key and link glyphs. */
  function AttributeLabel(a: Attribute): (r: string)
    ensures !a.isPK && !a.isFK && !a.isUnique && !a.isNotNull ==> r == a.name + ": " + a.attrType
    ensures a.isPK && !a.isFK ==> HasPrefix(r, KEY) && !HasPrefix(r, LINK)
    ensures a.isFK ==> HasPrefix(r, LINK)
  {
    MarkedLabel(KEY, LINK, a)
  }

  /** The attribute label as the generator's literals build it. */
  function AttributeLabelAsWritten(a: Attribute): string {
    MarkedLabel(KEY_AS_WRITTEN, LINK_AS_WRITTEN, a)
  }

  /**
   * On a primary key `id int` the literals produce the mark read in the
   * wrong encoding, not the key glyph that the label is meant to carry.
   */
  lemma KeyMarkMisencoded()
    ensures var a := Attribute("id", "int", true, false, false, false);
      && AttributeLabelAsWritten(a) == "\U{00F0}\U{0178}\U{201D}\U{2018} id: int"
      && AttributeLabel(a) == "\U{1F511} id: int"
      && AttributeLabelAsWritten(a) != AttributeLabel(a)
  {
    var a := Attribute("id", "int", true, false, false, false);
    assert a.name + ": " + a.attrType == "id: int";
    assert AttributeLabelAsWritten(a) == KEY_AS_WRITTEN + "id: int";
    assert AttributeLabel(a) == KEY + "id: int";
    assert AttributeLabel(a)[0] != AttributeLabelAsWritten(a)[0];
  }

  /** The same for the link mark on a foreign key `user_id int`. */
  lemma LinkMarkMisencoded()
    ensures var a := Attribute("user_id", "int", false, true, false, false);
      && AttributeLabelAsWritten(a) == "\U{00F0}\U{0178}\U{201D}\U{2014} user_id: int"
      && AttributeLabel(a) == "\U{1F517} user_id: int"
      && AttributeLabelAsWritten(a) != AttributeLabel(a)
  {
    var a := Attribute("user_id", "int", false, true, false, false);
    assert a.name + ": " + a.attrType == "user_id: int";
    assert AttributeLabelAsWritten(a) == LINK_AS_WRITTEN + "user_id: int";
    assert AttributeLabel(a) == LINK + "user_id: int";
    assert AttributeLabel(a)[0] != AttributeLabelAsWritten(a)[0];
  }

  /** The glyphs in front of the base label. */
  function KeyMarks(a: Attribute): string {
    (if a.isFK then LINK else "") + (if a.isPK then KEY else "")
  }

  /** The constraint notes after the base label. */
  function ConstraintNotes(a: Attribute): string {
    (if a.isUnique then " (UK)" else "") + (if a.isNotNull then " (NN)" else "")
  }

  /**
   * The label is the key marks (LINK for a foreign key, then KEY for a
   * primary key), then name ": " type, then the constraint notes (" (UK)"
   * for unique, then " (NN)" for not null).
   */
  lemma AttributeLabelForm(a: Attribute)
    ensures AttributeLabel(a) == KeyMarks(a) + (a.name + ": " + a.attrType) + ConstraintNotes(a)
  {
    var link, key := (if a.isFK then LINK else ""), (if a.isPK then KEY else "");
    var uk, nn := (if a.isUnique then " (UK)" else ""), (if a.isNotNull then " (NN)" else "");
    var base := a.name + ": " + a.attrType;
    var withKey := if a.isPK then KEY + base else base;
    var withLink := if a.isFK then LINK + withKey else withKey;
    var withUnique := if a.isUnique then withLink + " (UK)" else withLink;
    Parser.AppendEmpty(base);
    Parser.AppendEmpty(withKey);
    assert withKey == key + base;
    assert withLink == link + withKey;
    AppendAssoc(link, key, base);
    Parser.AppendEmpty2(withLink);
    assert withUnique == withLink + uk;
    Parser.AppendEmpty2(withUnique);
    AppendAssoc(link + key + base, uk, nn);
  }

  /** The four flags can be read back from the label of an attribute of known name and type. */
  lemma LabelDeterminesFlags(a: Attribute, b: Attribute)
    requires a.name == b.name && a.attrType == b.attrType
    requires AttributeLabel(a) == AttributeLabel(b)
    ensures a == b
  {
    var mid := a.name + ": " + a.attrType;
    var pa, pb := KeyMarks(a), KeyMarks(b);
    var sa, sb := ConstraintNotes(a), ConstraintNotes(b);
    AttributeLabelForm(a);
    AttributeLabelForm(b);
    assert |pa| in {0, 2, 4} && |pb| in {0, 2, 4};
    assert |sa| in {0, 5, 10} && |sb| in {0, 5, 10};
    assert |pa| == |pb| && |sa| == |sb|;
    SliceOfSum(pa, mid, sa);
    SliceOfSum(pb, mid, sb);
    PrefixFlags(a, b);
    SuffixFlags(a, b);
  }

  /** The outer parts of a three-part string are its slices. */
  lemma SliceOfSum(p: string, m: string, q: string)
    ensures (p + m + q)[..|p|] == p && (p + m + q)[|p| + |m|..] == q
  {
    assert p + m + q == p + (m + q);
  }

  lemma PrefixFlags(a: Attribute, b: Attribute)
    requires KeyMarks(a) == KeyMarks(b)
    ensures a.isFK == b.isFK && a.isPK == b.isPK
  {
    var pa := KeyMarks(a);
    if |pa| == 2 {
      assert pa[0] == KeyMarks(b)[0];
    }
  }

  lemma SuffixFlags(a: Attribute, b: Attribute)
    requires ConstraintNotes(a) == ConstraintNotes(b)
    ensures a.isUnique == b.isUnique && a.isNotNull == b.isNotNull
  {
    var sa := ConstraintNotes(a);
    if |sa| == 5 {
      assert sa[2] == ConstraintNotes(b)[2];
    }
  }

  /** The style of a relationship edge: the base style, then crow's-foot ends for the four cardinality types. */
  function ERStyle(t: RelationshipType): (r: string)
    ensures HasPrefix(r, ERBaseStyle)
    ensures r == ERBaseStyle <==> t == Identifying || t == NonIdentifying
  {
    ERBaseStyle + CrowsFeet(t)
  }

  /** The part of the relationship style chosen by the switch on the type. */
  function CrowsFeet(t: RelationshipType): string {
    match t
    case OneToOne => "startArrow=ERone;endArrow=ERone;"
    case OneToMany => "startArrow=ERone;endArrow=ERmany;"
    case ManyToOne => "startArrow=ERmany;endArrow=ERone;"
    case ManyToMany => "startArrow=ERmany;endArrow=ERmany;"
    case _ => ""
  }

  /** The crow's-foot end drawn for a cardinality. */
  function EndOf(cardinality: string): string {
    if cardinality == "M" then "ERmany" else "ERone"
  }

  /** Each end of a cardinality-based relationship shows the cardinality of that side. */
  lemma CrowsFeetShowCardinalities(t: RelationshipType, fromCard: string, toCard: string)
    requires Cardinalities(t) == Some((fromCard, toCard))
    ensures CrowsFeet(t) == "startArrow=" + EndOf(fromCard) + ";endArrow=" + EndOf(toCard) + ";"
  {
    CrowsFeetSpelled();
  }

  /** The four literals of the switch, each spelt out from its two ends. */
  lemma CrowsFeetSpelled()
    ensures "startArrow=ERone;endArrow=ERone;" == "startArrow=" + "ERone" + ";endArrow=" + "ERone" + ";"
    ensures "startArrow=ERone;endArrow=ERmany;" == "startArrow=" + "ERone" + ";endArrow=" + "ERmany" + ";"
    ensures "startArrow=ERmany;endArrow=ERone;" == "startArrow=" + "ERmany" + ";endArrow=" + "ERone" + ";"
    ensures "startArrow=ERmany;endArrow=ERmany;" == "startArrow=" + "ERmany" + ";endArrow=" + "ERmany" + ";"
  {
  }

  /**
   * For every relationship symbol, the edge's start end shows the parsed
   * from-cardinality and its far end the to-cardinality.
   */
  lemma ERStyleShowsCardinalities(symbol: string)
    ensures var (t, fromCard, toCard) := ParseRelationshipSymbol(symbol);
      ERStyle(t) == ERBaseStyle + ("startArrow=" + EndOf(fromCard) + ";endArrow=" + EndOf(toCard) + ";")
  {
    var (t, fromCard, toCard) := ParseRelationshipSymbol(symbol);
    CrowsFeetShowCardinalities(t, fromCard, toCard);
  }

  /** A message type drawn with a dashed line. */
  predicate IsDashed(t: MessageType) {
    t == DashedArrow || t == DashedArrowWithX
  }

  /** A message type drawn with a filled block end. */
  predicate IsBlockEnd(t: MessageType) {
    t == SolidArrowWithX || t == DashedArrowWithX
  }

  /**
   * The style of a message edge; any other type falls back to the solid
   * arrow. The line is dashed and the end is a block independently.
   */
  function MessageStyle(t: MessageType): (r: string)
    ensures r == (if IsBlockEnd(t) then "endArrow=block;endFill=1;html=1;" else "endArrow=classic;html=1;")
                 + (if IsDashed(t) then "dashed=1;" else "")
  {
    match t
    case SolidArrow => "endArrow=classic;html=1;"
    case DashedArrow => "endArrow=classic;html=1;dashed=1;"
    case SolidArrowWithX => "endArrow=block;endFill=1;html=1;"
    case DashedArrowWithX => "endArrow=block;endFill=1;html=1;dashed=1;"
    case _ => "endArrow=classic;html=1;"
  }

  /** The style string the source writes for each named style. */
  function StyleText(s: Style): (r: string)
    ensures s == NoStyle <==> r == ""
  {
    match s
    case NoStyle => ""
    case Swimlane => HeaderStyle
    case AttributeText => AttributeStyle
    case Connector(t) => ERStyle(t)
    case Rectangle => ParticipantStyle
    case Lifeline => LifelineStyle
    case Arrow(t) => MessageStyle(t)
  }

  /**
   * A message edge is dashed exactly for the arrows that start with `--`, and
   * has a block end exactly for the arrows that end with `>>`.
   */
  lemma MessageStyleOfArrow(arrow: string)
    requires arrow in Arrows
    ensures var t := GetMessageType(arrow);
      (IsDashed(t) <==> HasPrefix(arrow, "--")) && (IsBlockEnd(t) <==> HasSuffix(arrow, ">>"))
  {
    if arrow == "->" {
      assert arrow[1] != '-' && arrow[0] != '>';
    } else if arrow == "-->" {
      assert arrow[..2] == "--" && arrow[1] != '>';
    } else if arrow == "->>" {
      assert arrow[1] != '-' && arrow[1..] == ">>";
    } else {
      assert arrow[..2] == "--" && arrow[2..] == ">>";
    }
  }

  // ---------------------------------------------------------------------------
  // Cell ids

  /** The counter value of the first cell after the two default cells. */
  const FirstCellId := 2

  /** An id of one of the six numbered families, carrying counter value n. */
  predicate IdNumbered(id: string, n: nat) {
    || id == "entity_header_" + Decimal(n)
    || id == "attr_" + Decimal(n)
    || id == "relationship_" + Decimal(n)
    || id == "participant_" + Decimal(n)
    || id == "lifeline_" + Decimal(n)
    || id == "message_" + Decimal(n)
  }

  /** The family prefix an id's first letter selects; the six prefixes start with different letters. */
  function PrefixFor(c: char): string {
    match c
    case 'e' => "entity_header_"
    case 'a' => "attr_"
    case 'r' => "relationship_"
    case 'p' => "participant_"
    case 'l' => "lifeline_"
    case _ => "message_"
  }

  lemma NumberedShape(id: string, n: nat)
    requires IdNumbered(id, n)
    ensures |id| > 0 && !('0' <= id[0] <= '9')
    ensures |PrefixFor(id[0])| <= |id| && id[|PrefixFor(id[0])|..] == Decimal(n)
  {
  }

  /** A numbered id determines its counter value. */
  lemma NumberedInjective(id: string, m: nat, n: nat)
    requires IdNumbered(id, m) && IdNumbered(id, n)
    ensures m == n
  {
    NumberedShape(id, m);
    NumberedShape(id, n);
    DecimalInjective(m, n);
  }

  /**
   * A cell list that starts with the two default cells and whose cell at
   * every later position j carries a numbered id with counter value j.
   */
  ghost predicate Numbered(cells: seq<Cell>) {
    && |cells| >= 2 && cells[0].id == "0" && cells[1].id == "1"
    && forall j :: 2 <= j < |cells| ==> IdNumbered(cells[j].id, j)
  }

  /** Ids drawn once each from an incrementing counter are pairwise distinct. */
  lemma NumberedIdsDistinct(cells: seq<Cell>)
    requires Numbered(cells)
    ensures forall i, j :: 0 <= i < j < |cells| ==> cells[i].id != cells[j].id
  {
    forall i, j | 0 <= i < j < |cells|
      ensures cells[i].id != cells[j].id
    {
      if 2 <= i {
        if cells[i].id == cells[j].id {
          NumberedInjective(cells[i].id, i, j);
        }
      } else if 2 <= j {
        NumberedShape(cells[j].id, j);
        assert cells[i].id[0] in "01";
      }
    }
  }

  /** The cells of a list from position `start` of the whole carry the counter values of their positions. */
  ghost predicate NumberedFrom(cells: seq<Cell>, start: nat) {
    forall j :: 0 <= j < |cells| ==> IdNumbered(cells[j].id, start + j)
  }

  lemma NumberedAppend(a: seq<Cell>, b: seq<Cell>, start: nat)
    requires NumberedFrom(a, start) && NumberedFrom(b, start + |a|)
    ensures NumberedFrom(a + b, start)
  {
  }

  lemma NumberedWhole(cells: seq<Cell>)
    requires |cells| >= 2 && cells[..2] == CreateDefaultCells() && NumberedFrom(cells[2..], FirstCellId)
    ensures Numbered(cells)
  {
    assert cells[0] == cells[..2][0] && cells[1] == cells[..2][1];
    forall j | 2 <= j < |cells|
      ensures IdNumbered(cells[j].id, j)
    {
      assert cells[j] == cells[2..][j - 2];
    }
  }

  /** Numbered from `start` as NumberedFrom says, and none of the cells has a source or a target. */
  ghost predicate NumberedNoEnds(cells: seq<Cell>, start: nat) {
    forall j :: 0 <= j < |cells| ==> IdNumbered(cells[j].id, start + j) && cells[j].source == "" && cells[j].target == ""
  }

  lemma NumberedNoEndsSingle(c: Cell, n: nat)
    requires IdNumbered(c.id, n) && c.source == "" && c.target == ""
    ensures NumberedNoEnds([c], n)
  {
    assert [c][0] == c;
  }

  lemma NumberedNoEndsAppend(a: seq<Cell>, b: seq<Cell>, start: nat)
    requires NumberedNoEnds(a, start) && NumberedNoEnds(b, start + |a|)
    ensures NumberedNoEnds(a + b, start)
  {
  }

  lemma NumberedNoEndsNumbered(cells: seq<Cell>, start: nat)
    requires NumberedNoEnds(cells, start)
    ensures NumberedFrom(cells, start)
  {
  }

  /** A cell that an edge can point to: an earlier vertex with that id. */
  ghost predicate EarlierVertex(cells: seq<Cell>, j: int, id: string) {
    exists a :: 0 <= a < j && a < |cells| && cells[a].vertex == "1" && cells[a].id == id
  }

  /** Every cell's source and target, where set, is the id of a vertex cell earlier in the list. */
  ghost predicate EdgesPointBack(cells: seq<Cell>) {
    forall j :: 0 <= j < |cells| ==>
      && (cells[j].source != "" ==> EarlierVertex(cells, j, cells[j].source))
      && (cells[j].target != "" ==> EarlierVertex(cells, j, cells[j].target))
  }

  // ---------------------------------------------------------------------------
  // Indexing into concatenations, stated once for any element type

  lemma IndexLeft<T>(a: seq<T>, b: seq<T>, i: nat)
    requires i < |a|
    ensures (a + b)[i] == a[i]
  {
  }

  lemma IndexRight<T>(a: seq<T>, b: seq<T>, j: nat, i: nat)
    requires j == |a| + i && i < |b|
    ensures (a + b)[j] == b[i]
  {
  }

  lemma DropPrefix<T>(a: seq<T>, rest: seq<T>, whole: seq<T>)
    requires whole == a + rest
    ensures whole[|a|..] == rest
  {
  }

  lemma PrefixOfPrefix<T>(s: seq<T>, m: nat, k: nat)
    requires k <= m <= |s|
    ensures s[..m][..k] == s[..k] && (k < m ==> s[..m][k] == s[k])
  {
  }

  lemma PrefixOfSum<T>(a: seq<T>, b: seq<T>, whole: seq<T>)
    requires whole == a + b
    ensures a <= whole
  {
  }

  lemma PrefixChain<T>(a: seq<T>, b: seq<T>, c: seq<T>)
    requires a <= b && b <= c
    ensures a <= c
  {
  }

  lemma PrefixIndex<T>(a: seq<T>, b: seq<T>, i: nat)
    requires a <= b && i < |a|
    ensures i < |b| && b[i] == a[i]
  {
  }
}
