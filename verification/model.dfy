/**
 * The diagram AST shared by the parsers and the generators: a closed sum of
 * the two dialects, sequence and entity-relationship.
 */
module Model {

  datatype DiagramType = SequenceDiagramType | ERDiagramType

  datatype Participant = Participant(name: string, alias: string)

  datatype MessageType = SolidArrow | DashedArrow | SolidArrowWithX | DashedArrowWithX | Note

  /** The source's Activate/Deactivate flags are never set and are not part of this record. */
  datatype Message = Message(from: string, to: string, text: string, msgType: MessageType)

  datatype SequenceDiagram = SequenceDiagram(participants: seq<Participant>, messages: seq<Message>)

  datatype Attribute = Attribute(
    name: string,
    attrType: string,
    isPK: bool,
    isFK: bool,
    isUnique: bool,
    isNotNull: bool)

  datatype Entity = Entity(name: string, attributes: seq<Attribute>)

  datatype RelationshipType = OneToOne | OneToMany | ManyToOne | ManyToMany | Identifying | NonIdentifying

  datatype Relationship = Relationship(
    from: string,
    to: string,
    relType: RelationshipType,
    fromCardinality: string,
    toCardinality: string,
    labelText: string)

  datatype ERDiagram = ERDiagram(entities: seq<Entity>, relationships: seq<Relationship>)

  /** The Diagram interface: exactly one of the two dialects. */
  datatype Diagram = Sequence(sequence: SequenceDiagram) | EntityRelationship(er: ERDiagram)
  {
    function GetType(): (t: DiagramType)
      ensures t == ERDiagramType <==> EntityRelationship?
    {
      match this
      case Sequence(_) => SequenceDiagramType
      case EntityRelationship(_) => ERDiagramType
    }
  }
}
