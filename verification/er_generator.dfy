/**
 * GenerateERDrawIOXML of internal/drawio/generator.go: entity blocks on a
 * three-column grid, then one edge per relationship whose ends both name an
 * entity. The method is proved equal to ERCells; the layout, count, id and
 * edge properties are proved about ERCells.
 */
module ERGenerator {
  import opened Options
  import opened Text
  import opened Model
  import opened Generator
  import Parser

  /**
   * The grid position of the k-th entity: three per row, row-major, 300
   * points apart from (50, 50). The layout functions below spell out the
   * numbers; the method uses the named constants as the source does.
   */
  function EntityX(k: nat): int {
    50 + 300 * (k % 3)
  }

  function EntityY(k: nat): int {
    50 + 300 * (k / 3)
  }

  function HeaderId(n: nat): string {
    "entity_header_" + Decimal(n)
  }

  /** The header of the k-th entity, drawn with counter value n. */
  function HeaderCell(e: Entity, k: nat, n: nat): Cell {
    Cell(HeaderId(n), e.name, Swimlane, "1", "", "1", "", "",
      Some(Geometry(Some(EntityX(k)), Some(EntityY(k)), Some(200), Some(30 + 20 * |e.attributes|))))
  }

  /**
   * The row of attribute i of the k-th entity, whose header has counter
   * value n: counter value n + 1 + i, under the header, 30 plus 20 times i
   * below the header's top.
   */
  function AttributeCell(e: Entity, k: nat, n: nat, i: nat): Cell
    requires i < |e.attributes|
  {
    Cell("attr_" + Decimal(n + 1 + i), AttributeLabel(e.attributes[i]), AttributeText, "1", "", HeaderId(n), "", "",
      Some(Geometry(None, Some(EntityY(k) + 30 + 20 * i), Some(200), Some(20))))
  }

  /** The rows of the first `count` attributes of the k-th entity, whose header has counter value n. */
  function AttributeRows(e: Entity, k: nat, n: nat, count: nat): (r: seq<Cell>)
    requires count <= |e.attributes|
    ensures |r| == count
  {
    if count == 0 then []
    else
      AttributeRows(e, k, n, count - 1)
        + [AttributeCell(e, k, n, count - 1)]
  }

  /** The cells of the k-th entity: its header, then one row per attribute in declaration order. */
  function EntityCells(e: Entity, k: nat, n: nat): (r: seq<Cell>)
    ensures |r| == 1 + |e.attributes|
  {
    [HeaderCell(e, k, n)] + AttributeRows(e, k, n, |e.attributes|)
  }

  /** The number of cells the entities take: one header each plus one per attribute. */
  function CellCount(es: seq<Entity>): nat {
    if es == [] then 0 else CellCount(es[..|es| - 1]) + 1 + |es[|es| - 1].attributes|
  }

  /** The entity cells, block after block in entity order, counted from FirstCellId. */
  function EntitiesCells(es: seq<Entity>): (r: seq<Cell>)
    ensures |r| == CellCount(es)
  {
    if es == [] then []
    else
      var init := es[..|es| - 1];
      EntitiesCells(init) + EntityCells(es[|es| - 1], |init|, FirstCellId + CellCount(init))
  }

  /** The name-to-header-id map; a later entity of the same name overwrites the earlier one. */
  function EntityIds(es: seq<Entity>): map<string, string> {
    if es == [] then map[]
    else
      var init := es[..|es| - 1];
      EntityIds(init)[es[|es| - 1].name := HeaderId(FirstCellId + CellCount(init))]
  }

  /** The relationships that get an edge, in input order. */
  function KeptRelationships(rs: seq<Relationship>, ids: map<string, string>): (r: seq<Relationship>)
    ensures |r| <= |rs|
  {
    if rs == [] then []
    else
      var init, last := rs[..|rs| - 1], rs[|rs| - 1];
      KeptRelationships(init, ids) + if Connected(ids, last.from, last.to) then [last] else []
  }

  function RelationshipCell(r: Relationship, ids: map<string, string>, n: nat): Cell {
    Cell("relationship_" + Decimal(n), r.labelText, Connector(r.relType), "", "1", "1",
      Lookup(ids, r.from), Lookup(ids, r.to), NoGeometry)
  }

  /** One edge per kept relationship, counted on from n. */
  function RelationshipCells(rs: seq<Relationship>, ids: map<string, string>, n: nat): (r: seq<Cell>)
    ensures |r| == |KeptRelationships(rs, ids)|
  {
    if rs == [] then []
    else
      var init, last := rs[..|rs| - 1], rs[|rs| - 1];
      RelationshipCells(init, ids, n)
        + if Connected(ids, last.from, last.to) then [RelationshipCell(last, ids, n + |KeptRelationships(init, ids)|)] else []
  }

  /** The whole cell list of an ER diagram. */
  function ERCells(d: ERDiagram): (r: seq<Cell>)
    ensures |r| == FirstCellId + CellCount(d.entities) + |KeptRelationships(d.relationships, EntityIds(d.entities))|
    ensures r[..2] == CreateDefaultCells()
  {
    CreateDefaultCells() + EntitiesCells(d.entities)
      + RelationshipCells(d.relationships, EntityIds(d.entities), FirstCellId + CellCount(d.entities))
  }

  /** ERCells from its two computed parts. */
  lemma ERCellsParts(d: ERDiagram, entityBlocks: seq<Cell>, edges: seq<Cell>)
    requires entityBlocks == EntitiesCells(d.entities)
    requires edges == RelationshipCells(d.relationships, EntityIds(d.entities), FirstCellId + CellCount(d.entities))
    ensures ERCells(d) == CreateDefaultCells() + entityBlocks + edges
  {
  }

  /**
   * GenerateERDrawIOXML up to marshalling: entity blocks on a three-column
   * grid, then one edge per relationship whose both ends name an entity.
   * The body of each of the source's two loops is its own method here
   * (EmitEntity, EmitRelationship); the counter, the grid position, the
   * name-to-id map and the cell list are threaded exactly as in the source.
   */
  method GenerateERDrawIOXML(diagram: ERDiagram) returns (model: GraphModel)
    ensures model == CreateBaseModel().(cells := ERCells(diagram))
  {
    model := CreateBaseModel();
    var cells := CreateDefaultCells();
    var cellID: nat := FirstCellId;
    var entityCells: map<string, string> := map[];
    var currentRow: nat := 0;
    var currentCol: nat := 0;
    var es := diagram.entities;
    NoEntitiesYet(es);
    for k := 0 to |es|
      invariant cells == CreateDefaultCells() + EntitiesCells(es[..k])
      invariant cellID == FirstCellId + CellCount(es[..k])
      invariant entityCells == EntityIds(es[..k])
      invariant currentCol < EntitiesPerRow && k == currentRow * EntitiesPerRow + currentCol
    {
      var entity := es[k];
      var x := StartX + currentCol * EntitySpacing;
      var y := StartY + currentRow * EntitySpacing;
      GridPosition(k, currentCol, currentRow);
      ghost var before := cells;
      ghost var n := cellID;
      var block, headerID := EmitEntity(entity, k, x, y, cellID);
      entityCells := entityCells[entity.name := headerID];
      cells := cells + block;
      cellID := cellID + |block|;
      currentCol, currentRow := NextGridCell(k, currentCol, currentRow);
      EntityAppended(es, k, n, before, block, cells);
      CellCountStep(es, k);
      EntityIdsStep(es, k);
    }
    var rs := diagram.relationships;
    ghost var base := FirstCellId + CellCount(es);
    ghost var entityPart := cells;
    AllEntities(es, entityCells, cellID, cells);
    NoRelationshipsYet(rs, entityCells, base, entityPart);
    for j := 0 to |rs|
      invariant cells == entityPart + RelationshipCells(rs[..j], entityCells, base)
      invariant cellID == base + |KeptRelationships(rs[..j], entityCells)|
    {
      ghost var before := cells;
      ghost var m := cellID;
      var edge := EmitRelationship(rs[j], entityCells, cellID);
      cells := cells + edge;
      cellID := cellID + |edge|;
      RelationshipStepped(rs, j, entityCells, base, entityPart, before, m, edge, cells);
    }
    AllRelationships(diagram, entityCells, base, entityPart, cells);
    model := model.(cells := cells);
  }

  /**
   * The column and row after placing the k-th entity: one column to the
   * right, wrapping to the next row after three.
   */
  method NextGridCell(k: nat, col: nat, row: nat) returns (col': nat, row': nat)
    requires col < EntitiesPerRow && k == row * EntitiesPerRow + col
    ensures col' < EntitiesPerRow && k + 1 == row' * EntitiesPerRow + col'
    ensures StartX + col' * EntitySpacing == EntityX(k + 1) && StartY + row' * EntitySpacing == EntityY(k + 1)
  {
    col', row' := col + 1, row;
    if col' >= EntitiesPerRow {
      col', row' := 0, row + 1;
    }
    GridPosition(k + 1, col', row');
  }

  /**
   * The cells of one entity: its header at (x, y) with id counter n, then one
   * row per attribute with the following counter values.
   */
  method EmitEntity(entity: Entity, k: nat, x: int, y: int, n: nat) returns (block: seq<Cell>, headerID: string)
    requires x == EntityX(k) && y == EntityY(k)
    ensures block == EntityCells(entity, k, n)
    ensures headerID == HeaderId(n)
  {
    var cellID := n;
    var totalHeight := EntityHeight + |entity.attributes| * AttributeHeight;
    headerID := "entity_header_" + Decimal(cellID);
    var headerCell := Cell(headerID, entity.name, Swimlane, "1", "", "1", "", "",
      Some(Geometry(Some(x), Some(y), Some(EntityWidth), Some(totalHeight))));
    assert headerCell == HeaderCell(entity, k, n);
    block := [headerCell];
    cellID := cellID + 1;
    for i := 0 to |entity.attributes|
      invariant block == [HeaderCell(entity, k, n)] + AttributeRows(entity, k, n, i)
      invariant cellID == n + 1 + i
    {
      var attr := entity.attributes[i];
      var attrY := y + EntityHeight + i * AttributeHeight;
      var attrID := "attr_" + Decimal(cellID);
      var attrText := AttributeLabel(attr);
      var attrCell := Cell(attrID, attrText, AttributeText, "1", "", headerID, "", "",
        Some(Geometry(None, Some(attrY), Some(EntityWidth), Some(AttributeHeight))));
      assert attrCell == AttributeCell(entity, k, n, i);
      AttributeAppended([HeaderCell(entity, k, n)], entity, k, n, i);
      block := block + [attrCell];
      cellID := cellID + 1;
    }
  }

  /**
   * The edge of one relationship, counted n, or nothing when one of its ends
   * names no entity (the source skips it without consuming an id).
   */
  method EmitRelationship(relationship: Relationship, entityCells: map<string, string>, n: nat)
    returns (edge: seq<Cell>)
    ensures Connected(entityCells, relationship.from, relationship.to) ==> edge == [RelationshipCell(relationship, entityCells, n)]
    ensures !Connected(entityCells, relationship.from, relationship.to) ==> edge == []
  {
    var fromID := Lookup(entityCells, relationship.from);
    var toID := Lookup(entityCells, relationship.to);
    if fromID == "" || toID == "" {
      return [];
    }
    var style := Connector(relationship.relType);
    var relationshipCell := Cell("relationship_" + Decimal(n), relationship.labelText, style, "", "1", "1",
      fromID, toID, NoGeometry);
    edge := [relationshipCell];
  }

  lemma NoEntitiesYet(es: seq<Entity>)
    ensures CreateDefaultCells() == CreateDefaultCells() + EntitiesCells(es[..0])
    ensures CellCount(es[..0]) == 0 && EntityIds(es[..0]) == map[]
  {
    assert es[..0] == [];
  }

  lemma AttributeAppended(prefix: seq<Cell>, e: Entity, k: nat, n: nat, i: nat)
    requires i < |e.attributes|
    ensures prefix + AttributeRows(e, k, n, i) + [AttributeCell(e, k, n, i)]
         == prefix + AttributeRows(e, k, n, i + 1)
  {
    AppendAssoc(prefix, AttributeRows(e, k, n, i), [AttributeCell(e, k, n, i)]);
  }

  lemma EntityAppended(es: seq<Entity>, k: nat, n: nat, before: seq<Cell>, block: seq<Cell>, cells: seq<Cell>)
    requires k < |es| && n == FirstCellId + CellCount(es[..k])
    requires before == CreateDefaultCells() + EntitiesCells(es[..k])
    requires block == EntityCells(es[k], k, n) && cells == before + block
    ensures cells == CreateDefaultCells() + EntitiesCells(es[..k + 1])
  {
    EntitiesCellsStep(es, k);
    AppendAssoc(CreateDefaultCells(), EntitiesCells(es[..k]), EntityCells(es[k], k, n));
  }

  lemma AllEntities(es: seq<Entity>, ids: map<string, string>, cellID: nat, cells: seq<Cell>)
    requires cells == CreateDefaultCells() + EntitiesCells(es[..|es|])
    requires cellID == FirstCellId + CellCount(es[..|es|])
    requires ids == EntityIds(es[..|es|])
    ensures cells == CreateDefaultCells() + EntitiesCells(es)
    ensures cellID == FirstCellId + CellCount(es) && ids == EntityIds(es)
  {
    assert es[..|es|] == es;
  }

  lemma NoRelationshipsYet(rs: seq<Relationship>, ids: map<string, string>, n: nat, cells: seq<Cell>)
    ensures cells == cells + RelationshipCells(rs[..0], ids, n)
    ensures KeptRelationships(rs[..0], ids) == []
  {
    assert rs[..0] == [];
  }

  lemma RelationshipStepped(rs: seq<Relationship>, j: nat, ids: map<string, string>, n: nat,
                            prefix: seq<Cell>, before: seq<Cell>, m: nat, edge: seq<Cell>, cells: seq<Cell>)
    requires j < |rs| && m == n + |KeptRelationships(rs[..j], ids)|
    requires before == prefix + RelationshipCells(rs[..j], ids, n)
    requires Connected(ids, rs[j].from, rs[j].to) ==> edge == [RelationshipCell(rs[j], ids, m)]
    requires !Connected(ids, rs[j].from, rs[j].to) ==> edge == []
    requires cells == before + edge
    ensures cells == prefix + RelationshipCells(rs[..j + 1], ids, n)
    ensures m + |edge| == n + |KeptRelationships(rs[..j + 1], ids)|
  {
    RelationshipsStep(rs, j, ids, n);
    AppendAssoc(prefix, RelationshipCells(rs[..j], ids, n), edge);
  }

  lemma AllRelationships(d: ERDiagram, ids: map<string, string>, base: nat, entityPart: seq<Cell>, cells: seq<Cell>)
    requires ids == EntityIds(d.entities) && base == FirstCellId + CellCount(d.entities)
    requires entityPart == CreateDefaultCells() + EntitiesCells(d.entities)
    requires cells == entityPart + RelationshipCells(d.relationships[..|d.relationships|], ids, base)
    ensures cells == ERCells(d)
  {
    var rs := d.relationships;
    assert rs[..|rs|] == rs;
    ERCellsParts(d, EntitiesCells(d.entities), RelationshipCells(rs, ids, base));
  }

  /** The column and row the source tracks are the remainder and quotient of the entity's index by three. */
  lemma GridPosition(k: nat, col: int, row: int)
    requires 0 <= col < EntitiesPerRow && k == row * EntitiesPerRow + col
    ensures StartX + col * EntitySpacing == EntityX(k) && StartY + row * EntitySpacing == EntityY(k)
  {
  }

  /** One more entity appends its block, */
  lemma EntitiesCellsStep(es: seq<Entity>, k: nat)
    requires k < |es|
    ensures EntitiesCells(es[..k + 1]) == EntitiesCells(es[..k]) + EntityCells(es[k], k, FirstCellId + CellCount(es[..k]))
  {
    var s := es[..k + 1];
    assert s[..|s| - 1] == es[..k] && s[|s| - 1] == es[k];
  }

  /** grows the count by the block's size */
  lemma CellCountStep(es: seq<Entity>, k: nat)
    requires k < |es|
    ensures CellCount(es[..k + 1]) == CellCount(es[..k]) + 1 + |es[k].attributes|
  {
    var s := es[..k + 1];
    assert s[..|s| - 1] == es[..k] && s[|s| - 1] == es[k];
  }

  /** and maps its name to its header id. */
  lemma EntityIdsStep(es: seq<Entity>, k: nat)
    requires k < |es|
    ensures EntityIds(es[..k + 1]) == EntityIds(es[..k])[es[k].name := HeaderId(FirstCellId + CellCount(es[..k]))]
  {
    var s := es[..k + 1];
    assert s[..|s| - 1] == es[..k] && s[|s| - 1] == es[k];
  }

  /** One more relationship appends its edge exactly when both its ends are registered. */
  lemma RelationshipsStep(rs: seq<Relationship>, j: nat, ids: map<string, string>, n: nat)
    requires j < |rs|
    ensures var r := rs[j];
      var kept := KeptRelationships(rs[..j], ids);
      if Connected(ids, r.from, r.to) then
        && KeptRelationships(rs[..j + 1], ids) == kept + [r]
        && RelationshipCells(rs[..j + 1], ids, n) == RelationshipCells(rs[..j], ids, n) + [RelationshipCell(r, ids, n + |kept|)]
      else
        && KeptRelationships(rs[..j + 1], ids) == kept
        && RelationshipCells(rs[..j + 1], ids, n) == RelationshipCells(rs[..j], ids, n)
  {
    assert rs[..j + 1][..j] == rs[..j];
  }

  // ---------------------------------------------------------------------------
  // Where each cell lies in ERCells

  /** The i-th attribute row of an entity block. */
  lemma {:induction false} AttributeRowAt(e: Entity, k: nat, n: nat, count: nat, i: nat)
    requires i < count <= |e.attributes|
    ensures AttributeRows(e, k, n, count)[i] == AttributeCell(e, k, n, i)
    decreases count
  {
    if i < count - 1 {
      AttributeRowAt(e, k, n, count - 1, i);
    }
  }

  /** The cells of the first m entities are a prefix of the cells of all of them. */
  lemma {:induction false} EntitiesCellsGrow(es: seq<Entity>, m: nat)
    requires m <= |es|
    ensures EntitiesCells(es[..m]) <= EntitiesCells(es)
    decreases |es| - m
  {
    if m == |es| {
      assert es[..m] == es;
    } else {
      EntitiesCellsGrow(es, m + 1);
      OneMoreEntity(es, m);
      PrefixChain(EntitiesCells(es[..m]), EntitiesCells(es[..m + 1]), EntitiesCells(es));
    }
  }

  lemma OneMoreEntity(es: seq<Entity>, k: nat)
    requires k < |es|
    ensures EntitiesCells(es[..k]) <= EntitiesCells(es[..k + 1])
  {
    EntitiesCellsStep(es, k);
    PrefixOfSum(EntitiesCells(es[..k]), EntityCells(es[k], k, FirstCellId + CellCount(es[..k])), EntitiesCells(es[..k + 1]));
  }

  /** The block of the k-th entity starts at offset CellCount(es[..k]) of EntitiesCells(es). */
  lemma EntityBlockAt(es: seq<Entity>, k: nat, t: nat, r: nat)
    requires k < |es| && t < 1 + |es[k].attributes| && r == CellCount(es[..k]) + t
    ensures r < CellCount(es)
    ensures EntitiesCells(es)[r] == EntityCells(es[k], k, FirstCellId + CellCount(es[..k]))[t]
  {
    var block := EntityCells(es[k], k, FirstCellId + CellCount(es[..k]));
    EntitiesCellsStep(es, k);
    CellCountStep(es, k);
    CellCountMonotone(es, k + 1);
    EntitiesCellsGrow(es, k + 1);
    IndexRight(EntitiesCells(es[..k]), block, r, t);
    PrefixIndex(EntitiesCells(es[..k + 1]), EntitiesCells(es), r);
  }

  lemma {:induction false} CellCountMonotone(es: seq<Entity>, k: nat)
    requires k <= |es|
    ensures CellCount(es[..k]) <= CellCount(es)
    decreases |es|
  {
    if k < |es| {
      var init := es[..|es| - 1];
      CellCountMonotone(init, k);
      assert init[..k] == es[..k];
    } else {
      assert es[..k] == es;
    }
  }

  /** After the two default cells, ERCells continues with the entity cells. */
  lemma EntityPartOfER(d: ERDiagram, i: nat, j: nat)
    requires i < CellCount(d.entities) && j == FirstCellId + i
    ensures j < |ERCells(d)| && ERCells(d)[j] == EntitiesCells(d.entities)[i]
  {
    var es := d.entities;
    IndexLeft(CreateDefaultCells() + EntitiesCells(es), RelationshipCells(d.relationships, EntityIds(es), FirstCellId + CellCount(es)), j);
    IndexRight(CreateDefaultCells(), EntitiesCells(es), j, i);
  }

  /** The k-th entity's header sits at index p of ERCells. */
  lemma HeaderAt(d: ERDiagram, k: nat, p: nat)
    requires k < |d.entities| && p == FirstCellId + CellCount(d.entities[..k])
    ensures p < |ERCells(d)| && ERCells(d)[p] == HeaderCell(d.entities[k], k, p)
  {
    EntityBlockAt(d.entities, k, 0, p - FirstCellId);
    EntityPartOfER(d, p - FirstCellId, p);
    BlockHeader(d.entities[k], k, p);
  }

  /** Its attribute i sits at index j = p + 1 + i. */
  lemma AttributeAt(d: ERDiagram, k: nat, i: nat, p: nat, j: nat)
    requires k < |d.entities| && i < |d.entities[k].attributes|
    requires p == FirstCellId + CellCount(d.entities[..k]) && j == p + 1 + i
    ensures j < |ERCells(d)| && ERCells(d)[j] == AttributeCell(d.entities[k], k, p, i)
  {
    RowInEntities(d.entities, k, i, p - FirstCellId + 1 + i);
    EntityPartOfER(d, p - FirstCellId + 1 + i, j);
  }

  lemma RowInEntities(es: seq<Entity>, k: nat, i: nat, r: nat)
    requires k < |es| && i < |es[k].attributes| && r == CellCount(es[..k]) + 1 + i
    ensures r < CellCount(es) && EntitiesCells(es)[r] == AttributeCell(es[k], k, FirstCellId + CellCount(es[..k]), i)
  {
    EntityBlockAt(es, k, 1 + i, r);
    BlockRow(es[k], k, FirstCellId + CellCount(es[..k]), i);
  }

  lemma BlockHeader(e: Entity, k: nat, n: nat)
    ensures EntityCells(e, k, n)[0] == HeaderCell(e, k, n)
  {
    IndexLeft([HeaderCell(e, k, n)], AttributeRows(e, k, n, |e.attributes|), 0);
  }

  lemma BlockRow(e: Entity, k: nat, n: nat, i: nat)
    requires i < |e.attributes|
    ensures EntityCells(e, k, n)[1 + i] == AttributeCell(e, k, n, i)
  {
    IndexRight([HeaderCell(e, k, n)], AttributeRows(e, k, n, |e.attributes|), 1 + i, i);
    AttributeRowAt(e, k, n, |e.attributes|, i);
  }

  // ---------------------------------------------------------------------------
  // Layout of the entity blocks

  /**
   * The k-th entity's header: labelled with the entity's name, parent "1",
   * at column k mod 3 and row k div 3 of a 300-point grid from (50, 50),
   * 200 wide and 30 plus 20 per attribute high.
   */
  lemma ERHeaderPlacement(d: ERDiagram, k: nat)
    requires k < |d.entities|
    ensures var e, p := d.entities[k], FirstCellId + CellCount(d.entities[..k]);
      && p < |ERCells(d)|
      && ERCells(d)[p].id == HeaderId(p)
      && ERCells(d)[p].value == e.name
      && ERCells(d)[p].style == Swimlane && ERCells(d)[p].vertex == "1" && ERCells(d)[p].edge == ""
      && ERCells(d)[p].parent == "1"
      && ERCells(d)[p].geometry == Some(Geometry(Some(EntityX(k)), Some(EntityY(k)), Some(200), Some(30 + 20 * |e.attributes|)))
  {
    HeaderAt(d, k, FirstCellId + CellCount(d.entities[..k]));
  }

  /**
   * Attribute i of the k-th entity comes directly after the header and the
   * attributes before it; its parent is the header, it is 200 by 20 and sits
   * 30 plus 20 times i below the header's top; its label is AttributeLabel.
   */
  lemma ERAttributePlacement(d: ERDiagram, k: nat, i: nat)
    requires k < |d.entities| && i < |d.entities[k].attributes|
    ensures var e, p := d.entities[k], FirstCellId + CellCount(d.entities[..k]);
      && p + 1 + i < |ERCells(d)|
      && ERCells(d)[p + 1 + i].id == "attr_" + Decimal(p + 1 + i)
      && ERCells(d)[p + 1 + i].value == AttributeLabel(e.attributes[i])
      && ERCells(d)[p + 1 + i].style == AttributeText && ERCells(d)[p + 1 + i].vertex == "1"
      && ERCells(d)[p + 1 + i].parent == ERCells(d)[p].id
      && ERCells(d)[p + 1 + i].geometry == Some(Geometry(None, Some(EntityY(k) + 30 + 20 * i), Some(200), Some(20)))
  {
    var p := FirstCellId + CellCount(d.entities[..k]);
    HeaderAt(d, k, p);
    AttributeAt(d, k, i, p, p + 1 + i);
    AttributeFields(ERCells(d), d.entities[k], k, p, i);
  }

  /** The fields of an attribute row placed after its header. */
  lemma AttributeFields(cells: seq<Cell>, e: Entity, k: nat, p: nat, i: nat)
    requires i < |e.attributes| && p + 1 + i < |cells|
    requires cells[p] == HeaderCell(e, k, p) && cells[p + 1 + i] == AttributeCell(e, k, p, i)
    ensures && cells[p + 1 + i].id == "attr_" + Decimal(p + 1 + i)
      && cells[p + 1 + i].value == AttributeLabel(e.attributes[i])
      && cells[p + 1 + i].style == AttributeText && cells[p + 1 + i].vertex == "1"
      && cells[p + 1 + i].parent == cells[p].id
      && cells[p + 1 + i].geometry == Some(Geometry(None, Some(EntityY(k) + 30 + 20 * i), Some(200), Some(20)))
  {
  }

  // ---------------------------------------------------------------------------
  // Relationship edges

  /** The t-th edge is drawn for the t-th kept relationship with counter value n + t. */
  lemma {:induction false} RelationshipCellAt(rs: seq<Relationship>, ids: map<string, string>, n: nat, t: nat)
    requires t < |KeptRelationships(rs, ids)|
    ensures RelationshipCells(rs, ids, n)[t] == RelationshipCell(KeptRelationships(rs, ids)[t], ids, n + t)
    decreases |rs|
  {
    var init, last := rs[..|rs| - 1], rs[|rs| - 1];
    var keptTail := if Connected(ids, last.from, last.to) then [last] else [];
    var cellTail := if Connected(ids, last.from, last.to) then [RelationshipCell(last, ids, n + |KeptRelationships(init, ids)|)] else [];
    if t < |KeptRelationships(init, ids)| {
      RelationshipCellAt(init, ids, n, t);
      IndexLeft(RelationshipCells(init, ids, n), cellTail, t);
      IndexLeft(KeptRelationships(init, ids), keptTail, t);
    } else {
      IndexRight(RelationshipCells(init, ids, n), cellTail, t, 0);
      IndexRight(KeptRelationships(init, ids), keptTail, t, 0);
    }
  }

  /** A relationship keeps its edge exactly when both its ends are registered. */
  lemma {:induction false} KeptMembership(rs: seq<Relationship>, ids: map<string, string>, r: Relationship)
    ensures r in KeptRelationships(rs, ids) <==> r in rs && Connected(ids, r.from, r.to)
    decreases |rs|
  {
    if rs != [] {
      var init, last := rs[..|rs| - 1], rs[|rs| - 1];
      KeptMembership(init, ids, r);
      Parser.LastSplit(rs);
    }
  }

  // ---------------------------------------------------------------------------
  // The name-to-header map

  /** Every entity name is registered. */
  lemma {:induction false} EntityNameRegistered(es: seq<Entity>, k: nat)
    requires k < |es|
    ensures es[k].name in EntityIds(es)
    decreases |es|
  {
    var init := es[..|es| - 1];
    if k < |es| - 1 {
      EntityNameRegistered(init, k);
    }
  }

  /**
   * A registered name maps to the header of an entity of that name: the
   * last one, since a later entity of the same name overwrites the entry.
   */
  lemma {:induction false} EntityIdsLast(es: seq<Entity>, k: nat)
    requires k < |es|
    requires forall k' :: k < k' < |es| ==> es[k'].name != es[k].name
    ensures es[k].name in EntityIds(es) && EntityIds(es)[es[k].name] == HeaderId(FirstCellId + CellCount(es[..k]))
    decreases |es|
  {
    var init := es[..|es| - 1];
    EntityNameRegistered(es, k);
    PrefixOfPrefix(es, |es| - 1, k);
    if k < |es| - 1 {
      EntityIdsLast(init, k);
    }
  }

  /** Only entity names are registered, each to the header of an entity of that name. */
  lemma {:induction false} EntityIdsHeader(es: seq<Entity>, name: string)
    requires name in EntityIds(es)
    ensures exists k :: 0 <= k < |es| && es[k].name == name && EntityIds(es)[name] == HeaderId(FirstCellId + CellCount(es[..k]))
    decreases |es|
  {
    var init := es[..|es| - 1];
    if es[|es| - 1].name == name {
      assert es[..|es| - 1] == init;
    } else {
      EntityIdsHeader(init, name);
      var k :| 0 <= k < |init| && init[k].name == name && EntityIds(init)[name] == HeaderId(FirstCellId + CellCount(init[..k]));
      PrefixOfPrefix(es, |es| - 1, k);
    }
  }

  /** A name is registered exactly when some entity has it, and it then maps to a non-empty id. */
  lemma RegisteredIffDeclared(es: seq<Entity>, name: string)
    ensures name in EntityIds(es) <==> exists k :: 0 <= k < |es| && es[k].name == name
    ensures name in EntityIds(es) ==> EntityIds(es)[name] != ""
  {
    if name in EntityIds(es) {
      EntityIdsHeader(es, name);
    }
    if k :| 0 <= k < |es| && es[k].name == name {
      EntityNameRegistered(es, k);
    }
  }

  /**
   * A relationship gets an edge exactly when both its ends name an entity
   * of the diagram.
   */
  lemma ConnectedIffDeclared(es: seq<Entity>, from: string, to: string)
    ensures Connected(EntityIds(es), from, to)
        <==> (exists k :: 0 <= k < |es| && es[k].name == from) && (exists k :: 0 <= k < |es| && es[k].name == to)
  {
    RegisteredIffDeclared(es, from);
    RegisteredIffDeclared(es, to);
  }

  // ---------------------------------------------------------------------------
  // Whole-list properties

  /** With no entity registered, no relationship is kept. */
  lemma {:induction false} NothingKept(rs: seq<Relationship>)
    ensures KeptRelationships(rs, map[]) == []
    decreases |rs|
  {
    if rs != [] {
      NothingKept(rs[..|rs| - 1]);
    }
  }

  /** A diagram without entities is drawn as the two default cells alone, whatever its relationships. */
  lemma ERNoEntities(d: ERDiagram)
    requires d.entities == []
    ensures ERCells(d) == CreateDefaultCells()
  {
    NothingKept(d.relationships);
    assert EntityIds(d.entities) == map[];
  }

  /** The t-th kept relationship's edge sits at index j = base + t, right after all entity cells. */
  lemma ERRelationshipAt(d: ERDiagram, t: nat, j: nat)
    requires t < |KeptRelationships(d.relationships, EntityIds(d.entities))|
    requires j == FirstCellId + CellCount(d.entities) + t
    ensures j < |ERCells(d)|
    ensures ERCells(d)[j] == RelationshipCell(KeptRelationships(d.relationships, EntityIds(d.entities))[t], EntityIds(d.entities), j)
  {
    var es, ids := d.entities, EntityIds(d.entities);
    var base := FirstCellId + CellCount(es);
    RelationshipCellAt(d.relationships, ids, base, t);
    IndexRight(CreateDefaultCells() + EntitiesCells(es), RelationshipCells(d.relationships, ids, base), j, t);
  }

  /**
   * The edges come after the entity cells, one per kept relationship in
   * input order: the t-th is labelled with its relationship's label, drawn
   * in the style of its type, and runs from the header registered for its
   * from-name to the one registered for its to-name, both of which exist.
   */
  lemma EREdge(d: ERDiagram, t: nat)
    requires t < |KeptRelationships(d.relationships, EntityIds(d.entities))|
    ensures var ids, j := EntityIds(d.entities), FirstCellId + CellCount(d.entities) + t;
      var r := KeptRelationships(d.relationships, ids)[t];
      && r in d.relationships
      && j < |ERCells(d)|
      && ERCells(d)[j].id == "relationship_" + Decimal(j)
      && ERCells(d)[j].value == r.labelText
      && ERCells(d)[j].style == Connector(r.relType) && ERCells(d)[j].edge == "1" && ERCells(d)[j].vertex == ""
      && ERCells(d)[j].parent == "1"
      && r.from in ids && ERCells(d)[j].source == ids[r.from]
      && r.to in ids && ERCells(d)[j].target == ids[r.to]
  {
    var ids := EntityIds(d.entities);
    KeptConnected(d.relationships, ids, t);
    ERRelationshipAt(d, t, FirstCellId + CellCount(d.entities) + t);
  }

  /** A kept relationship is one of the input's, with both ends registered. */
  lemma KeptConnected(rs: seq<Relationship>, ids: map<string, string>, t: nat)
    requires t < |KeptRelationships(rs, ids)|
    ensures var r := KeptRelationships(rs, ids)[t];
      r in rs && r.from in ids && ids[r.from] != "" && r.to in ids && ids[r.to] != ""
  {
    KeptMembership(rs, ids, KeptRelationships(rs, ids)[t]);
  }

  // ---------------------------------------------------------------------------
  // Ids are distinct

  lemma AttributeRowsNumbered(e: Entity, k: nat, n: nat, count: nat)
    requires count <= |e.attributes|
    ensures NumberedNoEnds(AttributeRows(e, k, n, count), n + 1)
  {
    var rows := AttributeRows(e, k, n, count);
    forall j | 0 <= j < |rows|
      ensures IdNumbered(rows[j].id, n + 1 + j) && rows[j].source == "" && rows[j].target == ""
    {
      AttributeRowAt(e, k, n, count, j);
    }
  }

  lemma EntityCellsNumbered(e: Entity, k: nat, n: nat)
    ensures NumberedNoEnds(EntityCells(e, k, n), n)
  {
    AttributeRowsNumbered(e, k, n, |e.attributes|);
    assert HeaderCell(e, k, n).id == "entity_header_" + Decimal(n);
    NumberedNoEndsSingle(HeaderCell(e, k, n), n);
    NumberedNoEndsAppend([HeaderCell(e, k, n)], AttributeRows(e, k, n, |e.attributes|), n);
  }

  /** The entity cells carry counter values 2, 3, ... in order and have no ends. */
  lemma {:induction false} EntitiesCellsNumbered(es: seq<Entity>)
    ensures NumberedNoEnds(EntitiesCells(es), FirstCellId)
    decreases |es|
  {
    if es != [] {
      var init := es[..|es| - 1];
      EntitiesCellsNumbered(init);
      EntityCellsNumbered(es[|es| - 1], |init|, FirstCellId + CellCount(init));
      NumberedNoEndsAppend(EntitiesCells(init), EntityCells(es[|es| - 1], |init|, FirstCellId + CellCount(init)), FirstCellId);
    }
  }

  lemma RelationshipCellsNumbered(rs: seq<Relationship>, ids: map<string, string>, n: nat)
    ensures NumberedFrom(RelationshipCells(rs, ids, n), n)
  {
    forall t | 0 <= t < |RelationshipCells(rs, ids, n)|
      ensures IdNumbered(RelationshipCells(rs, ids, n)[t].id, n + t)
    {
      RelationshipCellAt(rs, ids, n, t);
    }
  }

  /**
   * Every cell after the two default ones carries the counter value of its
   * position, so the ids of an ER drawing are pairwise distinct.
   */
  lemma ERIdsDistinct(d: ERDiagram)
    ensures Numbered(ERCells(d))
    ensures forall i, j :: 0 <= i < j < |ERCells(d)| ==> ERCells(d)[i].id != ERCells(d)[j].id
  {
    var es, ids := d.entities, EntityIds(d.entities);
    var blocks := EntitiesCells(es);
    var edges := RelationshipCells(d.relationships, ids, FirstCellId + CellCount(es));
    EntitiesCellsNumbered(es);
    NumberedNoEndsNumbered(blocks, FirstCellId);
    RelationshipCellsNumbered(d.relationships, ids, FirstCellId + CellCount(es));
    NumberedAppend(blocks, edges, FirstCellId);
    AppendAssoc(CreateDefaultCells(), blocks, edges);
    DropPrefix(CreateDefaultCells(), blocks + edges, ERCells(d));
    NumberedWhole(ERCells(d));
    NumberedIdsDistinct(ERCells(d));
  }

  // ---------------------------------------------------------------------------
  // Edges point back

  /** A registered name's id is that of a header drawn before every edge. */
  lemma RegisteredHeaderBefore(d: ERDiagram, name: string, j: nat)
    requires name in EntityIds(d.entities) && FirstCellId + CellCount(d.entities) <= j
    ensures EarlierVertex(ERCells(d), j, EntityIds(d.entities)[name])
  {
    var es := d.entities;
    EntityIdsHeader(es, name);
    var k :| 0 <= k < |es| && es[k].name == name && EntityIds(es)[name] == HeaderId(FirstCellId + CellCount(es[..k]));
    var p := FirstCellId + CellCount(es[..k]);
    HeaderAt(d, k, p);
    EntityBlockAt(es, k, 0, CellCount(es[..k]));
    assert ERCells(d)[p].vertex == "1" && ERCells(d)[p].id == EntityIds(es)[name];
  }

  /** The ends of the cell at index j, where set, are earlier vertices. */
  lemma ERCellEnds(d: ERDiagram, j: nat)
    requires j < |ERCells(d)|
    ensures ERCells(d)[j].source != "" ==> EarlierVertex(ERCells(d), j, ERCells(d)[j].source)
    ensures ERCells(d)[j].target != "" ==> EarlierVertex(ERCells(d), j, ERCells(d)[j].target)
  {
    if j < FirstCellId + CellCount(d.entities) {
      ERVertexNoEnds(d, j);
    } else {
      ERRelationshipEnds(d, j);
    }
  }

  /** The default cells, the headers and the attribute rows have neither source nor target. */
  lemma ERVertexNoEnds(d: ERDiagram, j: nat)
    requires j < FirstCellId + CellCount(d.entities)
    ensures j < |ERCells(d)| && ERCells(d)[j].source == "" && ERCells(d)[j].target == ""
  {
    if j < FirstCellId {
      assert ERCells(d)[j] == ERCells(d)[..2][j];
    } else {
      EntityPartOfER(d, j - FirstCellId, j);
      EntitiesCellsNumbered(d.entities);
    }
  }

  /** A relationship edge runs between headers drawn before it. */
  lemma ERRelationshipEnds(d: ERDiagram, j: nat)
    requires FirstCellId + CellCount(d.entities) <= j < |ERCells(d)|
    ensures EarlierVertex(ERCells(d), j, ERCells(d)[j].source)
    ensures EarlierVertex(ERCells(d), j, ERCells(d)[j].target)
  {
    var ids := EntityIds(d.entities);
    var t := j - (FirstCellId + CellCount(d.entities));
    var r := KeptRelationships(d.relationships, ids)[t];
    KeptConnected(d.relationships, ids, t);
    ERRelationshipAt(d, t, j);
    assert ERCells(d)[j].source == ids[r.from] && ERCells(d)[j].target == ids[r.to];
    RegisteredHeaderBefore(d, r.from, j);
    RegisteredHeaderBefore(d, r.to, j);
  }

  /** Every edge of an ER drawing runs between headers drawn before it. */
  lemma EREdgesPointBack(d: ERDiagram)
    ensures EdgesPointBack(ERCells(d))
  {
    forall j | 0 <= j < |ERCells(d)|
      ensures ERCells(d)[j].source != "" ==> EarlierVertex(ERCells(d), j, ERCells(d)[j].source)
      ensures ERCells(d)[j].target != "" ==> EarlierVertex(ERCells(d), j, ERCells(d)[j].target)
    {
      ERCellEnds(d, j);
    }
  }
}
