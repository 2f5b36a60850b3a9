# Mermaid to draw.io converter: a Dafny model

This project models the two core files of a command-line converter that turns Mermaid diagram text into draw.io graph models.

- **internal/mermaid/parser.go** handles two dialects, `sequenceDiagram` and `erDiagram`. It decides which dialect a text is written in and parses it line by line into an AST. A sequence AST holds participants and messages. An entity-relationship (ER) AST holds entities with attributes, and relationships.
- **internal/drawio/generator.go** lays that AST out as a flat list of draw.io cells:
  - cells `"0"` and `"1"` come first;
  - then the vertices: ER entity headers with one row per attribute, or sequence participant rectangles with their lifelines;
  - then one edge per relationship or message whose two endpoints were drawn.

The Dafny modules follow the program's structure:

| module | file | what it holds |
|---|---|---|
| `Options`, `Text` | text.dfy | Option type; whitespace trimming, splitting, joining, fields, decimal numbers |
| `Model` | model.dfy | the AST (the `Diagram` interface is a closed datatype of the two dialects) |
| `Recognizers` | recognizers.dfy | the skip predicates and the per-line regular expressions, written as scans; getMessageType; parseRelationshipSymbol |
| `Parser` | parser.dfy | DetectDiagramType, ParseDiagram, ParseERDiagram, ParseSequenceDiagram, ensureParticipantsExist |
| `Generator` | generator.dfy | createBaseModel, createDefaultCells, labels, styles, cell-id discipline |
| `ERGenerator` | er_generator.dfy | GenerateERDrawIOXML up to marshalling |
| `SequenceGenerator` | sequence_generator.dfy | GenerateSequenceDrawIOXML up to marshalling |
| `DrawIO` | drawio.dfy | the GenerateDrawIOXML dispatch and whole-drawing properties |

**Loops become methods.** Each loop of the source is a `method` with a `while` or `for` loop and its invariants. The method is proved equal to a specification function:
- `ERSpec` is a fold of `ERStep` over the lines.
- `SequenceSpec` is the first mentions of participants, plus the message lines.
- `ERCells` and `SequenceCells` are the generated cell lists.

The source's properties are then proved as lemmas about those functions.

**The `Connected` test.** The source looks up a name in a Go map and skips an edge when the id it gets back is `""`. The model writes this as `Connected`: both names are keys of the map, and both stored ids are non-empty.

## Model

| member | source | states |
|---|---|---|
| Model.Diagram.GetType | internal/mermaid/parser.go:25-60 | a diagram reports the ER type exactly when it is an ER diagram |
| Parser.DetectDiagramType | internal/mermaid/parser.go:109-121 | the result is ER exactly when some trimmed line, read in order, starts with `erDiagram` before any line starts with `sequenceDiagram`; with no such line the default is sequence |
| Parser.SequenceFirst | internal/mermaid/parser.go:109-121 | a `sequenceDiagram` line that comes before any header decides the type, so no later `erDiagram` line can make it ER |
| Parser.ParseDiagram | internal/mermaid/parser.go:96-107 | the parsed diagram has the detected type, and it is exactly what the matching dialect's parser returns |
| Parser.ParseERDiagram | internal/mermaid/parser.go:123-182 | the line loop returns exactly ERSpec: the fold of one ER step per trimmed line, then the pending entity is committed |
| Parser.ERStep | internal/mermaid/parser.go:133-175 | one line only appends to the entity and relationship lists, by at most one element each |
| Parser.ERRunAppendOnly | internal/mermaid/parser.go:133-175 | across any run of lines, earlier entities and relationships stay as a prefix |
| Parser.EntityBlock | internal/mermaid/parser.go:141-170 | a block `Name {`, then attribute lines, then `}` appends one entity with those attributes, in order |
| Parser.UnterminatedBlock | internal/mermaid/parser.go:177-181 | a block that is never closed still yields its entity, with all its attributes |
| Parser.EmptyEntityLine | internal/mermaid/parser.go:151-163 | a start line ending in `{}` appends an entity with no attributes and leaves no block open |
| Parser.NestedStartReplaces | internal/mermaid/parser.go:151-163 | an entity start inside an open block replaces the open entity, which is dropped: at the end of input only the new entity is committed |
| Parser.RelationshipOutside | internal/mermaid/parser.go:172-174 | outside a block, a relationship line appends that relationship and nothing else |
| Parser.LineAttributes | internal/mermaid/parser.go:165-170 | a line inside a block contributes at most one attribute |
| Parser.ParseSequenceDiagram | internal/mermaid/parser.go:366-400 | the line loop returns exactly SequenceSpec |
| Parser.SequenceLineStep | internal/mermaid/parser.go:375-397 | one line extends the participants by the line's mentions, appends the line's message (if any), and keeps the set of known names equal to the participants' names |
| Parser.EnsureParticipantsExist | internal/mermaid/parser.go:306-316 | each name not yet known is appended as a participant whose alias is its name; known names change nothing; the known set stays equal to the participants' names |
| Parser.FirstMentionsSpec | internal/mermaid/parser.go:306-316 | participants are the first mentions in order: distinct names, the same name set as all mentions, each kept at its first mention and ordered by first appearance |
| Parser.NewMentionOrder | internal/mermaid/parser.go:306-316 | a new name is appended after every name already seen, so order of first appearance is kept |
| Parser.SequenceParticipants | internal/mermaid/parser.go:366-400 | the parsed participants are distinct, cover exactly the names mentioned, and are in first-appearance order |
| Parser.SynthesizedAlias | internal/mermaid/parser.go:306-316 | every parsed participant either has alias = name or comes from a `participant … as …` declaration line |
| Parser.MessagesAreMessageLines | internal/mermaid/parser.go:389-394 | a message is parsed exactly when some line is that message, and there are no more messages than lines |
| Parser.SequenceSnoc | internal/mermaid/parser.go:375-397 | one more line extends the participants by its mentions and appends its message after all earlier ones |
| Parser.MessageEndpointsMentioned | internal/mermaid/parser.go:389-394 | both endpoints of every message are among the mentioned participants |
| Parser.QuietLines | internal/mermaid/parser.go:375-388 | skipped and unrecognised lines change neither participants nor messages |
| Parser.ERSkippedLines | internal/mermaid/parser.go:184-186 | a blank line, a `%%` comment or an `erDiagram` line leaves the ER parser's state as it is, inside a block too |
| Parser.SkippedLines | internal/mermaid/parser.go:254-256 | a blank line, a `%%` comment or a `sequenceDiagram` line is skipped |
| Parser.NotAMessage | internal/mermaid/parser.go:271-289 | a line of a word, spaces and another word has no arrow, so it is not a message |
| Parser.KeywordLineIgnored | internal/mermaid/parser.go:375-397 | a line of a word other than `participant`, spaces and another word (such as `activate A`) is neither a participant nor a message |
| Recognizers.ParseEntityStart | internal/mermaid/parser.go:188-197 | a recognised entity start names a word and has no attributes yet |
| Recognizers.EntityStartComplete | internal/mermaid/parser.go:188-197 | every line of the form spaces, word, spaces, `{`, anything is recognised, with that word as the name |
| Recognizers.EntityStartSound | internal/mermaid/parser.go:188-197 | every recognised line has that form |
| Recognizers.GetMessageType | internal/mermaid/parser.go:291-304 | total: never Note, and any arrow other than the four known ones gives SolidArrow |
| Recognizers.ArrowOf | internal/mermaid/parser.go:291-304 | every non-Note message type is written by one of the four arrows |
| Recognizers.ArrowRoundTrip | internal/mermaid/parser.go:291-304 | getMessageType is a bijection between the four arrows and the four non-Note types |
| Recognizers.ParseMessage | internal/mermaid/parser.go:271-289 | a parsed message has word endpoints, text without a newline, and a type other than Note |
| Recognizers.MessageComplete | internal/mermaid/parser.go:271-289 | every line of the message shape parses to exactly that message |
| Recognizers.MessageSound | internal/mermaid/parser.go:271-289 | every parsed message comes from a line of that shape, with the type of its arrow |
| Recognizers.ArrowAlternation | internal/mermaid/parser.go:272 | trying the arrows in the regex's order picks the arrow that is actually written, even where a shorter arrow is a prefix of it |
| Recognizers.UnknownArrowRejected | internal/mermaid/parser.go:271-289 | `A-?B: x` is not a message |
| Recognizers.BadArrowRejected | internal/mermaid/parser.go:271-289 | a sender followed by `-` and a character other than `-` or `>` is never a message |
| Recognizers.ParseParticipant | internal/mermaid/parser.go:258-269 | a parsed participant has a word name and a non-empty alias |
| Recognizers.ParticipantPlainComplete | internal/mermaid/parser.go:258-269 | `participant Name` alone gives alias = name |
| Recognizers.ParticipantAliasComplete | internal/mermaid/parser.go:258-269 | `participant Name as Alias text` gives the whole rest of the line as the alias |
| Recognizers.ParticipantSound | internal/mermaid/parser.go:258-269 | every parsed participant comes from a `participant` line; its alias is the name or the alias group |
| Recognizers.LastConstraint | internal/mermaid/parser.go:199-218 | the repeated constraint group yields the last keyword matched, or nothing |
| Recognizers.ConstraintFlags | internal/mermaid/parser.go:207-216 | upper-casing a captured keyword changes nothing, and each flag test holds of exactly its own keyword |
| Recognizers.ParseAttribute | internal/mermaid/parser.go:199-218 | a parsed attribute has a word type and a word name, and at most one of PK, FK, UK and NOT NULL is set |
| Recognizers.AttributeComplete | internal/mermaid/parser.go:199-218 | a line of type, name and constraint groups parses to the attribute whose flag is the last keyword |
| Recognizers.AttributeHead | internal/mermaid/parser.go:199-218 | any two words, spaces between them, are an attribute, whatever follows |
| Recognizers.AttributeSound | internal/mermaid/parser.go:199-218 | every parsed attribute comes from a line of two words, and its flag is named by the last constraint |
| Recognizers.Cardinalities | internal/mermaid/parser.go:333-364 | the four crow's-foot types carry a cardinality pair; Identifying and NonIdentifying do not |
| Recognizers.ParseRelationshipSymbol | internal/mermaid/parser.go:333-364 | from-cardinality is M exactly when the symbol holds `}`; to-cardinality is M exactly when it holds `{`; the type is the one with that cardinality pair |
| Recognizers.RelationshipSymbolExamples | internal/mermaid/parser.go:333-364 | `\|\|--\|\|`, `\|\|--o{`, `}o--\|\|`, `}o--o{` give one-to-one, one-to-many, many-to-one and many-to-many |
| Recognizers.ParseRelationship | internal/mermaid/parser.go:220-252 | a relationship needs `--` and a `:` in the line; its endpoints are non-empty fields; its cardinalities match its type |
| Recognizers.RelationshipConditions | internal/mermaid/parser.go:220-252 | a line is a relationship exactly when it holds `--` and a `:` and the text before the first `:` has at least three fields |
| Recognizers.RelationshipComplete | internal/mermaid/parser.go:220-252 | `from symbol to : label` with any spacing parses to exactly that relationship |
| Recognizers.RelationshipLabelTrimmed | internal/mermaid/parser.go:232-233 | a parsed label has no space at either end |
| Generator.CreateBaseModel | internal/drawio/generator.go:91-110 | the base model holds no cells and page scale 1 |
| Generator.CreateDefaultCells | internal/drawio/generator.go:120-125 | exactly two cells: `"0"` with no parent, then `"1"` with parent `"0"` |
| Generator.Lookup | internal/drawio/generator.go:226-227 | a name that is not a key reads as `""`, and `""` comes back only for a missing name or one stored with the empty id |
| Generator.Connected | internal/drawio/generator.go:229-231 | an edge is kept exactly when both names are keys whose stored ids are non-empty |
| Generator.AttributeLabel | internal/drawio/generator.go:181-195 | a plain attribute reads `name: type`; a primary key that is not a foreign key starts with the key mark and not the link mark; a foreign key starts with the link mark |
| Generator.KeyMarkMisencoded | internal/drawio/generator.go:184-186 | the literal written for the key mark gives `id` a label that differs from the key glyph label the generator's tests expect |
| Generator.LinkMarkMisencoded | internal/drawio/generator.go:187-189 | the same for the link mark on a foreign key `user_id` |
| Generator.AttributeLabelForm | internal/drawio/generator.go:183-195 | a label is the key marks, then `name: type`, then the `(UK)`/`(NN)` notes |
| Generator.LabelDeterminesFlags | internal/drawio/generator.go:183-195 | two attributes with the same name, type and label have the same flags |
| Generator.ERStyle | internal/drawio/generator.go:234-246 | every edge style starts with the base ER style; nothing is added exactly for Identifying and NonIdentifying |
| Generator.CrowsFeetShowCardinalities | internal/drawio/generator.go:234-246 | each crow's-foot type draws ERone/ERmany ends matching its cardinalities |
| Generator.ERStyleShowsCardinalities | internal/drawio/generator.go:234-246 | the style of a parsed symbol draws the ends the symbol's cardinalities name |
| Generator.MessageStyle | internal/drawio/generator.go:333-345 | a block end for the two "with X" types and a classic end otherwise, plus `dashed=1;` for the two dashed types |
| Generator.MessageStyleOfArrow | internal/drawio/generator.go:333-345 | the style is dashed exactly when the arrow starts with `--`, and has a block end exactly when the arrow ends with `>>` |
| Generator.StyleText | internal/drawio/generator.go:234-246 | only the absence of a style renders as the empty string |
| Generator.NumberedIdsDistinct | internal/drawio/generator.go:141-142 | numbered cells have pairwise distinct ids |
| Generator.NumberedInjective | internal/drawio/generator.go:156 | an id determines the cell number it was formatted from |
| ERGenerator.GenerateERDrawIOXML | internal/drawio/generator.go:138-273 | the loops produce exactly ERCells in the base model |
| ERGenerator.ERCells | internal/drawio/generator.go:138-273 | the two default cells first, then 1 + the attribute count cells per entity, then one cell per kept relationship |
| ERGenerator.EmitEntity | internal/drawio/generator.go:149-214 | one entity's header and attribute rows, and the header id registered for its name |
| ERGenerator.EmitRelationship | internal/drawio/generator.go:225-262 | an edge exactly when both endpoints are registered; otherwise nothing, and no id is used |
| ERGenerator.NextGridCell | internal/drawio/generator.go:216-221 | the column wraps at EntitiesPerRow, so entity k sits at column k mod 3 and row k div 3 |
| ERGenerator.ERHeaderPlacement | internal/drawio/generator.go:149-175 | entity k's header shows its name at the grid position of k, 200 wide and 30 + 20 per attribute high, with parent "1" and an id numbered by its position |
| ERGenerator.ERAttributePlacement | internal/drawio/generator.go:178-214 | attribute i of entity k is a 20-high row at the header's y + 30 + 20i, with the header as parent and the attribute label as value |
| ERGenerator.EREdge | internal/drawio/generator.go:225-262 | each kept relationship is an edge between its endpoints' header ids, with the relationship's label and style |
| ERGenerator.RegisteredIffDeclared | internal/drawio/generator.go:156-157 | a name is registered exactly when some entity has it, and then maps to a non-empty header id |
| ERGenerator.EntityIdsLast | internal/drawio/generator.go:156-157 | when several entities share a name, the name maps to the header of the last of them |
| ERGenerator.ConnectedIffDeclared | internal/drawio/generator.go:229-231 | a relationship is drawn exactly when both endpoint names are entity names |
| ERGenerator.KeptMembership | internal/drawio/generator.go:225-262 | the kept relationships are the given ones whose endpoints are connected |
| ERGenerator.ERNoEntities | internal/drawio/generator.go:138-273 | with no entities, only the two default cells are drawn |
| ERGenerator.ERIdsDistinct | internal/drawio/generator.go:141-262 | all ER cell ids are distinct |
| ERGenerator.EREdgesPointBack | internal/drawio/generator.go:225-262 | every edge's source and target are vertices drawn before it |
| SequenceGenerator.GenerateSequenceDrawIOXML | internal/drawio/generator.go:275-365 | the loops produce exactly SequenceCells in the base model |
| SequenceGenerator.SequenceCells | internal/drawio/generator.go:275-365 | 2 + 2 per participant + one per kept message cells, starting with the two default cells |
| SequenceGenerator.EmitParticipant | internal/drawio/generator.go:284-321 | one participant's rectangle and lifeline, and the rectangle id registered for its name |
| SequenceGenerator.EmitMessage | internal/drawio/generator.go:324-361 | an edge exactly when both endpoints are registered; otherwise nothing, and no id is used |
| SequenceGenerator.SequenceParticipantPlacement | internal/drawio/generator.go:284-321 | participant i's 100 × 50 rectangle shows its alias at x = 50 + 200i, y = 50, and is followed by its dashed lifeline, an edge with no endpoints |
| SequenceGenerator.SequenceEdge | internal/drawio/generator.go:324-361 | each kept message is an edge between its endpoints' rectangles, with its text and its type's style |
| SequenceGenerator.RegisteredIffParticipant | internal/drawio/generator.go:286-287 | a name is registered exactly when some participant has it |
| SequenceGenerator.MessageConnectedIffDeclared | internal/drawio/generator.go:328-330 | a message is drawn exactly when both endpoints are participant names |
| SequenceGenerator.KeptMessageMembership | internal/drawio/generator.go:324-361 | the kept messages are the given ones whose endpoints are connected |
| SequenceGenerator.SequenceNoParticipants | internal/drawio/generator.go:275-365 | with no participants, only the two default cells are drawn |
| SequenceGenerator.SequenceIdsDistinct | internal/drawio/generator.go:280-361 | all sequence cell ids are distinct |
| SequenceGenerator.SequenceEdgesPointBack | internal/drawio/generator.go:324-361 | every message edge connects rectangles drawn before it |
| DrawIO.GenerateDrawIOXML | internal/drawio/generator.go:127-136 | the dispatch returns the base model with the cells of the diagram's own dialect |
| DrawIO.DrawingWellFormed | internal/drawio/generator.go:120-136 | every drawing starts with cells "0" and "1", has distinct numbered ids, and points every edge at earlier vertices |
| DrawIO.EmptyDiagram | internal/drawio/generator.go:120-136 | an empty diagram of either dialect is exactly the two default cells |
| DrawIO.ParsedSequenceDrawsEveryMessage | internal/mermaid/parser.go:389-394 | for parsed sequence input every message is drawn, so there are 2 + 2·participants + messages cells |

## Left out

- XML marshalling (generateXMLOutput, `xml.MarshalIndent`) and its error path are not modelled. The generators stop at the graph model. A cell's style is a `Style` value, and `Generator.StyleText` gives its exact string.
- The scanner's token limit is not modelled. `bufio.Scanner` stops at a line longer than `bufio.MaxScanTokenSize` (64 KiB) and reports `bufio.ErrTooLong`. ParseERDiagram then commits the entity still open and returns the diagram of the lines read so far together with that error (internal/mermaid/parser.go:133, 177-181). ParseSequenceDiagram likewise returns the partial diagram with the error (internal/mermaid/parser.go:375, 399). DetectDiagramType splits with `strings.Split` and reads every line whatever its length. The model reads on through lines of any length and has no error result. Splitting on `'\n'` stands in for the scanner's line splitting, and each line is trimmed as the source does. A `"\r\n"` line ending is covered by the trim.
- Strings are sequences of Unicode code points, while Go strings are bytes. Input that is not valid UTF-8 is outside the model: RE2 reads each invalid byte as U+FFFD, a `(.*)` group captures the raw bytes, and `strings.TrimSpace` and `strings.Fields` pass them through unchanged.
- `strings.TrimSpace` and `strings.Fields` use Go's full `unicode.IsSpace` set: the ASCII white space, U+0085, U+00A0, U+1680, U+2000 to U+200A, U+2028, U+2029, U+202F, U+205F and U+3000. Only the regex classes `\s` and `\w` are RE2's ASCII classes. `strings.ToUpper` is modelled for ASCII letters only, which covers every keyword the constraint group can capture.
- The parser's `entityMap` is not modelled, because no output reads it.
- Message.Activate and Message.Deactivate are not modelled: they are always false. parseActivation has no effect, so an `activate`/`deactivate` line is an ignored line.
- Coordinates and sizes are integers, because every constant the source uses is a whole number. The page scale is 1.
- cmd/cli-tool/main.go and internal/commands are not part of this model. They handle file I/O and the command-line interface.
- The participant map is a `set<string>`, since the map's values are always `true`.
- The per-item bodies of the source loops are separate methods: `ERGenerator.EmitEntity`, `ERGenerator.EmitRelationship`, `SequenceGenerator.EmitParticipant`, `SequenceGenerator.EmitMessage` and `Parser.SequenceLineStep`. Each is called once per iteration.
- The label, style and arrow switches are pure functions.
- GenerateDrawIOXML's "unsupported diagram type" error has no counterpart. In the source, any other type that implements the Diagram interface takes that branch, as a mock diagram in the generator's tests does. The model's Diagram is a closed datatype of the two dialects, so it has no such value.
- Parser.ERStep: its own contract only says that the lists grow by appending. What each kind of line does is stated by the block, nesting and relationship lemmas beside it.

## Findings

| source | as written | input that shows it | evidently intended | confidence | as-written member | corrected member |
|---|---|---|---|---|---|---|
| internal/drawio/generator.go:185-188 | the key and link marks are the UTF-8 bytes of U+1F511 and U+1F517 read as Windows-1252: U+00F0 U+0178 U+201D U+2018 for the key, and the same with U+2014 last for the link | a primary key `id int` is labelled `ðŸ”‘ id: int`, and a foreign key `user_id int` is labelled `ðŸ”— user_id: int` | the key glyph U+1F511 and the link glyph U+1F517, each followed by a space, as the generator's tests look for `🔑 id: int` and `🔗 user_id: int` (internal/drawio/generator_test.go:157, 161) | high; not executed | Generator.KeyMarkMisencoded, Generator.LinkMarkMisencoded | Generator.AttributeLabelForm |
