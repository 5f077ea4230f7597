# relational-entity-db, modelled in Dafny

This project models the query engine of relational-entity-db. The engine is an
entity-attribute-value store. An `Entity` has an id, a kind, an opaque byte
payload and a map from attribute names to Long, Boolean or String values.
`RelationalDB` keeps entities in two tables:

- the Entity table holds the id, the kind and the payload;
- the Attribute table holds one row per non-null attribute, with its type tag
  (LONG = 0, BOOLEAN = 1, STRING = 2) and its `toString` text.

A `Filter` is a kind plus a tree of filter items. The tree has Boolean, Long and
String comparisons, a not-null check, and AND/OR groups. Each filter item has two
readings:

- `getCondition()` is an SQL condition over attribute rows. It only narrows the
  search.
- `match(Entity)` is the exact test, run on each loaded candidate.

A query collects the `entityId` of every row the condition selects into an
ascending set. It then keeps the ids whose loaded entity matches. `EntityDB` puts
a closed flag and null-filter checks in front of all of this, and derives the
single-key queries.

The model is organised as follows:

- **`Filters`.** The filter items are one datatype.
  - `Match` is the exact matcher.
  - `Condition` is the condition as abstract syntax. `CondText` in
    `Conditions` renders it to the text the source builds. That includes the
    CONTAINS pattern as written: '%' becomes "\%" and there is no ESCAPE
    clause.
  - `Holds` is what the condition means on one attribute row.
  - The group constructor, the group matcher and the group condition keep the
    source's loops as methods, proved equal to the functions.
- **`Conditions`.** The attribute row, the condition syntax, its rendering and
  its reading.
- **`Text` and `Values`.** The string operations and the value encodings the
  source relies on:
  - decimal text and `Long.parseLong`;
  - `Boolean.valueOf`;
  - lower-casing, `contains` and `compareTo`;
  - quote doubling and reading an SQL literal back.
- **`Entities`.** `Entity` and `EntityValue` are classes whose methods update a
  map field in place.
- **`SortedSets`.** The `TreeSet<Long>` of candidate ids is a strictly
  increasing sequence.
- **`Relational`.** The backend is in-memory tables: a map from id to
  `EntityRow`, a set of `AttributeRow`s, and the identity counter.
  - `ValidTables` is the invariant every operation keeps.
  - `InsertTables`, `UpdateTables` and `DeleteTables` state each write as a
    function of the old tables.
  - The class `RelationalDB` performs those writes step by step.
- **`EntityStore`.** The class `EntityDB`.

The main results are these:

- **Soundness of the narrowing (`Filters.MatchIsSound`).** Whenever `match`
  holds for an entity, some attribute row written for that entity satisfies the
  condition, provided no CONTAINS reference in the filter holds a '%'. This
  covers the deliberately weak conditions:
  - Long GREATER/SMALLER only ask that the attribute is present;
  - a group always joins its children with OR.
  
  With a '%' in a CONTAINS reference the condition can miss a match
  (`Filters.ContainsAsWrittenMissesPercent`, listed under Findings). For the
  String EQUALS, NOT_EQUALS, GREATER and SMALLER items, soundness is relative to
  reading the SQL comparisons `=`, `<>`, `>` and `<` as Java `equals` and
  `compareTo`. Derby's blank padding in comparisons would differ. For example,
  a stored "a " with a NOT_EQUALS "a" filter satisfies `match`, but Derby
  finds `value<>'a'` false, so the entity would never be a candidate. GREATER
  "a" behaves the same way.
- **What a query returns (`Relational.RelationalDB.QueryKeys` and `Query`).**
  The ids returned are ascending, without duplicates, and exactly `Found`: the
  stored entities the filter matches among those its condition selects. For a
  filter without '%' in its CONTAINS references, `Found` is every matching
  stored entity (`Relational.CandidatesCoverMatches`). As above, this holds
  for the Java reading of the String comparisons.
- **The storage round trip (`Relational.InsertRoundTrip` and
  `Relational.UpdateRoundTrip`).** After a put, `get` rebuilds exactly the
  entity's non-null attributes.

Three facts about the code shape the model:

- A group's condition is OR-joined whatever its operator, so an AND group's
  condition is weaker than its match.
- `Filter`'s constructor rejects a null filter item, so every filter has a
  root item.
- The Attribute table is modelled as a set of rows, not a sequence. The source
  never depends on row order: the result set is unordered, and the ids go into
  a TreeSet. The model leaves out the row's identity column, so two rows of one
  entity with the same name would be identical; `ValidTables` rules out two rows
  of one entity with one name in any case.

## Model

Paths are relative to `src/relational-entity-db/src/main/java/com/eagerlogic/entitydb/` in the repository; the table cites them in full.

| member | source | states |
|---|---|---|
| Filters.NewBooleanItem | src/relational-entity-db/src/main/java/com/eagerlogic/entitydb/BooleanFilterItem.java:12-18 | construction fails exactly when the attribute name is null, naming that parameter; otherwise the item holds the name and reference value |
| Filters.NewLongItem | src/relational-entity-db/src/main/java/com/eagerlogic/entitydb/LongFilterItem.java:21-31 | fails exactly when the name or the operator is null, naming the first null one in the source's order; otherwise the item holds its arguments |
| Filters.NewStringItem | src/relational-entity-db/src/main/java/com/eagerlogic/entitydb/StringFilterItem.java:21-34 | fails exactly when the name, operator or reference value is null, naming the first in the order name, operator, referenceValue |
| Filters.NewNullItem | src/relational-entity-db/src/main/java/com/eagerlogic/entitydb/NullFilterItem.java:16-22 | fails exactly when the name is null; a null operator is accepted and kept |
| Filters.NewGroupItem | src/relational-entity-db/src/main/java/com/eagerlogic/entitydb/FilterGroupItem.java:21-43 | fails exactly when the operator, filter1, filter2 or an element of otherFilters is null, naming it; otherwise the children are filter1, filter2, then otherFilters in order, so a group has at least two children and is well formed when they are |
| Filters.NewFilter | src/relational-entity-db/src/main/java/com/eagerlogic/entitydb/Filter.java:12-22 | fails exactly when the kind or the filter item is null, naming the first; otherwise holds both |
| Filters.Match | src/relational-entity-db/src/main/java/com/eagerlogic/entitydb/LongFilterItem.java:70-87 | the exact test of every item kind; a leaf matches only when its attribute is present and non-null |
| Filters.MatchGroup | src/relational-entity-db/src/main/java/com/eagerlogic/entitydb/FilterGroupItem.java:83-103 | the loop returns the group's match: AND is true iff every child matches and stops at the first failing child, all earlier children having matched; OR evaluates every child and is their disjunction |
| Filters.GroupCondition | src/relational-entity-db/src/main/java/com/eagerlogic/entitydb/FilterGroupItem.java:54-80 | the loop returns the group's condition text: the present child conditions joined by " OR " inside one pair of parentheses whatever the operator, and null exactly when every child's condition is null |
| Filters.JoinPresent | src/relational-entity-db/src/main/java/com/eagerlogic/entitydb/FilterGroupItem.java:57-73 | the loop leaves "(" followed by the present child texts joined with " OR ", still open, or null when no child has a condition |
| Filters.GroupConditionText | src/relational-entity-db/src/main/java/com/eagerlogic/entitydb/FilterGroupItem.java:54-80 | the group's condition text is "(" + the OR-join of the present children's texts + ")", or null when no child has one, for AND and OR alike |
| Filters.PresentConditionsEmpty | src/relational-entity-db/src/main/java/com/eagerlogic/entitydb/FilterGroupItem.java:57-63 | the list of present child conditions is empty iff every child's condition is null |
| Filters.StringTest | src/relational-entity-db/src/main/java/com/eagerlogic/entitydb/StringFilterItem.java:54-66 | CONTAINS is the only LIKE test and, as written, carries no ESCAPE clause; every other operator compares the stored text with the reference itself |
| Filters.Condition | src/relational-entity-db/src/main/java/com/eagerlogic/entitydb/StringFilterItem.java:49-70 | every leaf has a condition, and it tests the item's own attribute name; the CONTAINS test is the one StringTest builds |
| Filters.ConditionNeverNull | src/relational-entity-db/src/main/java/com/eagerlogic/entitydb/FilterGroupItem.java:54-80 | every well-formed item (groups with at least two children) has a non-null condition |
| Filters.MatchIsSound | src/relational-entity-db/src/main/java/com/eagerlogic/entitydb/FilterGroupItem.java:54-103 | for a well-formed item with no '%' in its CONTAINS references: whenever it matches an entity's attributes, some attribute row written for that entity satisfies the item's condition as the source builds it (every leaf kind, both group operators) |
| Filters.FilterMatchKindGate | src/relational-entity-db/src/main/java/com/eagerlogic/entitydb/Filter.java:42-47 | Filter.match: an entity of another kind never matches; one of the filter's kind matches exactly when its filter item matches |
| Filters.FilterConditionReadsBack | src/relational-entity-db/src/main/java/com/eagerlogic/entitydb/Filter.java:32-40 | Filter.getCondition's text opens with the kind literal, which reads back as the kind, followed by " AND " and the item's text when the item's condition is not null, then ")" |
| Filters.FilterMatchIsSound | src/relational-entity-db/src/main/java/com/eagerlogic/entitydb/Filter.java:32-47 | for a filter with no '%' in its CONTAINS references: whenever it matches (kind equal and item matches), some row of the entity satisfies the kind-gated condition |
| Filters.ContainsPatternSound | src/relational-entity-db/src/main/java/com/eagerlogic/entitydb/StringFilterItem.java:55 | the corrected pattern, not the one line 55 builds: with every LIKE wildcard and the escape character escaped, the pattern "%"+escaped+"%" matches every string that contains the reference |
| Filters.EscapeLikeIsLiteral | src/relational-entity-db/src/main/java/com/eagerlogic/entitydb/StringFilterItem.java:55 | for the corrected pattern: an escaped LIKE pattern matches a string iff the string is exactly the unescaped text (both directions) |
| Filters.ContainsConditionSound | src/relational-entity-db/src/main/java/com/eagerlogic/entitydb/StringFilterItem.java:54-81 | corrected half of the CONTAINS finding: with the escaped pattern and an ESCAPE clause, a matching CONTAINS item has a stored row satisfying the condition for every reference, '%' included |
| Filters.ContainsAsWrittenMissesPercent | src/relational-entity-db/src/main/java/com/eagerlogic/entitydb/StringFilterItem.java:55 | the condition as written drops a true match: attribute "note" = "%" matches CONTAINS "%", yet no row of the entity satisfies the written LIKE pattern |
| Filters.ContainsAsWrittenSoundWithoutPercent | src/relational-entity-db/src/main/java/com/eagerlogic/entitydb/StringFilterItem.java:55 | the condition as written is still sound for references without '%' |
| Filters.ContainsAsWrittenText | src/relational-entity-db/src/main/java/com/eagerlogic/entitydb/StringFilterItem.java:55 | the written pattern text is the lower-cased reference with quotes doubled and then '%' replaced by "\%", framed by '%' |
| Filters.StringEqualsComplement | src/relational-entity-db/src/main/java/com/eagerlogic/entitydb/StringFilterItem.java:82-87 | on a String attribute EQUALS matches iff NOT_EQUALS does not |
| Filters.StringTrichotomy | src/relational-entity-db/src/main/java/com/eagerlogic/entitydb/StringFilterItem.java:82-89 | on a String attribute exactly one of SMALLER, EQUALS and GREATER matches |
| Filters.LongRangeConditionIgnoresReference | src/relational-entity-db/src/main/java/com/eagerlogic/entitydb/LongFilterItem.java:53-58 | GREATER and SMALLER give the same condition for any references: type 0, the name, and "value IS NOT NULL " with no comparison of the value |
| Filters.NullConditionHoldsForName | src/relational-entity-db/src/main/java/com/eagerlogic/entitydb/NullFilterItem.java:33-41 | the condition ignores the operator, is the text "(name='…' AND value IS NOT NULL)" with the name's quotes doubled, and holds for a row iff the row has that name, whatever its type |
| Filters.ConditionExactOnRow | src/relational-entity-db/src/main/java/com/eagerlogic/entitydb/LongFilterItem.java:46-87 | for Boolean, Long EQUALS/NOT_EQUALS, String comparisons other than CONTAINS, and the not-null check, the condition holds on a stored row iff the row has the item's name and the item matches that row's decoded value |
| Conditions.AttributeNameReadsBack | src/relational-entity-db/src/main/java/com/eagerlogic/entitydb/StringFilterItem.java:50-52 | reading the SQL literal after "name='" in a rendered condition gives back exactly the attribute name, followed by " AND ": a quote in the name cannot end the literal early |
| Conditions.CondText | src/relational-entity-db/src/main/java/com/eagerlogic/entitydb/StringFilterItem.java:49-70 | every condition's text starts with '(' and ends with ')' |
| Conditions.LiteralsNeedNoDoubling | src/relational-entity-db/src/main/java/com/eagerlogic/entitydb/BooleanFilterItem.java:29-33 | the Boolean reference's toString and every long's decimal text hold no quote, so appending them raw, as the source does, equals rendering them with doubled quotes |
| Conditions.CompareLiteralReadsBack | src/relational-entity-db/src/main/java/com/eagerlogic/entitydb/StringFilterItem.java:56-63 | the literal after "value=", "value<>", "value>" or "value<" reads back as exactly the reference value |
| Conditions.KindReadsBack | src/relational-entity-db/src/main/java/com/eagerlogic/entitydb/Filter.java:32-40 | the literal after "(entityKind='" reads back as exactly the filter's kind |
| Conditions.LikePercentMatchesAll | src/relational-entity-db/src/main/java/com/eagerlogic/entitydb/StringFilterItem.java:55 | the LIKE pattern "%" matches every string |
| Text.ReadLiteralOfDoubled | src/relational-entity-db/src/main/java/com/eagerlogic/entitydb/StringFilterItem.java:51-57 | after replace("'", "''"), reading the SQL literal up to its closing quote recovers the original string and the rest of the text |
| Text.CompareToZero | src/relational-entity-db/src/main/java/com/eagerlogic/entitydb/StringFilterItem.java:85-89 | String.compareTo is zero iff the strings are equal |
| Text.NaturalTextValue | src/relational-entity-db/src/main/java/com/eagerlogic/entitydb/RelationalDB.java:239 | the decimal text of a natural number is a non-empty digit string whose value is that number |
| Values.GetFromType | src/relational-entity-db/src/main/java/com/eagerlogic/entitydb/RelationalDB.java:517-540 | getFromType accepts exactly the codes 0, 1 and 2, and is the inverse of getType |
| Values.Decode | src/relational-entity-db/src/main/java/com/eagerlogic/entitydb/RelationalDB.java:140-151 | a decoded value has the type its tag names, and a tag outside 0, 1, 2 decodes to nothing |
| Values.ParseLongDecimalText | src/relational-entity-db/src/main/java/com/eagerlogic/entitydb/RelationalDB.java:144-145 | Long.parseLong of a long's toString text gives back the long |
| Values.DecimalTextInjective | src/relational-entity-db/src/main/java/com/eagerlogic/entitydb/LongFilterItem.java:47-53 | two longs with the same decimal text are equal, so text equality in the EQUALS/NOT_EQUALS conditions is numeric equality |
| Values.DecodeStored | src/relational-entity-db/src/main/java/com/eagerlogic/entitydb/RelationalDB.java:140-151 | decoding the tag and text putAttribute stores for a value gives back the value |
| Values.NonNull | src/relational-entity-db/src/main/java/com/eagerlogic/entitydb/RelationalDB.java:222-224 | dropping null attributes keeps every lookup the same and leaves only non-null values |
| Entities.Entity.constructor | src/relational-entity-db/src/main/java/com/eagerlogic/entitydb/Entity.java:22-37 | a new entity has id -1 (unset), the given kind, no payload and no attributes |
| Entities.Entity.SetId | src/relational-entity-db/src/main/java/com/eagerlogic/entitydb/Entity.java:39-52 | getId returns the id last set; nothing else changes |
| Entities.Entity.SetByteValue | src/relational-entity-db/src/main/java/com/eagerlogic/entitydb/Entity.java:124-126 | the payload becomes the given bytes; nothing else changes |
| Entities.Entity.PutAttribute | src/relational-entity-db/src/main/java/com/eagerlogic/entitydb/Entity.java:184-208 | the key now maps to the value whatever it held before, every other key is unchanged, the key joins the names even for null, and the attribute is null iff the value is |
| Entities.Entity.GetAttribute | src/relational-entity-db/src/main/java/com/eagerlogic/entitydb/Entity.java:250-252 | returns the value stored for the key, and null for an absent key |
| Entities.Entity.GetLongAttribute | src/relational-entity-db/src/main/java/com/eagerlogic/entitydb/Entity.java:217-219 | fails with a cast error naming the stored type exactly when a non-Long value is stored; otherwise returns the Long or null |
| Entities.Entity.GetBooleanAttribute | src/relational-entity-db/src/main/java/com/eagerlogic/entitydb/Entity.java:228-230 | fails with a cast error exactly when a non-Boolean value is stored; otherwise returns the Boolean or null |
| Entities.Entity.GetStringAttribute | src/relational-entity-db/src/main/java/com/eagerlogic/entitydb/Entity.java:239-241 | fails with a cast error exactly when a non-String value is stored; otherwise returns the String or null |
| Entities.Entity.IsAttributeNull | src/relational-entity-db/src/main/java/com/eagerlogic/entitydb/Entity.java:261-263 | true iff the key is absent or mapped to null |
| Entities.Entity.GetAttributeNames | src/relational-entity-db/src/main/java/com/eagerlogic/entitydb/Entity.java:270-272 | the names are exactly the map's keys, including keys put with null |
| Entities.EntityValue.constructor | src/relational-entity-db/src/main/java/com/eagerlogic/entitydb/EntityValue.java:20 | a new EntityValue holds no names |
| Entities.EntityValue.Put | src/relational-entity-db/src/main/java/com/eagerlogic/entitydb/EntityValue.java:22-24 | get(name) then returns the value; every other name is unchanged |
| Entities.EntityValue.Get | src/relational-entity-db/src/main/java/com/eagerlogic/entitydb/EntityValue.java:26-28 | returns the value stored under the name, null when absent |
| Entities.EntityValue.Remove | src/relational-entity-db/src/main/java/com/eagerlogic/entitydb/EntityValue.java:30-32 | returns the prior value; afterwards the name is absent and every other name is unchanged |
| Entities.EntityValue.Clear | src/relational-entity-db/src/main/java/com/eagerlogic/entitydb/EntityValue.java:34-36 | afterwards there are no names |
| Entities.EntityValue.HasName | src/relational-entity-db/src/main/java/com/eagerlogic/entitydb/EntityValue.java:38-40 | true iff the name maps to a non-null value |
| Entities.EntityValue.GetNames | src/relational-entity-db/src/main/java/com/eagerlogic/entitydb/EntityValue.java:42-44 | exactly the stored names |
| SortedSets.Insert | src/relational-entity-db/src/main/java/com/eagerlogic/entitydb/RelationalDB.java:358-361 | TreeSet.add keeps the ids ascending and duplicate-free, adds exactly the new id, and changes nothing when it is present |
| SortedSets.ElementsCount | src/relational-entity-db/src/main/java/com/eagerlogic/entitydb/EntityDB.java:155-161 | the size of the ascending set is its number of distinct ids |
| SortedSets.FirstIsLeast | src/relational-entity-db/src/main/java/com/eagerlogic/entitydb/EntityDB.java:171-173 | the first element of the ascending set is its least element |
| Relational.NameIndexKeys | src/relational-entity-db/src/main/java/com/eagerlogic/entitydb/RelationalDB.java:457-482 | getAttributes' map is keyed by exactly the rows' names, each name mapping to its row |
| Relational.RowsForStored | src/relational-entity-db/src/main/java/com/eagerlogic/entitydb/RelationalDB.java:123-151 | on valid tables the rows of a stored entity are exactly the rows putAttribute would write for the attributes get rebuilds |
| Relational.RowsOfRoundTrip | src/relational-entity-db/src/main/java/com/eagerlogic/entitydb/RelationalDB.java:140-151 | when an entity's rows are those written for a map, get rebuilds exactly the map's non-null attributes |
| Relational.InsertTables | src/relational-entity-db/src/main/java/com/eagerlogic/entitydb/RelationalDB.java:183-213 | putNew's effect on the tables; its properties are Relational.InsertRoundTrip |
| Relational.UpdateTables | src/relational-entity-db/src/main/java/com/eagerlogic/entitydb/RelationalDB.java:270-325 | the corrected update's effect on the tables; its properties are Relational.UpdateRoundTrip |
| Relational.UpdateAsWritten | src/relational-entity-db/src/main/java/com/eagerlogic/entitydb/RelationalDB.java:270-312 | update as written; Relational.UpdateAsWrittenLeavesOrphans shows what it breaks |
| Relational.DeleteTables | src/relational-entity-db/src/main/java/com/eagerlogic/entitydb/RelationalDB.java:327-348 | delete's effect on the tables; its properties are Relational.DeleteKeepsOthers |
| Relational.InsertRoundTrip | src/relational-entity-db/src/main/java/com/eagerlogic/entitydb/RelationalDB.java:183-213 | putNew keeps the tables valid; get of the new id rebuilds the entity's non-null attributes; every existing entity reads back as before |
| Relational.UpdateRoundTrip | src/relational-entity-db/src/main/java/com/eagerlogic/entitydb/RelationalDB.java:270-325 | update keeps the tables valid; the old attribute rows are unreachable and get rebuilds the new non-null attributes; other entities are unchanged; an id with no Entity row changes nothing |
| Relational.DeleteKeepsOthers | src/relational-entity-db/src/main/java/com/eagerlogic/entitydb/RelationalDB.java:327-348 | delete keeps the tables valid, removes the entity and all its rows (so get then returns null), and leaves every other entity as it was |
| Relational.UpdateAsWrittenLeavesOrphans | src/relational-entity-db/src/main/java/com/eagerlogic/entitydb/RelationalDB.java:270-312 | update as written, for an id with no Entity row and a non-null attribute, breaks the tables: an attribute row without an entity, whose id a not-null filter on its kind selects as a candidate |
| Relational.CandidatesCoverMatches | src/relational-entity-db/src/main/java/com/eagerlogic/entitydb/RelationalDB.java:350-362 | on valid tables, for a filter with no '%' in its CONTAINS references, every stored entity the filter matches is among the ids the condition selects, so Found is exactly the matching entities |
| Relational.Found | src/relational-entity-db/src/main/java/com/eagerlogic/entitydb/RelationalDB.java:350-393 | what a query returns: the matching stored entities among the ids the condition selects |
| Relational.KeptCandidates | src/relational-entity-db/src/main/java/com/eagerlogic/entitydb/RelationalDB.java:425-434 | keeping the candidate ids whose loaded entity matches yields exactly Found: the matching entities among the candidates |
| Relational.NoAttributesNeverQueried | src/relational-entity-db/src/main/java/com/eagerlogic/entitydb/RelationalDB.java:351 | an entity with no attribute rows is never a candidate, so no query returns it |
| Relational.RelationalDB.constructor | src/relational-entity-db/src/main/java/com/eagerlogic/entitydb/RelationalDB.java:82-93 | a new database has empty tables with the identity counter at 1; an existing one keeps its tables |
| Relational.RelationalDB.Close | src/relational-entity-db/src/main/java/com/eagerlogic/entitydb/RelationalDB.java:114-121 | the connection is closed and the stored tables are kept |
| Relational.RelationalDB.GetAttributes | src/relational-entity-db/src/main/java/com/eagerlogic/entitydb/RelationalDB.java:457-482 | the loop builds the name-to-row map of the id's rows |
| Relational.RelationalDB.Get | src/relational-entity-db/src/main/java/com/eagerlogic/entitydb/RelationalDB.java:123-173 | a closed database fails; otherwise the result is null iff no Entity row has the id, and a fresh entity with the row's id, kind and payload and the stored attributes decoded by type |
| Relational.RelationalDB.PutDecoded | src/relational-entity-db/src/main/java/com/eagerlogic/entitydb/RelationalDB.java:139-151 | the loop puts every row's value into the entity, decoded by its type tag |
| Relational.RelationalDB.PutAttribute | src/relational-entity-db/src/main/java/com/eagerlogic/entitydb/RelationalDB.java:215-252 | a null value writes nothing; otherwise one row with the entity's id and kind, the name, the value's type tag and its toString text is added |
| Relational.RelationalDB.PutAttributes | src/relational-entity-db/src/main/java/com/eagerlogic/entitydb/RelationalDB.java:199-201 | the loop over the attribute entries adds exactly the rows of the non-null attributes |
| Relational.RelationalDB.PutNew | src/relational-entity-db/src/main/java/com/eagerlogic/entitydb/RelationalDB.java:183-213 | the Entity row gets the next identity id, the entity is given that id, and its attribute rows are added; the tables stay valid |
| Relational.RelationalDB.DeleteAttributes | src/relational-entity-db/src/main/java/com/eagerlogic/entitydb/RelationalDB.java:275-294 | every attribute row of the id is removed and nothing else |
| Relational.RelationalDB.UpdateEntity | src/relational-entity-db/src/main/java/com/eagerlogic/entitydb/RelationalDB.java:296-325 | corrected: an existing Entity row gets the new kind and payload and the attributes are written; with no row nothing is written |
| Relational.RelationalDB.Update | src/relational-entity-db/src/main/java/com/eagerlogic/entitydb/RelationalDB.java:270-273 | the tables become UpdateTables of the old ones (delete the rows, then rewrite) and stay valid |
| Relational.RelationalDB.Put | src/relational-entity-db/src/main/java/com/eagerlogic/entitydb/RelationalDB.java:175-181 | a closed database fails and nothing changes; an id greater than -1 is updated, any other entity is inserted and receives the next identity id |
| Relational.RelationalDB.Delete | src/relational-entity-db/src/main/java/com/eagerlogic/entitydb/RelationalDB.java:327-348 | a closed database fails; otherwise the tables become DeleteTables of the old ones |
| Relational.RelationalDB.CandidateIds | src/relational-entity-db/src/main/java/com/eagerlogic/entitydb/RelationalDB.java:351-362 | the ids are ascending, duplicate-free, and exactly the entityIds of the rows the filter's condition selects |
| Relational.RelationalDB.QueryKeys | src/relational-entity-db/src/main/java/com/eagerlogic/entitydb/RelationalDB.java:395-437 | a closed database fails; otherwise the ids are ascending, duplicate-free, and exactly Found: the candidates whose loaded entity the filter matches |
| Relational.RelationalDB.Query | src/relational-entity-db/src/main/java/com/eagerlogic/entitydb/RelationalDB.java:350-393 | a closed database fails; otherwise the entities come in ascending id order, their ids are exactly Found, and each is loaded as get builds it |
| Relational.RelationalDB.LoadMatching | src/relational-entity-db/src/main/java/com/eagerlogic/entitydb/RelationalDB.java:382-390 | the loop keeps, in order, the loaded entity of each candidate that matches |
| Relational.RelationalDB.QueryFirst | src/relational-entity-db/src/main/java/com/eagerlogic/entitydb/RelationalDB.java:439-446 | null iff Found is empty; otherwise the entity of Found with the least id |
| Relational.RelationalDB.QuerySingleton | src/relational-entity-db/src/main/java/com/eagerlogic/entitydb/RelationalDB.java:448-455 | succeeds iff Found has exactly one id, returning its entity; otherwise fails with the size of Found |
| EntityStore.EntityDB.constructor | src/relational-entity-db/src/main/java/com/eagerlogic/entitydb/EntityDB.java:17-29 | the database is open, its tables are the existing ones or empty, and it is new iff none existed |
| EntityStore.EntityDB.GetDB | src/relational-entity-db/src/main/java/com/eagerlogic/entitydb/EntityDB.java:31-37 | fails with IllegalState iff the database is closed |
| EntityStore.EntityDB.Put | src/relational-entity-db/src/main/java/com/eagerlogic/entitydb/EntityDB.java:39-51 | closed: IllegalState and nothing changes; open: the RelationalDB put (update or insert) |
| EntityStore.EntityDB.Delete | src/relational-entity-db/src/main/java/com/eagerlogic/entitydb/EntityDB.java:53-65 | closed: IllegalState and nothing changes; open: the entity and its rows are deleted |
| EntityStore.EntityDB.Get | src/relational-entity-db/src/main/java/com/eagerlogic/entitydb/EntityDB.java:67-79 | closed: IllegalState; open: null iff the id is not stored, otherwise the loaded entity |
| EntityStore.EntityDB.QueryKeys | src/relational-entity-db/src/main/java/com/eagerlogic/entitydb/EntityDB.java:81-97 | closed: IllegalState, checked before the filter; a null filter: NullFilter; otherwise the ascending ids of Found |
| EntityStore.EntityDB.Query | src/relational-entity-db/src/main/java/com/eagerlogic/entitydb/EntityDB.java:99-115 | the same checks, then the entities of Found in ascending id order |
| EntityStore.EntityDB.QuerySingleton | src/relational-entity-db/src/main/java/com/eagerlogic/entitydb/EntityDB.java:117-133 | the same checks, then the sole entity of Found, or the backend's error with the size of Found |
| EntityStore.EntityDB.QueryFirst | src/relational-entity-db/src/main/java/com/eagerlogic/entitydb/EntityDB.java:135-151 | the same checks, then null iff Found is empty, else its least-id entity |
| EntityStore.EntityDB.QuerySingletonKey | src/relational-entity-db/src/main/java/com/eagerlogic/entitydb/EntityDB.java:153-167 | the same checks, then TooManyResults iff Found has more than one id, NoResults iff it is empty, otherwise its sole id |
| EntityStore.EntityDB.QueryFirstKey | src/relational-entity-db/src/main/java/com/eagerlogic/entitydb/EntityDB.java:169-176 | the same checks, then null iff Found is empty, else its least id |
| EntityStore.EntityDB.Close | src/relational-entity-db/src/main/java/com/eagerlogic/entitydb/EntityDB.java:178-188 | the database is closed, the connection with it, and the tables are kept; no operation reopens it |

## Left out

- JDBC and Derby plumbing is not modelled: driver loading, connection URLs, the schema DDL, statement and result-set cleanup, logging and shutdown. The backend is the in-memory `Tables`. A condition is read through `Holds` rather than run as SQL.
- Derby's string semantics are not modelled. The model reads `value>'…'`/`value<'…'` as Java `compareTo` and `value='…'` as exact equality. It does not model Derby's collation or its blank padding in comparisons.
- `LOWER` and `toLowerCase` are ASCII-only lower-casing. Strings are sequences of characters, with no UTF-16 surrogates and no locale.
- `Long.parseLong` accepts only ASCII digits here. This does not change any round trip, because stored text is always produced by `toString`.
- LIKE with an escape character followed by something other than a wildcard or the escape character is not modelled (Derby rejects it). No pattern the model builds contains one.
- The payload is opaque bytes. Java serialization (`Entity.getValue`/`setValue`) is not modelled. `updateEntity`'s null test through `getValue()` is read as "payload present".
- Entities.Entity.GetAttributeNames returns the key set as a value. The source returns the map's live `keySet()` view, so removing a name through it changes the entity; the model does not capture that aliasing.
- `EntityValue.entries()` is not modelled. It is a live entry-set view of the map, and `Entities.EntityValue.GetNames` and `Entities.EntityValue.Get` cover its contents.
- Locks, `synchronized`, and `ATransaction` are not modelled. They exist for mutual exclusion, and the model is sequential.
- The `DB` wrapper that `getDB` returns is not part of this model. `EntityStore.EntityDB.GetDB` returns the database itself.
- The Attribute table's own identity column is not modelled, because nothing reads it.
- Ids are unbounded integers, so BIGINT identity overflow is not modelled.
- The column widths (name 128, kind 4096, value 32000 characters) are not enforced.
- A null key, a null kind, the no-argument `Entity()` constructor and a null entity passed to put are not modelled. The types exclude them.
- `putAttribute`'s `IllegalArgumentException` for values other than Long, Boolean and String is not modelled. `Value` has only those three variants.
- The unreachable "Unknown operator" exceptions of the filter items are not modelled either, for the same kind of reason.
- Relational.RelationalDB.Get: a stored row whose tag or text does not decode (where the source throws) is outside `ValidTables`. The model decodes with `Decode` and does not model that exception.
- Relational.RelationalDB.QueryKeys: the source removes non-matches from the TreeSet through its iterator. The model builds the ascending sequence of kept ids, which has the same contents.
- EntityStore.EntityDB.QuerySingletonKey and EntityStore.EntityDB.QueryFirstKey: the source's for-each loop returns on its first iteration. The model takes the first element of the ascending sequence directly.
- Filters.ConditionExactOnRow does not cover Long GREATER/SMALLER or CONTAINS. `Filters.LongRangeConditionIgnoresReference` and `Filters.ContainsAsWrittenText` state what those conditions are instead.
- Filters.MatchIsSound requires that no CONTAINS reference holds a '%'. The condition as written loses matches otherwise (`Filters.ContainsAsWrittenMissesPercent`). `Filters.ContainsConditionSound` states soundness of the corrected condition for every reference. For String EQUALS, NOT_EQUALS, GREATER and SMALLER, soundness is relative to reading `=`, `<>`, `>` and `<` as Java `equals`/`compareTo`. Under Derby's blank padding, a stored "a " matches NOT_EQUALS "a" (and GREATER "a"), yet `value<>'a'` (and `value>'a'`) is false on its row.
- Filters.FilterMatchIsSound has the same '%' restriction, for the same reason. It also has the same dependence on the Java reading of the String comparisons.
- Relational.CandidatesCoverMatches has the same '%' restriction. Without it a query returns `Found`, which can omit matching entities. Its "every matching entity" also rests on the Java reading of the String comparisons, so the padded "a " input would not be found by Derby.
- Relational.UpdateRoundTrip is proved for the corrected update. When no Entity row has the id, the source still inserts the attribute rows and the model writes none. `Relational.UpdateAsWritten` is the source's version, and the Findings table gives the difference. The model uses the corrected update because the orphan rows break `ValidTables`, which every other operation relies on.
- Relational.RelationalDB.UpdateEntity writes the attribute rows only when the Entity row exists, unlike the source.
- Relational.RelationalDB.Update runs that corrected UpdateEntity, so on an id with no Entity row it leaves no attribute rows behind, unlike the source.
- Relational.RelationalDB.Put goes through the corrected Update for an entity whose id is set, with the same difference.
- EntityStore.EntityDB.Put goes through Relational.RelationalDB.Put, with the same difference.
- Exact rendered texts are stated for the not-null check, the CONTAINS pattern and the literal read-backs. For the Boolean and Long conditions the model gives the rendering function `Conditions.CondText` without a separate exact-text lemma. It renders their literals through `DoubleQuotes`, where the source appends them raw. `Conditions.LiteralsNeedNoDoubling` proves the two texts equal.

## Findings

The query path keeps the CONTAINS condition as written, so the query results model the source's, including the matches it drops. The corrected condition (`Filters.ContainsTest`) is stated on its own. For update, the rest of the model uses the corrected version.

| source | as written | input that shows it | evidently intended | confidence | as-written member | corrected member |
|---|---|---|---|---|---|---|
| src/relational-entity-db/src/main/java/com/eagerlogic/entitydb/StringFilterItem.java:55 | CONTAINS turns '%' into "\%" but the LIKE has no ESCAPE clause, so Derby reads the backslash as a literal character (and '_' stays a wildcard) | attribute note = "%" with a CONTAINS "%" filter: match holds, but the pattern "%\%%" needs a backslash in the value, so the entity is never a candidate and is silently missing from query results | escape '\\', '%' and '_' and add ESCAPE '\\', so every contained reference is found | high, not executed | Filters.ContainsAsWrittenMissesPercent | Filters.ContainsConditionSound |
| src/relational-entity-db/src/main/java/com/eagerlogic/entitydb/RelationalDB.java:270-312 | update deletes the id's rows, runs an UPDATE that may match no Entity row, then inserts the attribute rows anyway | put an entity, delete its id, put the same Entity object again (id still set): rows with that id are written with no Entity row; a query with a not-null filter on one of its attributes then takes the id as a candidate, get returns null, and Filter.match dereferences null | write the attribute rows only when the Entity row exists (or re-insert it) | high, not executed | Relational.UpdateAsWrittenLeavesOrphans | Relational.UpdateRoundTrip |
