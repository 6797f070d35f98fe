# Persist model-definition validator, modelled in Dafny

This project models the validator that the Ballerina `persist` compiler plugin
runs over a persist model definition file. The file's top-level members
should be closed record types, one per entity. The validator reports
diagnostics (codes `PERSIST_101` … `PERSIST_503`) for:

- members that are not entities, and duplicate entity names;
- open records and rest descriptors;
- default-valued, inherited, duplicate and `?`-marked fields;
- field types outside the supported set;
- missing, nullable or unsupported identifier (`readonly`) fields;
- self relations, repeated relation targets and relations with no mirror field;
- many-to-many relations;
- foreign-key fields declared by hand.

It also checks that every import prefix is `_`.

## Structure

The validator object keeps three fields:

- the finalized entities, by name;
- the registry of accepted entity names;
- the relations waiting for their target entity to be finalized (the deferred map).

Modules:

- `Syntax` holds the small syntax tree the validator reads. `Diagnostics` holds codes, arguments and locations. `Text` holds ASCII case mapping.
- `EntityModel` holds the entity built for one record, with its identifier, relation and non-relation fields and its diagnostics.
- `TypeRules` classifies one field type. `FieldRules` scans the fields of a record. `IdentifierRules` checks identifiers.
- `RelationRules` holds pairwise relation validation: the mirror field, cardinality and the foreign-key presence check.
- `RelationLoop` holds an entity's relation loop, the deferred map and the drain of that map.
- `ModelSession` describes the whole validator as functions of its state. This covers extraction, preparation and finalization of each entity, and the import-prefix rule.
- `Validator` is the validator as a class, `PersistModelValidator`. Its fields are `entities`, `entityNames` and `deferredRelationKeyEntities`. Its methods loop and update those fields step by step. Each method is proved to compute exactly what the corresponding `ModelSession`/rules function describes, and the methods keep the deferred map well formed (`Valid`).
- `Scenarios` holds two-entity consequences: which diagnostic a one-sided, 1:1, 1:n or n:m relation produces, whichever entity comes first.

### Two behaviours of the code that the model keeps

- **The drain keeps the deferred bucket.** After the relations waiting for an entity are validated (lines 160-165), their bucket stays in the deferred map. The model keeps it too (`RelationLoop.Drain` does not touch the map).
- **Parent and child in a 1:n relation.** The code looks the foreign key up on the entity holding the *scalar* side, and names it after the entity holding the *array* side (lines 459-464). The model does the same. `Scenarios.OneToMany` states it for both declaration orders.

## Model

All source paths below are relative to the repository root; each row cites `compiler-plugin/src/main/java/io/ballerina/stdlib/persist/compiler/PersistModelDefinitionValidator.java`.

| member | source | states |
|---|---|---|
| `Validator.PersistModelValidator.constructor` | compiler-plugin/src/main/java/io/ballerina/stdlib/persist/compiler/PersistModelDefinitionValidator.java:96-98 | a new validator has no entities, an empty registry and an empty deferred map, and is valid |
| `ModelSession.InitialSession` | compiler-plugin/src/main/java/io/ballerina/stdlib/persist/compiler/PersistModelDefinitionValidator.java:96-98 | the empty state satisfies the deferred-map invariant |
| `Validator.PersistModelValidator.Perform` | compiler-plugin/src/main/java/io/ballerina/stdlib/persist/compiler/PersistModelDefinitionValidator.java:101-170 | the new state and reported diagnostics are those of `ModelSession.Analyse`: nothing outside a model document or with compilation errors; a single 102 for an import prefix other than `_`; otherwise the extraction diagnostics followed by each entity's; the deferred-map invariant is kept |
| `ModelSession.Analyse` | compiler-plugin/src/main/java/io/ballerina/stdlib/persist/compiler/PersistModelDefinitionValidator.java:101-170 | one invocation keeps the deferred-map invariant: every waiting field sits under its own target, is not a self relation, and was declared by a finalized entity |
| `Validator.PersistModelValidator.ExtractEntities` | compiler-plugin/src/main/java/io/ballerina/stdlib/persist/compiler/PersistModelDefinitionValidator.java:120-147 | the extraction loop reports, keeps and registers exactly what `ModelSession.Extract` does |
| `ModelSession.ExtractSpec` | compiler-plugin/src/main/java/io/ballerina/stdlib/persist/compiler/PersistModelDefinitionValidator.java:124-147 | extraction gives: one 101 per non-record member; one 202 per dropped record, so that 202s plus kept entities equal the records; the kept records are exactly the first of each case-insensitive name, in order, with distinct lower-cased names covering all record names; their original-case names are appended to the registry; no other code |
| `ModelSession.ExtractFound` | compiler-plugin/src/main/java/io/ballerina/stdlib/persist/compiler/PersistModelDefinitionValidator.java:124-147 | the kept records are exactly the first of each case-insensitive name, in order; their lower-cased names are distinct and cover every record name; their names are appended to the registry |
| `ModelSession.ExtractCounts` | compiler-plugin/src/main/java/io/ballerina/stdlib/persist/compiler/PersistModelDefinitionValidator.java:124-147 | one 101 per member that is not a record, one 202 per record dropped as a repeat, and no other code |
| `Validator.PersistModelValidator.ValidateEntities` | compiler-plugin/src/main/java/io/ballerina/stdlib/persist/compiler/PersistModelDefinitionValidator.java:149-169 | the per-entity loop computes `ModelSession.FinalizeAll`: entities are finalized in declaration order and their diagnostics are emitted in that order; the invariant is kept |
| `ModelSession.FinalizeAll` | compiler-plugin/src/main/java/io/ballerina/stdlib/persist/compiler/PersistModelDefinitionValidator.java:149-169 | finalizing a sequence of entities keeps the deferred-map invariant |
| `ModelSession.FinalizeAllKeys` | compiler-plugin/src/main/java/io/ballerina/stdlib/persist/compiler/PersistModelDefinitionValidator.java:149-169 | entries are never removed: the finalized names afterwards are the earlier ones plus every definition's name, and the registry is unchanged |
| `ModelSession.FinalizeEntityKeys` | compiler-plugin/src/main/java/io/ballerina/stdlib/persist/compiler/PersistModelDefinitionValidator.java:150-168 | finalizing one definition adds exactly its name to the finalized entities and leaves the registry unchanged |
| `Validator.PersistModelValidator.ValidateEntity` | compiler-plugin/src/main/java/io/ballerina/stdlib/persist/compiler/PersistModelDefinitionValidator.java:150-168 | one loop iteration computes `ModelSession.FinalizeEntity`: record, field, identifier and relation checks, then the drain, then the entity's diagnostics are emitted and it is stored; the invariant is kept |
| `Validator.PersistModelValidator.DrainDeferredRelations` | compiler-plugin/src/main/java/io/ballerina/stdlib/persist/compiler/PersistModelDefinitionValidator.java:160-165 | the fields waiting for the entity are validated in the order they were deferred, with the entity as the referred and the reporting entity, giving `RelationLoop.Drain` |
| `ModelSession.FinalizeEntity` | compiler-plugin/src/main/java/io/ballerina/stdlib/persist/compiler/PersistModelDefinitionValidator.java:150-168 | finalizing one definition keeps the deferred-map invariant |
| `ModelSession.FinalizePrepared` | compiler-plugin/src/main/java/io/ballerina/stdlib/persist/compiler/PersistModelDefinitionValidator.java:158-168 | relation validation, the drain and the insertion of an entity that owns its relation fields keep the deferred-map invariant |
| `ModelSession.FinalizePreparedShape` | compiler-plugin/src/main/java/io/ballerina/stdlib/persist/compiler/PersistModelDefinitionValidator.java:158-168 | the emitted diagnostics are exactly those of the entity stored under its name. That entity is the prepared one with diagnostics appended. The other finalized entities and the registry are unchanged. |
| `ModelSession.PrepareEntityShape` | compiler-plugin/src/main/java/io/ballerina/stdlib/persist/compiler/PersistModelDefinitionValidator.java:153-157 | a prepared entity keeps its definition's name, location and record. Its relation fields are its own and point at registered entities. It has relations exactly when it has a relation field. It carries only record, field and identifier codes. |
| `ModelSession.PrepareEntityFields` | compiler-plugin/src/main/java/io/ballerina/stdlib/persist/compiler/PersistModelDefinitionValidator.java:153-157 | a prepared entity holds exactly the identifier, non-relation and relation fields its record declares |
| `ModelSession.PrepareEntityRecordCounts` | compiler-plugin/src/main/java/io/ballerina/stdlib/persist/compiler/PersistModelDefinitionValidator.java:155-156 | a prepared entity carries one 201 iff its record is open and one 301 iff it has a rest descriptor |
| `ModelSession.PrepareEntityIdentifierCounts` | compiler-plugin/src/main/java/io/ballerina/stdlib/persist/compiler/PersistModelDefinitionValidator.java:155-157 | a prepared entity carries one 501 iff its record declares no identifier field, one 502 per nullable declared identifier and one 503 per declared identifier of an unsupported type |
| `ModelSession.PrepareEntityClean` | compiler-plugin/src/main/java/io/ballerina/stdlib/persist/compiler/PersistModelDefinitionValidator.java:153-157 | preparation reports nothing iff the definition is clean: a closed record without a rest descriptor whose fields are all plain, distinct by lower-cased name, not marked `?` and of legal type, with at least one identifier field, each non-nullable and of a supported type |
| `ModelSession.DrainShape` | compiler-plugin/src/main/java/io/ballerina/stdlib/persist/compiler/PersistModelDefinitionValidator.java:160-165 | the drain only appends diagnostics to the entity being finalized, and only 402, 420 or 422 |
| `ModelSession.DrainIntoShape` | compiler-plugin/src/main/java/io/ballerina/stdlib/persist/compiler/PersistModelDefinitionValidator.java:162-164 | validating a bucket of waiting fields in order appends only 402, 420 or 422 and changes nothing else |
| `ModelSession.RelationDiagsCodes` | compiler-plugin/src/main/java/io/ballerina/stdlib/persist/compiler/PersistModelDefinitionValidator.java:421-465 | pairwise validation reports only 402, 420 or 422 |
| `Validator.ValidateEntityRecordProperties` | compiler-plugin/src/main/java/io/ballerina/stdlib/persist/compiler/PersistModelDefinitionValidator.java:172-179 | the entity gains exactly `FieldRules.RecordPropertyDiags` |
| `FieldRules.RecordPropertyDiags` | compiler-plugin/src/main/java/io/ballerina/stdlib/persist/compiler/PersistModelDefinitionValidator.java:172-179 | nothing exactly when the record is closed, otherwise exactly one diagnostic, a 201 at the record |
| `FieldRules.RestFieldDiags` | compiler-plugin/src/main/java/io/ballerina/stdlib/persist/compiler/PersistModelDefinitionValidator.java:184-187 | nothing exactly when there is no rest descriptor, otherwise exactly one diagnostic, a 301 at the descriptor |
| `Validator.PersistModelValidator.ValidateEntityFields` | compiler-plugin/src/main/java/io/ballerina/stdlib/persist/compiler/PersistModelDefinitionValidator.java:181-303 | the field loop computes `FieldRules.ValidateFields` against the registry |
| `Validator.RecordField` | compiler-plugin/src/main/java/io/ballerina/stdlib/persist/compiler/PersistModelDefinitionValidator.java:224-301 | a plain field with a new name gains 304 when marked `?`, then its type verdict: its diagnostics, its non-relation entry, its relation field and its identifier field, exactly as `FieldRules.AcceptField` describes |
| `FieldRules.FieldStepShape` | compiler-plugin/src/main/java/io/ballerina/stdlib/persist/compiler/PersistModelDefinitionValidator.java:192-302 | one field keeps the entity's identity. It adds only field codes. A relation it records is contained by this entity and targets a registered name. The remembered names grow by the field's lower-cased name exactly when the field is plain and new. |
| `FieldRules.ScanFieldsShape` | compiler-plugin/src/main/java/io/ballerina/stdlib/persist/compiler/PersistModelDefinitionValidator.java:192-302 | the scan keeps the entity's identity and adds only field codes. It records relations only to registered entities, on this entity's behalf. `containsRelations` is set exactly when a relation is recorded. It remembers each plain field's lower-cased name once. |
| `FieldRules.FieldStepCounts` | compiler-plugin/src/main/java/io/ballerina/stdlib/persist/compiler/PersistModelDefinitionValidator.java:192-228 | one field adds one 302 if default-valued and one 303 if inherited. A repeated name adds one 307. A `?` on a new name adds one 304. A default-valued, inherited or repeated field adds exactly one diagnostic and changes nothing else: no entry, no remembered name. |
| `FieldRules.ScanFieldsCounts` | compiler-plugin/src/main/java/io/ballerina/stdlib/persist/compiler/PersistModelDefinitionValidator.java:192-228 | over all fields: 302s equal default-valued fields, 303s equal inherited fields, 307s equal plain fields whose lower-cased name repeats an earlier one, and 304s equal `?`-marked fields that are not repeats |
| `FieldRules.ScanFieldsEntries` | compiler-plugin/src/main/java/io/ballerina/stdlib/persist/compiler/PersistModelDefinitionValidator.java:192-302 | the scan appends, in order, exactly these: as identifier fields the `readonly` plain fields whose lower-cased name is new, with their rendered element type, nullability and type location; as non-relation fields the new plain fields of builtin or qualified element type; as relation fields, on the entity's behalf, the new plain fields whose type names a registered entity |
| `FieldRules.DeclaredIdentifiersEmpty` | compiler-plugin/src/main/java/io/ballerina/stdlib/persist/compiler/PersistModelDefinitionValidator.java:196-200 | a record declares no identifier field iff none of its `readonly` plain fields is the first occurrence of its lower-cased name |
| `FieldRules.ScanFieldsKeepsCount` | compiler-plugin/src/main/java/io/ballerina/stdlib/persist/compiler/PersistModelDefinitionValidator.java:192-302 | the field scan leaves the count of every code other than 302-307 and 421 unchanged |
| `FieldRules.ValidateFieldsKeepsCount` | compiler-plugin/src/main/java/io/ballerina/stdlib/persist/compiler/PersistModelDefinitionValidator.java:181-303 | field validation leaves the count of every such code as the rest-descriptor check left it |
| `FieldRules.ScanFieldsTypeCounts` | compiler-plugin/src/main/java/io/ballerina/stdlib/persist/compiler/PersistModelDefinitionValidator.java:229-297 | the scan reports one 305, 306 or 421 for each plain field that is the first with its lower-cased name and whose type is not legal, and no other 305, 306 or 421 |
| `FieldRules.ScanFieldsSilent` | compiler-plugin/src/main/java/io/ballerina/stdlib/persist/compiler/PersistModelDefinitionValidator.java:192-302 | the scan only appends diagnostics, and appends none iff every field is plain, the first with its lower-cased name, not marked `?`, and of a legal type |
| `TypeRules.Unwrap` | compiler-plugin/src/main/java/io/ballerina/stdlib/persist/compiler/PersistModelDefinitionValidator.java:233-244 | one optional wrapper is peeled, then one array wrapper; the flags say which were present, and the element is what is left under them |
| `TypeRules.ClassifyFieldType` | compiler-plugin/src/main/java/io/ballerina/stdlib/persist/compiler/PersistModelDefinitionValidator.java:229-297 | the type is optional iff written `T?`. Only builtin and qualified element types become non-relation fields. The identifier type is the rendered element type. A relation arises iff the element is a registered simple name, with that name, the array flag, the field location and the entity; it carries a 421 at the type iff written `T?`, and nothing otherwise. An array of a builtin, unregistered simple or `time` type that is a supported scalar gets one 306 naming the element. Any other illegal type gets one 305 naming the rendered element, with `[]` for an array of a named type, at the type. There is no diagnostic iff the type meets the reference `LegalFieldType`. |
| `TypeRules.SimpleTypeDiags` | compiler-plugin/src/main/java/io/ballerina/stdlib/persist/compiler/PersistModelDefinitionValidator.java:305-318 | no diagnostic iff the type is a supported simple type and not an array, or is `byte[]`. An array of a supported simple type gets one 306 naming the type, at the element. Any other type gets one 305 naming the type, with `[]` for an array, at the type. |
| `TypeRules.IsValidSimpleType` | compiler-plugin/src/main/java/io/ballerina/stdlib/persist/compiler/PersistModelDefinitionValidator.java:320-331 | true iff the name is int, boolean, decimal, float or string |
| `TypeRules.IsValidImportedType` | compiler-plugin/src/main/java/io/ballerina/stdlib/persist/compiler/PersistModelDefinitionValidator.java:333-346 | true iff the prefix is `time` and the identifier is Date, TimeOfDay, Utc or Civil |
| `Validator.ValidateIdentifierFields` | compiler-plugin/src/main/java/io/ballerina/stdlib/persist/compiler/PersistModelDefinitionValidator.java:348-367 | the entity gains exactly `IdentifierRules.IdentifierDiags` |
| `IdentifierRules.IdentifierDiagsCounts` | compiler-plugin/src/main/java/io/ballerina/stdlib/persist/compiler/PersistModelDefinitionValidator.java:348-367 | without identifiers, exactly one 501 at the entity name. Otherwise: no 501, one 502 per nullable identifier, and one 503 per identifier whose type is not supported, independently. No other code. |
| `IdentifierRules.IdentifierDiagsOfCounts` | compiler-plugin/src/main/java/io/ballerina/stdlib/persist/compiler/PersistModelDefinitionValidator.java:355-365 | over a list of identifiers, 502s equal nullable ones and 503s equal unsupported ones |
| `IdentifierRules.IdentifierFieldCounts` | compiler-plugin/src/main/java/io/ballerina/stdlib/persist/compiler/PersistModelDefinitionValidator.java:356-364 | one identifier gives one 502 iff nullable and one 503 iff its type is unsupported |
| `IdentifierRules.IdentifierDiagsEmpty` | compiler-plugin/src/main/java/io/ballerina/stdlib/persist/compiler/PersistModelDefinitionValidator.java:348-367 | identifier validation reports nothing iff the entity has an identifier field and every identifier field is non-nullable and of a supported type |
| `TypeRules.SupportedIdentifierTypes` | compiler-plugin/src/main/java/io/ballerina/stdlib/persist/compiler/PersistModelDefinitionValidator.java:369-373 | the supported identifier types are exactly the supported simple types |
| `Validator.PersistModelValidator.ValidateEntityRelations` | compiler-plugin/src/main/java/io/ballerina/stdlib/persist/compiler/PersistModelDefinitionValidator.java:375-419 | the relation loop, with its two `break`s, yields the entity and deferred map of `RelationLoop.ValidateRelations` |
| `RelationLoop.ValidateRelationsShape` | compiler-plugin/src/main/java/io/ballerina/stdlib/persist/compiler/PersistModelDefinitionValidator.java:375-419 | relation validation only appends diagnostics to the entity. It keeps the deferred map well formed. It defers only the entity's own fields whose target is not finalized. |
| `RelationLoop.RelLoopShape` | compiler-plugin/src/main/java/io/ballerina/stdlib/persist/compiler/PersistModelDefinitionValidator.java:380-418 | the loop only appends diagnostics, at most one of them a 401 or 403 (each stops it). Its list of validated targets only grows. Every deferred field was deferred before or is one of these fields, filed under its target, which is not finalized. |
| `RelationLoop.RelStepEntity` | compiler-plugin/src/main/java/io/ballerina/stdlib/persist/compiler/PersistModelDefinitionValidator.java:383-417 | one relation field appends a 401 or a 403 exactly when the loop stops there, and otherwise only the pairwise diagnostics or nothing |
| `RelationLoop.RelLoopEntity` | compiler-plugin/src/main/java/io/ballerina/stdlib/persist/compiler/PersistModelDefinitionValidator.java:380-418 | the loop only appends diagnostics, with at most one 401 or 403 among them |
| `RelationLoop.RelLoopValidTypes` | compiler-plugin/src/main/java/io/ballerina/stdlib/persist/compiler/PersistModelDefinitionValidator.java:398 | the list of validated targets only grows |
| `RelationLoop.RelLoopDeferred` | compiler-plugin/src/main/java/io/ballerina/stdlib/persist/compiler/PersistModelDefinitionValidator.java:409-417 | every field of the deferred map afterwards was there before, or is one of the loop's fields filed under its target, which is not finalized |
| `RelationLoop.RelLoopKeepsWellFormed` | compiler-plugin/src/main/java/io/ballerina/stdlib/persist/compiler/PersistModelDefinitionValidator.java:380-418 | the loop keeps every deferred field under its own target, never a self relation, declared by a known entity |
| `RelationLoop.ProcessedIsFirstStop` | compiler-plugin/src/main/java/io/ballerina/stdlib/persist/compiler/PersistModelDefinitionValidator.java:380-398 | the loop gets through the fields before the first self relation or repeated target, and stops at that one if there is one |
| `RelationLoop.RelLoopTargets` | compiler-plugin/src/main/java/io/ballerina/stdlib/persist/compiler/PersistModelDefinitionValidator.java:398 | the remembered targets afterwards are the earlier ones followed by the targets of the fields the loop got through |
| `RelationLoop.RelLoopDiagnostics` | compiler-plugin/src/main/java/io/ballerina/stdlib/persist/compiler/PersistModelDefinitionValidator.java:380-418 | the loop appends, in order, the pairwise diagnostics of the fields it got through whose target is finalized, then the 401 or 403 of the field it stops at, and nothing else |
| `RelationLoop.RelLoopDeferredSteps` | compiler-plugin/src/main/java/io/ballerina/stdlib/persist/compiler/PersistModelDefinitionValidator.java:399-417 | the deferred map afterwards is what validating or deferring the fields the loop got through does to it, in order |
| `RelationLoop.RelLoopWaiting` | compiler-plugin/src/main/java/io/ballerina/stdlib/persist/compiler/PersistModelDefinitionValidator.java:409-417 | every waiting list other than the entity's own becomes the old one followed, in order, by the fields the loop got through that target it and whose target is not finalized; it exists afterwards iff it existed or gained a field |
| `RelationLoop.RelLoopOwnBucket` | compiler-plugin/src/main/java/io/ballerina/stdlib/persist/compiler/PersistModelDefinitionValidator.java:400-408 | the entity's own waiting list loses exactly the fields declared on the finalized targets it validated, keeps the rest in order, gains nothing, and disappears only when empty |
| `RelationLoop.ValidateRelationsExact` | compiler-plugin/src/main/java/io/ballerina/stdlib/persist/compiler/PersistModelDefinitionValidator.java:375-419 | relation validation, exactly: the diagnostics it appends, the targets it remembers, every other waiting list and the entity's own one, all in terms of the fields it gets through before the first `break` |
| `RelationLoop.RelationDiagsNoBreakCodes` | compiler-plugin/src/main/java/io/ballerina/stdlib/persist/compiler/PersistModelDefinitionValidator.java:421-465 | pairwise validation never reports 401 or 403 |
| `RelationLoop.DropValidated` | compiler-plugin/src/main/java/io/ballerina/stdlib/persist/compiler/PersistModelDefinitionValidator.java:402-408 | only the current entity's bucket changes. It loses the fields contained in the referred entity. It is removed exactly when nothing is left. |
| `RelationLoop.RemoveContaining` | compiler-plugin/src/main/java/io/ballerina/stdlib/persist/compiler/PersistModelDefinitionValidator.java:404 | a field survives iff it is not contained in the named entity; the result is no longer than the bucket |
| `RelationLoop.RemoveContainingAppend` | compiler-plugin/src/main/java/io/ballerina/stdlib/persist/compiler/PersistModelDefinitionValidator.java:404 | removal distributes over concatenation, so the surviving fields keep their relative order |
| `RelationLoop.Defer` | compiler-plugin/src/main/java/io/ballerina/stdlib/persist/compiler/PersistModelDefinitionValidator.java:410-416 | the field is appended to its target's bucket, which is created if missing; other buckets are unchanged |
| `RelationLoop.DeferKeepsWellFormed` | compiler-plugin/src/main/java/io/ballerina/stdlib/persist/compiler/PersistModelDefinitionValidator.java:410-416 | deferring a non-self relation of a known entity keeps the deferred map well formed |
| `Validator.FindMirror` | compiler-plugin/src/main/java/io/ballerina/stdlib/persist/compiler/PersistModelDefinitionValidator.java:424-430 | the search loop with `break` finds `RelationRules.MirrorOf` |
| `RelationRules.MirrorOf` | compiler-plugin/src/main/java/io/ballerina/stdlib/persist/compiler/PersistModelDefinitionValidator.java:424-430 | none iff no relation field of the referred entity points back; otherwise the first one that does |
| `Validator.ValidateRelation` | compiler-plugin/src/main/java/io/ballerina/stdlib/persist/compiler/PersistModelDefinitionValidator.java:421-465 | the reporting entity gains exactly `RelationRules.RelationDiags` |
| `RelationRules.RelationDiagsCases` | compiler-plugin/src/main/java/io/ballerina/stdlib/persist/compiler/PersistModelDefinitionValidator.java:421-465 | no mirror gives exactly one 402 and mirrored arrays exactly one 420. One array side gives the foreign-key check of the array side against the scalar side. Two scalar sides give the check of the entity being finalized against the other. With a mirror there is no 401, 402 or 403. |
| `Validator.ValidatePresenceOfForeignKey` | compiler-plugin/src/main/java/io/ballerina/stdlib/persist/compiler/PersistModelDefinitionValidator.java:467-479 | the reporting entity gains exactly `RelationRules.ForeignKeyDiags` |
| `RelationRules.ForeignKeyNameShape` | compiler-plugin/src/main/java/io/ballerina/stdlib/persist/compiler/PersistModelDefinitionValidator.java:470-471 | the name is the child name lower-cased, then the identifier name with its first character upper-cased and the rest unchanged |
| `RelationRules.ForeignKeyDiagsSpec` | compiler-plugin/src/main/java/io/ballerina/stdlib/persist/compiler/PersistModelDefinitionValidator.java:467-479 | one 422 per child identifier whose foreign-key name the parent declares, with the name and child as arguments, at the parent's field. Every such identifier is reported, and nothing else. |
| `RelationRules.ForeignKeyDiagsOfLength` | compiler-plugin/src/main/java/io/ballerina/stdlib/persist/compiler/PersistModelDefinitionValidator.java:469-478 | as many 422s as identifier names whose foreign key the parent declares |
| `RelationRules.ForeignKeyDiagsOfSound` | compiler-plugin/src/main/java/io/ballerina/stdlib/persist/compiler/PersistModelDefinitionValidator.java:469-478 | every reported diagnostic is a 422 for a declared foreign key built from one of the names, at its field |
| `RelationRules.ForeignKeyDiagsOfComplete` | compiler-plugin/src/main/java/io/ballerina/stdlib/persist/compiler/PersistModelDefinitionValidator.java:469-478 | every declared foreign key built from one of the names is reported |
| `Scenarios.OneSidedRelation` | compiler-plugin/src/main/java/io/ballerina/stdlib/persist/compiler/PersistModelDefinitionValidator.java:149-169 | for two entities and a fresh validator, where A declares one scalar relation to B and B declares no relation field at all: exactly one 402, whichever entity comes first. When A comes first it comes through the drain, against B; otherwise directly, against A. |
| `Scenarios.FinalizeFirst` | compiler-plugin/src/main/java/io/ballerina/stdlib/persist/compiler/PersistModelDefinitionValidator.java:149-169 | the first entity finalized by a fresh validator, with one relation to an entity not yet finalized, reports nothing for it; the relation waits under its target |
| `Scenarios.FinalizeSecondMirrored` | compiler-plugin/src/main/java/io/ballerina/stdlib/persist/compiler/PersistModelDefinitionValidator.java:400-408 | the second entity, whose relation is mirrored by the one waiting for it, validates the pair once and drops the waiting relation, so the drain has nothing to do and nothing stays deferred |
| `Scenarios.ManyToMany` | compiler-plugin/src/main/java/io/ballerina/stdlib/persist/compiler/PersistModelDefinitionValidator.java:375-419 | mutual array relations give one 420, against the second entity. The deferred bucket is dropped, so the drain does not validate the pair again. |
| `Scenarios.OneToOne` | compiler-plugin/src/main/java/io/ballerina/stdlib/persist/compiler/PersistModelDefinitionValidator.java:440-449 | mutual scalar relations are validated once, when the second entity is finalized. The foreign key is named after that entity and looked up on the first. Nothing is left deferred. |
| `Scenarios.OneToMany` | compiler-plugin/src/main/java/io/ballerina/stdlib/persist/compiler/PersistModelDefinitionValidator.java:459-464 | in either order, the 1:n pair is validated once. The foreign key is named after the array-side entity and looked up on the scalar-side entity. |

## Left out

- Scenarios.OneSidedRelation: states the report of an unmirrored relation only for two entities on a fresh validator, when A declares exactly that one relation and B declares no relation field at all. The same statement with other relations on either side, more entities or a used validator is not proved as one lemma. Its per-entity parts are `RelationLoop.ValidateRelationsExact`, `ModelSession.DrainShape` and `RelationRules.RelationDiagsCases`.
- ModelSession.Analyse: the whole-run statement "a model without structural problems draws no diagnostic" is not proved as one lemma. Its per-entity half before relation validation is `ModelSession.PrepareEntityClean`. The relation half (every relation mirrored, no many-to-many pair, no declared foreign-key field) is covered only pair by pair, by `RelationRules.RelationDiagsCases` and `RelationRules.ForeignKeyDiagsSpec`.
- `isPersistModelDefinitionDocument` (lines 482-502) inspects the project kind, file paths and the manifest on disk. It is an input flag, `isModelDocument`, of `Perform` and `Analyse`.
- `Utils.hasCompilationErrors` asks the host compiler. It is the input flag `hasCompilationErrors`.
- `Utils.stripEscapeCharacter` is not part of this model. Names in the syntax datatypes are taken to be already stripped and trimmed.
- `Utils.getTypeName` is not part of this model. For descriptors of other shapes, the 305 argument and the recorded identifier type are `TypeRules.RenderType`'s rendering of the descriptor.
- Messages (`MessageFormat` templates), severities and `DiagnosticFactory` are left out. A diagnostic is its code, its arguments and an abstract location.
- The Ballerina syntax-tree API and `NodeLocation` are replaced by the datatypes of `Syntax`, with locations as numbers.
- `Locale`-specific case mapping is modelled as ASCII case mapping.
- The string values of the constants (`int`, `time`, `Date`, …) are not part of this model. The usual Ballerina spellings are used.
- `ForeignKeyName` on an empty identifier name yields the lower-cased child name. The source would throw, but the parser never produces an empty field name.
- `Entity`, `IdentifierField` and `RelationField` are values, not shared objects. This loses nothing here: once an entity is stored, nothing mutates it again, because `validateRelation` only reports against the entity being finalized. The loops pass the entity being built by value and store the final value.
- The extraction loop and the per-entity loop of `perform` are separate methods, `ExtractEntities` and `ValidateEntities`. The body of one iteration of the per-entity loop is the method `ValidateEntity`. Their statements are those of lines 124-147 and 149-169.
