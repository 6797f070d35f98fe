/**
 * The validator itself: an object holding the finalized entities, the
 * registry of entity names and the deferred relations, whose methods work
 * step by step and are each proved to compute what the functions of
 * `ModelSession`, `FieldRules`, `IdentifierRules`, `RelationRules` and
 * `RelationLoop` describe.
 */
module Validator {
  import opened Wrappers
  import opened Syntax
  import opened Diagnostics
  import opened Text
  import opened EntityModel
  import opened TypeRules
  import opened FieldRules
  import opened IdentifierRules
  import opened RelationRules
  import opened RelationLoop
  import opened ModelSession

  /** The first relation field of the referred entity that points back at the processing field's entity. */
  method FindMirror(processingField: RelationField, referredEntity: Entity) returns (referredField: Option<RelationField>)
    ensures referredField == MirrorOf(processingField.containingEntity, referredEntity.relationFields)
  {
    var fields := referredEntity.relationFields;
    referredField := None;
    var i := 0;
    while i < |fields|
      invariant 0 <= i <= |fields|
      invariant referredField.None?
      invariant MirrorOf(processingField.containingEntity, fields[i..])
                == MirrorOf(processingField.containingEntity, fields)
    {
      if processingField.containingEntity == fields[i].typ {
        referredField := Some(fields[i]);
        break;
      }
      assert fields[i..][1..] == fields[i + 1..];
      i := i + 1;
    }
  }

  /** Reports, against `reportDiagnosticsEntity`, every foreign key of `childEntity` that `parentEntity` declares. */
  method ValidatePresenceOfForeignKey(parentEntity: Entity, childEntity: Entity, reportDiagnosticsEntity: Entity)
    returns (r: Entity)
    ensures r == reportDiagnosticsEntity.ReportAll(ForeignKeyDiags(parentEntity, childEntity))
  {
    r := reportDiagnosticsEntity;
    var names := childEntity.IdentifierFieldNames();
    for i := 0 to |names|
      invariant r == reportDiagnosticsEntity.ReportAll(ForeignKeyDiagsOf(parentEntity, childEntity.name, names[..i]))
    {
      ForeignKeyDiagsOfStep(parentEntity, childEntity.name, names, i);
      reportDiagnosticsEntity.ReportAllTwice(ForeignKeyDiagsOf(parentEntity, childEntity.name, names[..i]),
                                             ForeignKeyDiag(parentEntity, childEntity.name, names[i]));
      var foreignKey := ForeignKeyName(childEntity.name, names[i]);
      if foreignKey in parentEntity.nonRelationFields {
        r := r.Report(Diagnostic(PERSIST_422, [foreignKey, childEntity.name], parentEntity.nonRelationFields[foreignKey]));
      } else {
        assert r == r.ReportAll([]);
      }
    }
    assert names[..|names|] == names;
  }

  /** Pairwise validation of `processingField` against `referredEntity`, reported against `reportDiagnosticsEntity`. */
  method ValidateRelation(processingField: RelationField, processingEntity: Entity, referredEntity: Entity,
                          reportDiagnosticsEntity: Entity) returns (r: Entity)
    ensures r == reportDiagnosticsEntity.ReportAll(
                   RelationDiags(processingField, processingEntity, referredEntity, reportDiagnosticsEntity.name))
  {
    var referredField := FindMirror(processingField, referredEntity);
    if referredField.None? {
      r := reportDiagnosticsEntity.Report(
        Diagnostic(PERSIST_402, [referredEntity.name, processingField.containingEntity], processingField.loc));
      return;
    }
    var mirror := referredField.value;

    // 1:1
    if !processingField.isArray && !mirror.isArray {
      if processingEntity.name == reportDiagnosticsEntity.name {
        r := ValidatePresenceOfForeignKey(referredEntity, processingEntity, reportDiagnosticsEntity);
      } else {
        r := ValidatePresenceOfForeignKey(processingEntity, referredEntity, reportDiagnosticsEntity);
      }
      return;
    }

    // n:m
    if processingField.isArray && mirror.isArray {
      r := reportDiagnosticsEntity.Report(Diagnostic(PERSIST_420, [referredEntity.name], processingField.loc));
      return;
    }

    // 1:n
    if !processingField.isArray {
      r := ValidatePresenceOfForeignKey(processingEntity, referredEntity, reportDiagnosticsEntity);
    } else {
      r := ValidatePresenceOfForeignKey(referredEntity, processingEntity, reportDiagnosticsEntity);
    }
  }

  /** 201 when the entity's record is not closed. */
  method ValidateEntityRecordProperties(entity: Entity) returns (r: Entity)
    ensures r == entity.ReportAll(RecordPropertyDiags(entity.record))
  {
    r := entity;
    if !entity.record.closed {
      r := r.Report(Diagnostic(PERSIST_201, [], entity.record.loc));
    }
  }

  /** 501 without identifiers; otherwise 502 and 503 per identifier field. */
  method ValidateIdentifierFields(entity: Entity) returns (r: Entity)
    ensures r == entity.ReportAll(IdentifierDiags(entity))
  {
    r := entity;
    if |entity.identifierFields| == 0 {
      r := r.Report(Diagnostic(PERSIST_501, [entity.name], entity.nameLoc));
      return;
    }
    var ids := entity.identifierFields;
    for i := 0 to |ids|
      invariant r == entity.ReportAll(IdentifierDiagsOf(ids[..i], entity.name))
    {
      ghost var before := r;
      var identifierField := ids[i];
      ghost var nullableDiags: seq<Diagnostic> := [];
      if identifierField.nullable {
        nullableDiags := [Diagnostic(PERSIST_502, [entity.name], identifierField.typeLoc)];
        r := r.Report(Diagnostic(PERSIST_502, [entity.name], identifierField.typeLoc));
      } else {
        before.ReportAllNothing();
      }
      ghost var middle := r;
      assert middle == before.ReportAll(nullableDiags);
      var typ := identifierField.typ;
      ghost var typeDiags: seq<Diagnostic> := [];
      if typ !in SupportedIdentifierTypes() {
        typeDiags := [Diagnostic(PERSIST_503, [typ], identifierField.typeLoc)];
        r := r.Report(Diagnostic(PERSIST_503, [typ], identifierField.typeLoc));
      } else {
        middle.ReportAllNothing();
      }
      assert r == middle.ReportAll(typeDiags);
      before.ReportAllTwice(nullableDiags, typeDiags);
      assert IdentifierFieldDiags(identifierField, entity.name) == nullableDiags + typeDiags;
      assert ids[..i + 1][..i] == ids[..i];
      entity.ReportAllTwice(IdentifierDiagsOf(ids[..i], entity.name), IdentifierFieldDiags(identifierField, entity.name));
    }
    assert ids[..|ids|] == ids;
  }

  /**
   * A plain field whose name is not a repeat: 304 when it is marked `?`,
   * then its type is classified and the field recorded accordingly.
   */
  method RecordField(entity: Entity, fieldName: string, isReadonly: bool, questionMark: bool, typ: TypeDesc, loc: Loc,
                     entityNames: seq<string>) returns (r: Entity)
    ensures r == AcceptField(entity, fieldName, isReadonly, questionMark, typ, loc, entityNames)
  {
    r := entity;
    ghost var markDiags: seq<Diagnostic> := [];
    if questionMark {
      markDiags := [Diagnostic(PERSIST_304, [], loc)];
      r := r.Report(Diagnostic(PERSIST_304, [], loc));
    } else {
      entity.ReportAllNothing();
    }
    var verdict := ClassifyFieldType(typ, loc, r.name, entityNames);
    r := r.ReportAll(verdict.diags);
    entity.ReportAllTwice(markDiags, verdict.diags);
    assert r == entity.ReportAll(AcceptedFieldDiags(questionMark, typ, loc, entity.name, entityNames));
    if verdict.nonRelation {
      r := r.(nonRelationFields := r.nonRelationFields[fieldName := loc]);
    }
    if verdict.relation.Some? {
      r := r.(containsRelations := true, relationFields := r.relationFields + [verdict.relation.value]);
    }
    if isReadonly {
      r := r.(identifierFields :=
        r.identifierFields + [IdentifierField(fieldName, verdict.identifierType, verdict.optional, typ.loc)]);
    }
  }

  class PersistModelValidator {
    var entities: map<string, Entity>
    var entityNames: seq<string>
    var deferredRelationKeyEntities: Deferred

    function State(): Session
      reads this
    {
      Session(entities, entityNames, deferredRelationKeyEntities)
    }

    predicate Valid()
      reads this
    {
      ValidSession(State())
    }

    constructor()
      ensures State() == InitialSession() && Valid()
    {
      entities := map[];
      entityNames := [];
      deferredRelationKeyEntities := map[];
    }

    /** The rest-descriptor check and the scan of the entity's fields against the registry. */
    method ValidateEntityFields(entity: Entity) returns (r: Entity)
      ensures r == ValidateFields(entity, entityNames)
    {
      r := entity;
      if entity.record.rest.Some? {
        r := r.Report(Diagnostic(PERSIST_301, [], entity.record.rest.value));
      } else {
        entity.ReportAllNothing();
      }
      ghost var start := r;
      assert start == entity.ReportAll(RestFieldDiags(entity.record));
      var fields := entity.record.fields;
      var fieldNames: seq<string> := [];
      for i := 0 to |fields|
        invariant FieldScan(r, fieldNames) == ScanFields(start, fields[..i], entityNames)
      {
        ScanFieldsStep(start, fields, i, entityNames);
        match fields[i]
        case DefaultValuedField(loc) =>
          r := r.Report(Diagnostic(PERSIST_302, [], loc));
        case InheritedField(loc) =>
          r := r.Report(Diagnostic(PERSIST_303, [], loc));
        case PlainField(fieldName, nameLoc, isReadonly, questionMark, typ, loc) =>
          if Lower(fieldName) in fieldNames {
            r := r.Report(Diagnostic(PERSIST_307, [fieldName], nameLoc));
          } else {
            fieldNames := fieldNames + [Lower(fieldName)];
            r := RecordField(r, fieldName, isReadonly, questionMark, typ, loc, entityNames);
          }
      }
      assert fields[..|fields|] == fields;
    }

    /** The relation loop of one entity, updating the deferred map. */
    method ValidateEntityRelations(entity: Entity) returns (r: Entity)
      modifies this`deferredRelationKeyEntities
      ensures var out := ValidateRelations(entity, entities, old(deferredRelationKeyEntities));
        r == out.entity && deferredRelationKeyEntities == out.deferred
    {
      r := entity;
      if !entity.containsRelations {
        return;
      }
      var validRelationTypes: seq<string> := [];
      var fields := entity.relationFields;
      var i := 0;
      while i < |fields|
        invariant 0 <= i <= |fields|
        invariant RelLoop(RelState(r, validRelationTypes, deferredRelationKeyEntities), fields[i..], entities)
                  == RelLoop(RelState(entity, [], old(deferredRelationKeyEntities)), fields, entities)
      {
        var relationField := fields[i];
        var referredEntity := relationField.typ;
        RelLoopUnfold(RelState(r, validRelationTypes, deferredRelationKeyEntities), fields, i, entities);
        ghost var step := RelStep(RelState(r, validRelationTypes, deferredRelationKeyEntities), relationField, entities);

        if relationField.typ == relationField.containingEntity {
          r := r.Report(Diagnostic(PERSIST_401, [], relationField.loc));
          assert step.1 && step.0 == RelState(r, validRelationTypes, deferredRelationKeyEntities);
          break;
        }

        if relationField.typ in validRelationTypes {
          r := r.Report(Diagnostic(PERSIST_403, [relationField.typ], relationField.loc));
          assert step.1 && step.0 == RelState(r, validRelationTypes, deferredRelationKeyEntities);
          break;
        }

        validRelationTypes := validRelationTypes + [relationField.typ];
        ghost var waiting, owner := deferredRelationKeyEntities, r.name;

        if referredEntity in entities {
          r := ValidateRelation(relationField, r, entities[referredEntity], r);
          if r.name in deferredRelationKeyEntities {
            var referredFields := RemoveContaining(deferredRelationKeyEntities[r.name], referredEntity);
            deferredRelationKeyEntities := deferredRelationKeyEntities[r.name := referredFields];
            if |referredFields| == 0 {
              deferredRelationKeyEntities := deferredRelationKeyEntities - {r.name};
            }
          }
          assert deferredRelationKeyEntities == DropValidated(waiting, owner, referredEntity);
        } else {
          if referredEntity in deferredRelationKeyEntities {
            deferredRelationKeyEntities :=
              deferredRelationKeyEntities[referredEntity := deferredRelationKeyEntities[referredEntity] + [relationField]];
          } else {
            deferredRelationKeyEntities := deferredRelationKeyEntities[referredEntity := [relationField]];
          }
          assert deferredRelationKeyEntities == Defer(waiting, relationField);
        }
        assert !step.1 && step.0 == RelState(r, validRelationTypes, deferredRelationKeyEntities);
        i := i + 1;
      }
    }

    /**
     * The relation fields waiting for `entity` are validated with it as the
     * referred and the reporting entity, in the order they were deferred.
     */
    method DrainDeferredRelations(entity: Entity) returns (r: Entity)
      requires DeferredWellFormed(deferredRelationKeyEntities, entities.Keys + {entity.name})
      ensures r == Drain(entity, entities, deferredRelationKeyEntities)
    {
      r := entity;
      if entity.name in deferredRelationKeyEntities {
        var annotatedFields := deferredRelationKeyEntities[entity.name];
        assert BucketWellFormed(annotatedFields, entity.name, entities.Keys + {entity.name});
        assert forall f :: f in annotatedFields ==> f.containingEntity in entities;
        for j := 0 to |annotatedFields|
          invariant forall f :: f in annotatedFields[..j] ==> f.containingEntity in entities
          invariant r == DrainInto(entity, annotatedFields[..j], entities)
        {
          DrainIntoStep(entity, annotatedFields, j, entities);
          var field := annotatedFields[j];
          r := ValidateRelation(field, entities[field.containingEntity], r, r);
        }
        assert annotatedFields[..|annotatedFields|] == annotatedFields;
      }
    }

    /**
     * One entity of the model: its record, field, identifier and relation
     * checks, the drain of the relations waiting for it; then its
     * diagnostics are emitted and it is stored.
     */
    method ValidateEntity(def: TypeDefinition) returns (emitted: seq<Diagnostic>)
      requires Valid()
      modifies this
      ensures Valid()
      ensures (State(), emitted) == FinalizeEntity(old(State()), def)
    {
      FinalizeEntityUnfold(State(), def);
      var entity := NewEntity(def);
      entity := ValidateEntityRecordProperties(entity);
      entity := ValidateEntityFields(entity);
      entity := ValidateIdentifierFields(entity);
      assert entity == PrepareEntity(def, entityNames);
      entity := ValidateEntityRelations(entity);
      entity := DrainDeferredRelations(entity);

      emitted := entity.diagnostics;
      entities := entities[def.name := entity];
    }

    /**
     * The extraction loop: 101 for members other than record type
     * definitions, 202 for records whose name repeats one ignoring case; the
     * others are returned and their names appended to the registry.
     */
    method ExtractEntities(members: seq<Member>) returns (reported: seq<Diagnostic>, foundEntities: seq<TypeDefinition>)
      modifies this`entityNames
      ensures var x := Extract(members, old(entityNames));
        reported == x.diags && foundEntities == x.found && entityNames == x.registry
    {
      reported := [];
      // Lower-cased names, to find duplicate entity names.
      var lowerEntityNames: seq<string> := [];
      foundEntities := [];
      for i := 0 to |members|
        invariant Extraction(reported, foundEntities, lowerEntityNames, entityNames)
                  == Extract(members[..i], old(entityNames))
      {
        ExtractUnfold(members, i, old(entityNames));
        match members[i]
        case RecordDef(def) =>
          if Lower(def.name) in lowerEntityNames {
            reported := reported + [Diagnostic(PERSIST_202, [def.name], def.nameLoc)];
          } else {
            foundEntities := foundEntities + [def];
            lowerEntityNames := lowerEntityNames + [Lower(def.name)];
            entityNames := entityNames + [def.name];
          }
        case OtherMember(loc) =>
          reported := reported + [Diagnostic(PERSIST_101, [], loc)];
      }
      assert members[..|members|] == members;
    }

    /** Every accepted entity in declaration order; the diagnostics emitted by each, concatenated. */
    method ValidateEntities(foundEntities: seq<TypeDefinition>) returns (emitted: seq<Diagnostic>)
      requires Valid()
      modifies this
      ensures Valid()
      ensures (State(), emitted) == FinalizeAll(old(State()), foundEntities)
    {
      emitted := [];
      for i := 0 to |foundEntities|
        invariant Valid()
        invariant (State(), emitted) == FinalizeAll(old(State()), foundEntities[..i])
      {
        FinalizeAllUnfold(old(State()), foundEntities, i);
        var entityDiagnostics := ValidateEntity(foundEntities[i]);
        emitted := emitted + entityDiagnostics;
      }
      assert foundEntities[..|foundEntities|] == foundEntities;
    }

    /**
     * The analysis of one node: nothing outside a model document or when the
     * module does not compile; 102 for an import prefix other than `_`;
     * otherwise entity extraction, then every accepted entity in order.
     */
    method Perform(node: AnalysisNode, isModelDocument: bool, hasCompilationErrors: bool)
      returns (reported: seq<Diagnostic>)
      requires Valid()
      modifies this
      ensures Valid()
      ensures (State(), reported) == Analyse(old(State()), node, isModelDocument, hasCompilationErrors)
    {
      reported := [];
      if !isModelDocument {
        return;
      }
      if hasCompilationErrors {
        return;
      }

      match node
      case ImportPrefix(isUnderscore, loc) =>
        if !isUnderscore {
          reported := [Diagnostic(PERSIST_102, [], loc)];
        }
      case ModulePart(members) =>
        var foundEntities;
        reported, foundEntities := ExtractEntities(members);
        assert Valid();
        var emitted := ValidateEntities(foundEntities);
        reported := reported + emitted;
    }
  }
}
