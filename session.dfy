/**
 * What one validator instance does, as functions of its state: entity
 * extraction from a module's members, the preparation and finalization of
 * each entity in declaration order, and the import-prefix rule.
 */
module ModelSession {
  import opened Syntax
  import opened Diagnostics
  import opened Text
  import opened EntityModel
  import opened FieldRules
  import opened TypeRules
  import opened IdentifierRules
  import opened RelationRules
  import opened RelationLoop

  /**
   * The validator's state: the finalized entities by name, the registry of
   * accepted entity names (original case), and the deferred relations.
   */
  datatype Session = Session(entities: map<string, Entity>, entityNames: seq<string>, deferred: Deferred)

  /** Every deferred field waits for another entity and was declared by a finalized one. */
  predicate ValidSession(s: Session) {
    DeferredWellFormed(s.deferred, s.entities.Keys)
  }

  function InitialSession(): (s: Session)
    ensures ValidSession(s)
  {
    Session(map[], [], map[])
  }

  // ---------------------------------------------------------------------
  // Extraction.

  /**
   * The extraction loop's state: reported diagnostics, the accepted record
   * definitions, their lower-cased names and the entity-name registry.
   */
  datatype Extraction = Extraction(diags: seq<Diagnostic>, found: seq<TypeDefinition>, lowerNames: seq<string>,
                                   registry: seq<string>)

  function ExtractStep(x: Extraction, m: Member): Extraction {
    match m
    case OtherMember(loc) => x.(diags := x.diags + [Diagnostic(PERSIST_101, [], loc)])
    case RecordDef(def) =>
      if Lower(def.name) in x.lowerNames then
        x.(diags := x.diags + [Diagnostic(PERSIST_202, [def.name], def.nameLoc)])
      else
        x.(found := x.found + [def], lowerNames := x.lowerNames + [Lower(def.name)], registry := x.registry + [def.name])
  }

  /** Extraction over `members`, in order, appending accepted names to `registry`. */
  function Extract(members: seq<Member>, registry: seq<string>): Extraction {
    if members == [] then Extraction([], [], [], registry)
    else ExtractStep(Extract(members[..|members| - 1], registry), members[|members| - 1])
  }

  lemma ExtractUnfold(members: seq<Member>, i: nat, registry: seq<string>)
    requires i < |members|
    ensures Extract(members[..i + 1], registry) == ExtractStep(Extract(members[..i], registry), members[i])
  {
    assert members[..i + 1][..i] == members[..i];
  }

  // Reference definitions the extraction is measured against.

  function OtherMemberCount(members: seq<Member>): nat {
    if members == [] then 0
    else OtherMemberCount(members[..|members| - 1]) + (if members[|members| - 1].OtherMember? then 1 else 0)
  }

  function RecordCount(members: seq<Member>): nat {
    if members == [] then 0
    else RecordCount(members[..|members| - 1]) + (if members[|members| - 1].RecordDef? then 1 else 0)
  }

  /** The lower-cased names of all record definitions among `members`. */
  function RecordLowerNames(members: seq<Member>): set<string> {
    if members == [] then {}
    else
      var last := members[|members| - 1];
      RecordLowerNames(members[..|members| - 1]) + (if last.RecordDef? then {Lower(last.def.name)} else {})
  }

  /** Each record definition whose lower-cased name no earlier record definition has, in order. */
  function FirstRecords(members: seq<Member>): seq<TypeDefinition> {
    if members == [] then []
    else
      var prefix, last := members[..|members| - 1], members[|members| - 1];
      FirstRecords(prefix) + (if last.RecordDef? && Lower(last.def.name) !in RecordLowerNames(prefix) then [last.def] else [])
  }

  function Names(defs: seq<TypeDefinition>): (r: seq<string>)
    ensures |r| == |defs|
  {
    seq(|defs|, i requires 0 <= i < |defs| => defs[i].name)
  }

  function LowerNames(defs: seq<TypeDefinition>): (r: seq<string>)
    ensures |r| == |defs|
  {
    seq(|defs|, i requires 0 <= i < |defs| => Lower(defs[i].name))
  }

  predicate Distinct(xs: seq<string>) {
    forall i, j :: 0 <= i < j < |xs| ==> xs[i] != xs[j]
  }

  /**
   * Extraction keeps exactly the first record definition of each
   * case-insensitive name, in order; their lower-cased names are distinct and
   * cover every record name, and their names are appended to the registry.
   */
  lemma {:induction false} ExtractFound(members: seq<Member>, registry: seq<string>)
    ensures var x := Extract(members, registry);
      && x.found == FirstRecords(members)
      && x.lowerNames == LowerNames(x.found)
      && (forall n :: n in x.lowerNames <==> n in RecordLowerNames(members))
      && Distinct(x.lowerNames)
      && x.registry == registry + Names(x.found)
    decreases |members|
  {
    if members != [] {
      var prefix, m := members[..|members| - 1], members[|members| - 1];
      var p := Extract(prefix, registry);
      ExtractFound(prefix, registry);
      var x := ExtractStep(p, m);
      assert Extract(members, registry) == x;
      if m.RecordDef? && Lower(m.def.name) !in p.lowerNames {
        assert LowerNames(x.found) == LowerNames(p.found) + [Lower(m.def.name)];
        assert Names(x.found) == Names(p.found) + [m.def.name];
      }
    }
  }

  /** One 101 per member that is not a record, one 202 per dropped record, nothing else. */
  lemma {:induction false} ExtractCounts(members: seq<Member>, registry: seq<string>)
    ensures var x := Extract(members, registry);
      && CountCode(x.diags, PERSIST_101) == OtherMemberCount(members)
      && CountCode(x.diags, PERSIST_202) + |x.found| == RecordCount(members)
      && CodesWithin(x.diags, {PERSIST_101, PERSIST_202})
    decreases |members|
  {
    if members != [] {
      var prefix, m := members[..|members| - 1], members[|members| - 1];
      var p := Extract(prefix, registry);
      ExtractCounts(prefix, registry);
      var x := ExtractStep(p, m);
      assert Extract(members, registry) == x;
      assert OtherMemberCount(members) == OtherMemberCount(prefix) + (if m.OtherMember? then 1 else 0);
      assert RecordCount(members) == RecordCount(prefix) + (if m.RecordDef? then 1 else 0);
      if m.OtherMember? || Lower(m.def.name) in p.lowerNames {
        var d := if m.OtherMember? then Diagnostic(PERSIST_101, [], m.loc)
                 else Diagnostic(PERSIST_202, [m.def.name], m.def.nameLoc);
        assert x.diags == p.diags + [d] && x.found == p.found;
        CountCodeAppend(p.diags, [d], PERSIST_101);
        CountCodeAppend(p.diags, [d], PERSIST_202);
        CountSingle(d, PERSIST_101);
        CountSingle(d, PERSIST_202);
        assert CodesWithin([d], {PERSIST_101, PERSIST_202});
        CodesWithinAppend(p.diags, [d], {PERSIST_101, PERSIST_202});
      } else {
        assert x.diags == p.diags && |x.found| == |p.found| + 1;
      }
    }
  }

  /**
   * Extraction keeps exactly the first record definition of each
   * case-insensitive name, whose names are distinct ignoring case and are
   * appended, in original case, to the registry; it reports one 101 per other
   * member, one 202 per dropped record, and nothing else.
   */
  lemma ExtractSpec(members: seq<Member>, registry: seq<string>)
    ensures var x := Extract(members, registry);
      && x.found == FirstRecords(members)
      && x.lowerNames == LowerNames(x.found)
      && (forall n :: n in x.lowerNames <==> n in RecordLowerNames(members))
      && Distinct(x.lowerNames)
      && x.registry == registry + Names(x.found)
      && CountCode(x.diags, PERSIST_101) == OtherMemberCount(members)
      && CountCode(x.diags, PERSIST_202) + |x.found| == RecordCount(members)
      && CodesWithin(x.diags, {PERSIST_101, PERSIST_202})
  {
    ExtractFound(members, registry);
    ExtractCounts(members, registry);
  }

  // ---------------------------------------------------------------------
  // Preparation and finalization of one entity.

  /** Every relation field of `e` is declared on `e`. */
  predicate OwnsRelations(e: Entity) {
    forall rf :: rf in e.relationFields ==> rf.containingEntity == e.name
  }

  /** The codes preparation can report: record shape, fields and identifiers. */
  const PreparationCodes: set<Code> := FieldCodes + {PERSIST_201, PERSIST_301, PERSIST_501, PERSIST_502, PERSIST_503}

  /**
   * An entity after the record-property, field and identifier checks, with
   * `registry` the names a field type may refer to.
   */
  function PrepareEntity(def: TypeDefinition, registry: seq<string>): Entity {
    var e1 := NewEntity(def).ReportAll(RecordPropertyDiags(def.record));
    var e2 := ValidateFields(e1, registry);
    e2.ReportAll(IdentifierDiags(e2))
  }

  /**
   * A prepared entity keeps the definition's name, location and record,
   * relates only to registered entities on its own behalf, declares relations
   * exactly when it has a relation field, and carries only preparation
   * diagnostics.
   */
  lemma PrepareEntityShape(def: TypeDefinition, registry: seq<string>)
    ensures var e := PrepareEntity(def, registry);
      && e.name == def.name && e.nameLoc == def.nameLoc && e.record == def.record
      && OwnsRelations(e)
      && (forall rf :: rf in e.relationFields ==> rf.typ in registry)
      && (e.containsRelations <==> e.relationFields != [])
      && CodesWithin(e.diagnostics, PreparationCodes)
  {
    var e1 := NewEntity(def).ReportAll(RecordPropertyDiags(def.record));
    var start := e1.ReportAll(RestFieldDiags(def.record));
    ScanFieldsShape(start, def.record.fields, registry);
    var e2 := ValidateFields(e1, registry);
    IdentifierDiagsCounts(e2);
    assert CodesWithin(start.diagnostics, PreparationCodes);
    assert CodesWithin(e2.diagnostics, PreparationCodes);
    assert CodesWithin(IdentifierDiags(e2), PreparationCodes);
    CodesWithinAppend(e2.diagnostics, IdentifierDiags(e2), PreparationCodes);
  }

  /**
   * A prepared entity holds exactly the identifier, non-relation and relation
   * fields its record declares (first occurrences of each lower-cased name).
   */
  lemma PrepareEntityFields(def: TypeDefinition, registry: seq<string>)
    ensures var e, fields := PrepareEntity(def, registry), def.record.fields;
      && e.identifierFields == DeclaredIdentifiers(fields)
      && e.nonRelationFields == DeclaredNonRelation(fields)
      && e.relationFields == DeclaredRelations(fields, def.name, registry)
  {
    var e1 := NewEntity(def).ReportAll(RecordPropertyDiags(def.record));
    var start := e1.ReportAll(RestFieldDiags(def.record));
    ScanFieldsEntries(start, def.record.fields, registry);
    assert [] + DeclaredIdentifiers(def.record.fields) == DeclaredIdentifiers(def.record.fields);
    assert [] + DeclaredRelations(def.record.fields, def.name, registry) == DeclaredRelations(def.record.fields, def.name, registry);
    assert map[] + DeclaredNonRelation(def.record.fields) == DeclaredNonRelation(def.record.fields);
  }

  /** A prepared entity carries one 201 when its record is open and one 301 when it has a rest descriptor. */
  lemma PrepareEntityRecordCounts(def: TypeDefinition, registry: seq<string>)
    ensures var ds := PrepareEntity(def, registry).diagnostics;
      && CountCode(ds, PERSIST_201) == (if def.record.closed then 0 else 1)
      && CountCode(ds, PERSIST_301) == (if def.record.rest.Some? then 1 else 0)
  {
    var rec := def.record;
    var a, b := RecordPropertyDiags(rec), RestFieldDiags(rec);
    var e1 := NewEntity(def).ReportAll(a);
    var e2 := ValidateFields(e1, registry);
    var tail := IdentifierDiags(e2);
    assert PrepareEntity(def, registry).diagnostics == e2.diagnostics + tail;
    assert e1.diagnostics == a && b == RestFieldDiags(e1.record);
    IdentifierTailFree(e2);
    RecordCodeCount(e1, a, b, registry, tail, PERSIST_201);
    RecordCodeCount(e1, a, b, registry, tail, PERSIST_301);
    RecordStageCounts(a, b, rec);
  }

  lemma IdentifierTailFree(e: Entity)
    ensures CountCode(IdentifierDiags(e), PERSIST_201) == 0 && CountCode(IdentifierDiags(e), PERSIST_301) == 0
  {
    IdentifierDiagsCounts(e);
    CountOutside(IdentifierDiags(e), {PERSIST_501, PERSIST_502, PERSIST_503}, PERSIST_201);
    CountOutside(IdentifierDiags(e), {PERSIST_501, PERSIST_502, PERSIST_503}, PERSIST_301);
  }

  /** A record-stage code is counted after the field scan and the identifier stage as the record stages left it. */
  lemma RecordCodeCount(e1: Entity, a: seq<Diagnostic>, b: seq<Diagnostic>, registry: seq<string>,
                        tail: seq<Diagnostic>, c: Code)
    requires e1.diagnostics == a && b == RestFieldDiags(e1.record)
    requires c == PERSIST_201 || c == PERSIST_301
    requires CountCode(tail, c) == 0
    ensures CountCode(ValidateFields(e1, registry).diagnostics + tail, c) == CountCode(a + b, c)
  {
    ValidateFieldsKeepsCount(e1, registry, c);
    CountCodeAppend(ValidateFields(e1, registry).diagnostics, tail, c);
  }

  lemma RecordStageCounts(a: seq<Diagnostic>, b: seq<Diagnostic>, rec: RecordDesc)
    requires a == RecordPropertyDiags(rec) && b == RestFieldDiags(rec)
    ensures CountCode(a + b, PERSIST_201) == (if rec.closed then 0 else 1)
    ensures CountCode(a + b, PERSIST_301) == (if rec.rest.Some? then 1 else 0)
  {
    CountCodeAppend(a, b, PERSIST_201);
    CountCodeAppend(a, b, PERSIST_301);
    if a != [] {
      assert a == [a[0]];
      CountSingle(a[0], PERSIST_201);
      CountSingle(a[0], PERSIST_301);
    }
    if b != [] {
      assert b == [b[0]];
      CountSingle(b[0], PERSIST_201);
      CountSingle(b[0], PERSIST_301);
    }
  }

  /**
   * A prepared entity carries one 501 when it has no identifier field, one
   * 502 per nullable identifier field and one 503 per identifier field of an
   * unsupported type.
   */
  lemma PrepareEntityIdentifierCounts(def: TypeDefinition, registry: seq<string>)
    ensures var ds, ids := PrepareEntity(def, registry).diagnostics, DeclaredIdentifiers(def.record.fields);
      && CountCode(ds, PERSIST_501) == (if ids == [] then 1 else 0)
      && CountCode(ds, PERSIST_502) == NullableCount(ids)
      && CountCode(ds, PERSIST_503) == UnsupportedTypeCount(ids)
  {
    var e2 := ValidateFields(NewEntity(def).ReportAll(RecordPropertyDiags(def.record)), registry);
    PreparedIdentifiers(def, registry);
    PreparedIdentifierCount(def, registry, PERSIST_501);
    PreparedIdentifierCount(def, registry, PERSIST_502);
    PreparedIdentifierCount(def, registry, PERSIST_503);
    IdentifierTailCounts(e2);
  }

  /** An identifier-stage code is counted only in what the identifier stage reports. */
  lemma PreparedIdentifierCount(def: TypeDefinition, registry: seq<string>, c: Code)
    requires c == PERSIST_501 || c == PERSIST_502 || c == PERSIST_503
    ensures var e2 := ValidateFields(NewEntity(def).ReportAll(RecordPropertyDiags(def.record)), registry);
      CountCode(PrepareEntity(def, registry).diagnostics, c) == CountCode(IdentifierDiags(e2), c)
  {
    var rec := def.record;
    var a, b := RecordPropertyDiags(rec), RestFieldDiags(rec);
    var e1 := NewEntity(def).ReportAll(a);
    PreparedDiagnostics(def, registry);
    assert e1.diagnostics == a && b == RestFieldDiags(e1.record);
    StageFreeCount(e1, a, b, registry, IdentifierDiags(ValidateFields(e1, registry)), c);
  }

  /**
   * A definition on which preparation reports nothing: a closed record
   * without a rest descriptor, whose fields are all plain, each the first
   * with its lower-cased name, none marked `?`, all of legal type, with at
   * least one identifier field and every identifier non-nullable and of a
   * supported type.
   */
  predicate CleanDefinition(def: TypeDefinition, registry: seq<string>) {
    var ids := DeclaredIdentifiers(def.record.fields);
    && def.record.closed
    && def.record.rest.None?
    && CleanFields(def.record.fields, registry)
    && ids != []
    && forall id :: id in ids ==> !id.nullable && id.typ in SupportedIdentifierTypes()
  }

  /** Preparation reports nothing exactly for a clean definition. */
  lemma PrepareEntityClean(def: TypeDefinition, registry: seq<string>)
    ensures PrepareEntity(def, registry).diagnostics == [] <==> CleanDefinition(def, registry)
  {
    var rec := def.record;
    var a, b := RecordPropertyDiags(rec), RestFieldDiags(rec);
    var e1 := NewEntity(def).ReportAll(a);
    var start := e1.ReportAll(RestFieldDiags(e1.record));
    assert start.diagnostics == a + b;
    var e2 := ValidateFields(e1, registry);
    ScanFieldsSilent(start, rec.fields, registry);
    PreparedIdentifiers(def, registry);
    PreparedDiagnostics(def, registry);
    IdentifierDiagsEmpty(e2);
  }

  /** The field scan of a record collects exactly the identifier fields it declares. */
  lemma PreparedIdentifiers(def: TypeDefinition, registry: seq<string>)
    ensures ValidateFields(NewEntity(def).ReportAll(RecordPropertyDiags(def.record)), registry).identifierFields
            == DeclaredIdentifiers(def.record.fields)
  {
    var e1 := NewEntity(def).ReportAll(RecordPropertyDiags(def.record));
    ScanFieldsIdentifiers(e1.ReportAll(RestFieldDiags(e1.record)), def.record.fields, registry);
    assert [] + DeclaredIdentifiers(def.record.fields) == DeclaredIdentifiers(def.record.fields);
  }

  /** A prepared entity's diagnostics are those of the field scan followed by those of the identifier stage. */
  lemma PreparedDiagnostics(def: TypeDefinition, registry: seq<string>)
    ensures var e2 := ValidateFields(NewEntity(def).ReportAll(RecordPropertyDiags(def.record)), registry);
      PrepareEntity(def, registry).diagnostics == e2.diagnostics + IdentifierDiags(e2)
  {
  }

  lemma IdentifierTailCounts(e: Entity)
    ensures var tail := IdentifierDiags(e);
      && CountCode(tail, PERSIST_501) == (if e.identifierFields == [] then 1 else 0)
      && CountCode(tail, PERSIST_502) == NullableCount(e.identifierFields)
      && CountCode(tail, PERSIST_503) == UnsupportedTypeCount(e.identifierFields)
  {
    var tail := IdentifierDiags(e);
    IdentifierDiagsCounts(e);
    if e.identifierFields == [] {
      CountSingle(tail[0], PERSIST_501);
      CountSingle(tail[0], PERSIST_502);
      CountSingle(tail[0], PERSIST_503);
    }
  }

  /** A code that neither the record checks nor the field scan report is counted only in what follows them. */
  lemma StageFreeCount(e1: Entity, a: seq<Diagnostic>, b: seq<Diagnostic>, registry: seq<string>,
                       tail: seq<Diagnostic>, c: Code)
    requires e1.diagnostics == a && b == RestFieldDiags(e1.record)
    requires (forall d :: d in a ==> d.code == PERSIST_201) && c != PERSIST_201 && c != PERSIST_301
    requires c !in FieldCodes
    ensures CountCode(ValidateFields(e1, registry).diagnostics + tail, c) == CountCode(tail, c)
  {
    ValidateFieldsKeepsCount(e1, registry, c);
    CountCodeZero(a + b, c);
    CountCodeAppend(ValidateFields(e1, registry).diagnostics, tail, c);
  }

  /**
   * Finalization of a prepared entity: its relations, then the drain of the
   * relations waiting for it; its diagnostics are emitted and it joins the
   * finalized entities.
   */
  function FinalizePrepared(s: Session, e: Entity): (r: (Session, seq<Diagnostic>))
    requires ValidSession(s) && OwnsRelations(e)
    ensures ValidSession(r.0)
  {
    var done := s.entities.Keys + {e.name};
    WellFormedGrows(s.deferred, s.entities.Keys, done);
    var rel := ValidateRelations(e, s.entities, s.deferred);
    ValidateRelationsShape(e, s.entities, s.deferred, done);
    var fin := Drain(rel.entity, s.entities, rel.deferred);
    assert s.entities[e.name := fin].Keys == done;
    (Session(s.entities[e.name := fin], s.entityNames, rel.deferred), fin.diagnostics)
  }

  function FinalizeEntity(s: Session, def: TypeDefinition): (r: (Session, seq<Diagnostic>))
    requires ValidSession(s)
    ensures ValidSession(r.0)
  {
    var e := PrepareEntity(def, s.entityNames);
    PrepareEntityShape(def, s.entityNames);
    FinalizePrepared(s, e)
  }

  /** Finalization of one definition, step by step. */
  lemma FinalizeEntityUnfold(s: Session, def: TypeDefinition)
    requires ValidSession(s)
    ensures var e := PrepareEntity(def, s.entityNames);
      var rel := ValidateRelations(e, s.entities, s.deferred);
      && e.name == def.name && OwnsRelations(e)
      && Extends(e, rel.entity)
      && DeferredWellFormed(rel.deferred, s.entities.Keys + {def.name})
      && var fin := Drain(rel.entity, s.entities, rel.deferred);
         FinalizeEntity(s, def) == (Session(s.entities[def.name := fin], s.entityNames, rel.deferred), fin.diagnostics)
  {
    PrepareEntityShape(def, s.entityNames);
    var e := PrepareEntity(def, s.entityNames);
    WellFormedGrows(s.deferred, s.entities.Keys, s.entities.Keys + {def.name});
    ValidateRelationsShape(e, s.entities, s.deferred, s.entities.Keys + {def.name});
  }

  /** Finalization of `defs` in order; the emitted diagnostics are concatenated. */
  function FinalizeAll(s: Session, defs: seq<TypeDefinition>): (r: (Session, seq<Diagnostic>))
    requires ValidSession(s)
    ensures ValidSession(r.0)
  {
    if defs == [] then (s, [])
    else
      var (s', ds) := FinalizeAll(s, defs[..|defs| - 1]);
      var (s'', ds') := FinalizeEntity(s', defs[|defs| - 1]);
      (s'', ds + ds')
  }

  lemma FinalizeAllUnfold(s: Session, defs: seq<TypeDefinition>, i: nat)
    requires ValidSession(s) && i < |defs|
    ensures var (s', ds) := FinalizeAll(s, defs[..i]);
      var (s'', ds') := FinalizeEntity(s', defs[i]);
      FinalizeAll(s, defs[..i + 1]) == (s'', ds + ds')
  {
    assert defs[..i + 1][..i] == defs[..i];
  }

  /**
   * One invocation of the validator on `node`, with the document gate and
   * the compilation-error gate as inputs: the new state and the diagnostics
   * reported, in order.
   */
  function Analyse(s: Session, node: AnalysisNode, isModelDocument: bool, hasCompilationErrors: bool)
    : (r: (Session, seq<Diagnostic>))
    requires ValidSession(s)
    ensures ValidSession(r.0)
  {
    if !isModelDocument || hasCompilationErrors then (s, [])
    else
      match node
      case ImportPrefix(isUnderscore, loc) =>
        (s, if isUnderscore then [] else [Diagnostic(PERSIST_102, [], loc)])
      case ModulePart(members) =>
        var x := Extract(members, s.entityNames);
        var (s', ds) := FinalizeAll(s.(entityNames := x.registry), x.found);
        (s', x.diags + ds)
  }

  // ---------------------------------------------------------------------
  // Properties of finalization.

  /**
   * Finalizing a prepared entity emits exactly the diagnostics of the entity
   * it stores under its name, which extend the prepared ones; no finalized
   * entity is lost and the registry is untouched.
   */
  lemma FinalizePreparedShape(s: Session, e: Entity)
    requires ValidSession(s) && OwnsRelations(e)
    ensures var (s', ds) := FinalizePrepared(s, e);
      && s'.entities.Keys == s.entities.Keys + {e.name}
      && (forall n :: n in s.entities && n != e.name ==> s'.entities[n] == s.entities[n])
      && Extends(e, s'.entities[e.name])
      && ds == s'.entities[e.name].diagnostics
      && s'.entityNames == s.entityNames
  {
    var done := s.entities.Keys + {e.name};
    WellFormedGrows(s.deferred, s.entities.Keys, done);
    var rel := ValidateRelations(e, s.entities, s.deferred);
    ValidateRelationsShape(e, s.entities, s.deferred, done);
    var fin := Drain(rel.entity, s.entities, rel.deferred);
    DrainShape(rel.entity, s.entities, rel.deferred);
    ExtendsTrans(e, rel.entity, fin);
  }

  /** The drain only appends diagnostics, and only pairwise-validation ones. */
  lemma DrainShape(e: Entity, entities: map<string, Entity>, deferred: Deferred)
    requires DeferredWellFormed(deferred, entities.Keys + {e.name})
    ensures Extends(e, Drain(e, entities, deferred))
    ensures CodesWithin(Added(e, Drain(e, entities, deferred)), {PERSIST_402, PERSIST_420, PERSIST_422})
  {
    if e.name in deferred {
      DrainIntoShape(e, deferred[e.name], entities);
    } else {
      ReportAllExtends(e, []);
      assert e.ReportAll([]) == e;
    }
  }

  lemma {:induction false} DrainIntoShape(e: Entity, bucket: seq<RelationField>, entities: map<string, Entity>)
    requires forall f :: f in bucket ==> f.containingEntity in entities
    ensures Extends(e, DrainInto(e, bucket, entities))
    ensures CodesWithin(Added(e, DrainInto(e, bucket, entities)), {PERSIST_402, PERSIST_420, PERSIST_422})
    decreases |bucket|
  {
    if bucket == [] {
      ReportAllExtends(e, []);
      assert e.ReportAll([]) == e;
    } else {
      var prefix, f := bucket[..|bucket| - 1], bucket[|bucket| - 1];
      assert forall g :: g in prefix ==> g in bucket;
      DrainIntoShape(e, prefix, entities);
      var e' := DrainInto(e, prefix, entities);
      var ds := RelationDiags(f, entities[f.containingEntity], e', e'.name);
      RelationDiagsCodes(f, entities[f.containingEntity], e', e'.name);
      ReportAllExtends(e', ds);
      ExtendsTrans(e, e', e'.ReportAll(ds));
      CodesWithinAppend(Added(e, e'), ds, {PERSIST_402, PERSIST_420, PERSIST_422});
    }
  }

  /** Pairwise validation reports only missing mirrors, n:m relations and declared foreign keys. */
  lemma RelationDiagsCodes(pf: RelationField, processing: Entity, referred: Entity, reportingName: string)
    ensures CodesWithin(RelationDiags(pf, processing, referred, reportingName), {PERSIST_402, PERSIST_420, PERSIST_422})
  {
    var m := MirrorOf(pf.containingEntity, referred.relationFields);
    if m.Some? && !(pf.isArray && m.value.isArray) {
      var (parent, child) :=
        if !pf.isArray && !m.value.isArray then
          (if processing.name == reportingName then (referred, processing) else (processing, referred))
        else if !pf.isArray then (processing, referred)
        else (referred, processing);
      assert RelationDiags(pf, processing, referred, reportingName) == ForeignKeyDiags(parent, child);
      ForeignKeyDiagsOfSound(parent, child.name, child.IdentifierFieldNames());
    }
  }

  /**
   * Finalization in order never removes an entity: afterwards the finalized
   * entities are the earlier ones plus one per definition.
   */
  /** Finalizing one definition adds its name to the finalized entities and leaves the registry alone. */
  lemma FinalizeEntityKeys(s: Session, def: TypeDefinition)
    requires ValidSession(s)
    ensures FinalizeEntity(s, def).0.entities.Keys == s.entities.Keys + {def.name}
    ensures FinalizeEntity(s, def).0.entityNames == s.entityNames
  {
    PrepareEntityShape(def, s.entityNames);
    FinalizePreparedShape(s, PrepareEntity(def, s.entityNames));
  }

  /** The names of `defs`, as a set. */
  function DefinedNames(defs: seq<TypeDefinition>): set<string> {
    if defs == [] then {} else DefinedNames(defs[..|defs| - 1]) + {defs[|defs| - 1].name}
  }

  lemma {:induction false} FinalizeAllKeys(s: Session, defs: seq<TypeDefinition>)
    requires ValidSession(s)
    ensures FinalizeAll(s, defs).0.entities.Keys == s.entities.Keys + DefinedNames(defs)
    ensures FinalizeAll(s, defs).0.entityNames == s.entityNames
    decreases |defs|
  {
    if defs != [] {
      var prefix, def := defs[..|defs| - 1], defs[|defs| - 1];
      FinalizeAllKeys(s, prefix);
      var s' := FinalizeAll(s, prefix).0;
      FinalizeEntityKeys(s', def);
      assert FinalizeAll(s, defs).0 == FinalizeEntity(s', def).0;
    }
  }
}
