/**
 * Record-shape and per-field validation of one entity: closedness, the rest
 * descriptor, default-valued, inherited, duplicate and `?`-marked fields, type
 * legality, and the collection of identifier, relation and non-relation
 * fields.
 */
module FieldRules {
  import opened Wrappers
  import opened Syntax
  import opened Diagnostics
  import opened Text
  import opened EntityModel
  import opened TypeRules

  /** 201 when the record is not closed. */
  function RecordPropertyDiags(rec: RecordDesc): (r: seq<Diagnostic>)
    ensures r == [] <==> rec.closed
    ensures |r| <= 1
    ensures forall d :: d in r ==> d == Diagnostic(PERSIST_201, [], rec.loc)
  {
    if !rec.closed then [Diagnostic(PERSIST_201, [], rec.loc)] else []
  }

  /** 301 at the rest descriptor when the record has one. */
  function RestFieldDiags(rec: RecordDesc): (r: seq<Diagnostic>)
    ensures r == [] <==> rec.rest.None?
    ensures |r| <= 1
    ensures forall d :: d in r ==> d == Diagnostic(PERSIST_301, [], rec.rest.value)
  {
    if rec.rest.Some? then [Diagnostic(PERSIST_301, [], rec.rest.value)] else []
  }

  /** The entity being built and the lower-cased names of the fields accepted so far. */
  datatype FieldScan = FieldScan(entity: Entity, seenLower: seq<string>)

  /** The diagnostics of a plain field whose name is not a repeat: 304 first, then its type's. */
  function AcceptedFieldDiags(questionMark: bool, typ: TypeDesc, loc: Loc, entityName: string, registry: seq<string>)
    : seq<Diagnostic>
  {
    (if questionMark then [Diagnostic(PERSIST_304, [], loc)] else [])
      + ClassifyFieldType(typ, loc, entityName, registry).diags
  }

  /** The entity after a plain field whose name is not a repeat has been recorded. */
  function AcceptField(e: Entity, name: string, isReadonly: bool, questionMark: bool, typ: TypeDesc, loc: Loc,
                       registry: seq<string>): Entity
  {
    var v := ClassifyFieldType(typ, loc, e.name, registry);
    e.(
      diagnostics := e.diagnostics + AcceptedFieldDiags(questionMark, typ, loc, e.name, registry),
      nonRelationFields := if v.nonRelation then e.nonRelationFields[name := loc] else e.nonRelationFields,
      relationFields := if v.relation.Some? then e.relationFields + [v.relation.value] else e.relationFields,
      containsRelations := e.containsRelations || v.relation.Some?,
      identifierFields :=
        if isReadonly then e.identifierFields + [IdentifierField(name, v.identifierType, v.optional, typ.loc)]
        else e.identifierFields)
  }

  /** The effect of one field on the scan. */
  function FieldStep(st: FieldScan, f: FieldNode, registry: seq<string>): FieldScan {
    match f
    case DefaultValuedField(loc) => st.(entity := st.entity.Report(Diagnostic(PERSIST_302, [], loc)))
    case InheritedField(loc) => st.(entity := st.entity.Report(Diagnostic(PERSIST_303, [], loc)))
    case PlainField(name, nameLoc, isReadonly, questionMark, typ, loc) =>
      if Lower(name) in st.seenLower then
        st.(entity := st.entity.Report(Diagnostic(PERSIST_307, [name], nameLoc)))
      else
        FieldScan(AcceptField(st.entity, name, isReadonly, questionMark, typ, loc, registry),
                  st.seenLower + [Lower(name)])
  }

  /** The scan after the fields `fields`, in order, starting from `start`. */
  function ScanFields(start: Entity, fields: seq<FieldNode>, registry: seq<string>): FieldScan {
    if fields == [] then FieldScan(start, [])
    else FieldStep(ScanFields(start, fields[..|fields| - 1], registry), fields[|fields| - 1], registry)
  }

  lemma ScanFieldsStep(start: Entity, fields: seq<FieldNode>, i: nat, registry: seq<string>)
    requires i < |fields|
    ensures ScanFields(start, fields[..i + 1], registry) == FieldStep(ScanFields(start, fields[..i], registry), fields[i], registry)
  {
    assert fields[..i + 1][..i] == fields[..i];
  }

  /** The entity after the rest-descriptor check and the scan of all its fields. */
  function ValidateFields(e: Entity, registry: seq<string>): Entity {
    ScanFields(e.ReportAll(RestFieldDiags(e.record)), e.record.fields, registry).entity
  }

  // Reference counts over a field list, used to state what the scan reports.

  function DefaultValuedCount(fields: seq<FieldNode>): nat {
    if fields == [] then 0
    else DefaultValuedCount(fields[..|fields| - 1]) + (if fields[|fields| - 1].DefaultValuedField? then 1 else 0)
  }

  function InheritedCount(fields: seq<FieldNode>): nat {
    if fields == [] then 0
    else InheritedCount(fields[..|fields| - 1]) + (if fields[|fields| - 1].InheritedField? then 1 else 0)
  }

  /** The lower-cased names of the plain fields. */
  function PlainLowerNames(fields: seq<FieldNode>): set<string> {
    if fields == [] then {}
    else
      var last := fields[|fields| - 1];
      PlainLowerNames(fields[..|fields| - 1]) + (if last.PlainField? then {Lower(last.name)} else {})
  }

  /** Plain fields whose lower-cased name repeats that of an earlier plain field. */
  function RepeatedNameCount(fields: seq<FieldNode>): nat {
    if fields == [] then 0
    else
      var prefix, last := fields[..|fields| - 1], fields[|fields| - 1];
      RepeatedNameCount(prefix) + (if last.PlainField? && Lower(last.name) in PlainLowerNames(prefix) then 1 else 0)
  }

  /** Plain fields marked `?` whose lower-cased name is not a repeat. */
  function MarkedOptionalCount(fields: seq<FieldNode>): nat {
    if fields == [] then 0
    else
      var prefix, last := fields[..|fields| - 1], fields[|fields| - 1];
      MarkedOptionalCount(prefix)
        + (if last.PlainField? && last.questionMark && Lower(last.name) !in PlainLowerNames(prefix) then 1 else 0)
  }

  /** The codes field validation can report. */
  const FieldCodes: set<Code> :=
    {PERSIST_302, PERSIST_303, PERSIST_304, PERSIST_305, PERSIST_306, PERSIST_307, PERSIST_421}

  /** One field step: what it may change in the entity and in the remembered names. */
  lemma FieldStepShape(st: FieldScan, f: FieldNode, registry: seq<string>)
    ensures var e, e' := st.entity, FieldStep(st, f, registry).entity;
      && e'.name == e.name && e'.nameLoc == e.nameLoc && e'.record == e.record
      && (forall d :: d in e'.diagnostics ==> d in e.diagnostics || d.code in FieldCodes)
      && (forall rf :: rf in e'.relationFields ==>
            rf in e.relationFields || (rf.containingEntity == e.name && rf.typ in registry))
      && |e'.relationFields| >= |e.relationFields|
      && (e'.containsRelations <==> e.containsRelations || |e'.relationFields| > |e.relationFields|)
    ensures var seen, seen' := st.seenLower, FieldStep(st, f, registry).seenLower;
      && (forall x :: x in seen' <==> x in seen || (f.PlainField? && x == Lower(f.name)))
      && (seen' == seen || (seen' == seen + [Lower(f.name)] && Lower(f.name) !in seen))
  {
    if f.PlainField? && Lower(f.name) !in st.seenLower {
      var added := AcceptedFieldDiags(f.questionMark, f.typ, f.loc, st.entity.name, registry);
      assert forall d :: d in added ==> d.code in FieldCodes;
    }
  }

  /**
   * The scan keeps the entity's identity, adds only field-validation
   * diagnostics, records relations only to entities of the model on behalf
   * of this entity (setting `containsRelations` exactly when it records one),
   * and remembers exactly the lower-cased names of the plain fields, each once.
   */
  lemma {:induction false} ScanFieldsShape(start: Entity, fields: seq<FieldNode>, registry: seq<string>)
    ensures var r := ScanFields(start, fields, registry).entity;
      && r.name == start.name && r.nameLoc == start.nameLoc && r.record == start.record
      && (forall d :: d in r.diagnostics ==> d in start.diagnostics || d.code in FieldCodes)
      && (forall rf :: rf in r.relationFields ==>
            rf in start.relationFields || (rf.containingEntity == start.name && rf.typ in registry))
      && |r.relationFields| >= |start.relationFields|
      && (r.containsRelations <==> start.containsRelations || |r.relationFields| > |start.relationFields|)
    ensures var seen := ScanFields(start, fields, registry).seenLower;
      && (forall x :: x in seen <==> x in PlainLowerNames(fields))
      && (forall i, j :: 0 <= i < j < |seen| ==> seen[i] != seen[j])
    decreases |fields|
  {
    if fields != [] {
      var prefix := fields[..|fields| - 1];
      ScanFieldsShape(start, prefix, registry);
      FieldStepShape(ScanFields(start, prefix, registry), fields[|fields| - 1], registry);
    }
  }

  /** The diagnostics one field step appends. */
  function FieldStepDiags(st: FieldScan, f: FieldNode, registry: seq<string>): seq<Diagnostic> {
    match f
    case DefaultValuedField(loc) => [Diagnostic(PERSIST_302, [], loc)]
    case InheritedField(loc) => [Diagnostic(PERSIST_303, [], loc)]
    case PlainField(name, nameLoc, _, questionMark, typ, loc) =>
      if Lower(name) in st.seenLower then [Diagnostic(PERSIST_307, [name], nameLoc)]
      else AcceptedFieldDiags(questionMark, typ, loc, st.entity.name, registry)
  }

  lemma FieldStepAppends(st: FieldScan, f: FieldNode, registry: seq<string>)
    ensures FieldStep(st, f, registry).entity.diagnostics == st.entity.diagnostics + FieldStepDiags(st, f, registry)
  {
  }

  lemma FieldStepCounts(st: FieldScan, f: FieldNode, registry: seq<string>)
    ensures var added, repeated := FieldStepDiags(st, f, registry), f.PlainField? && Lower(f.name) in st.seenLower;
      && CountCode(added, PERSIST_302) == (if f.DefaultValuedField? then 1 else 0)
      && CountCode(added, PERSIST_303) == (if f.InheritedField? then 1 else 0)
      && CountCode(added, PERSIST_307) == (if repeated then 1 else 0)
      && CountCode(added, PERSIST_304) == (if f.PlainField? && f.questionMark && !repeated then 1 else 0)
    ensures var added, repeated := FieldStepDiags(st, f, registry), f.PlainField? && Lower(f.name) in st.seenLower;
      f.DefaultValuedField? || f.InheritedField? || repeated ==>
        |added| == 1 && FieldStep(st, f, registry) == st.(entity := st.entity.ReportAll(added))
  {
    match f
    case DefaultValuedField(loc) =>
      CountSingles(Diagnostic(PERSIST_302, [], loc));
    case InheritedField(loc) =>
      CountSingles(Diagnostic(PERSIST_303, [], loc));
    case PlainField(name, nameLoc, _, questionMark, typ, loc) =>
      if Lower(name) in st.seenLower {
        CountSingles(Diagnostic(PERSIST_307, [name], nameLoc));
      } else {
        var v := ClassifyFieldType(typ, loc, st.entity.name, registry);
        AcceptedCounts(questionMark, loc, v.diags);
      }
  }

  lemma AcceptedCounts(questionMark: bool, loc: Loc, typeDiags: seq<Diagnostic>)
    requires forall d :: d in typeDiags ==> d.code in {PERSIST_305, PERSIST_306, PERSIST_421}
    ensures var added := (if questionMark then [Diagnostic(PERSIST_304, [], loc)] else []) + typeDiags;
      && CountCode(added, PERSIST_302) == 0 && CountCode(added, PERSIST_303) == 0
      && CountCode(added, PERSIST_307) == 0 && CountCode(added, PERSIST_304) == (if questionMark then 1 else 0)
  {
    var marked := if questionMark then [Diagnostic(PERSIST_304, [], loc)] else [];
    if questionMark {
      CountSingles(Diagnostic(PERSIST_304, [], loc));
    }
    CountCodeZero(typeDiags, PERSIST_302);
    CountCodeZero(typeDiags, PERSIST_303);
    CountCodeZero(typeDiags, PERSIST_307);
    CountCodeZero(typeDiags, PERSIST_304);
    CountCodesAppend(marked, typeDiags);
  }

  lemma CountSingles(d: Diagnostic)
    ensures CountCode([d], PERSIST_302) == if d.code == PERSIST_302 then 1 else 0
    ensures CountCode([d], PERSIST_303) == if d.code == PERSIST_303 then 1 else 0
    ensures CountCode([d], PERSIST_307) == if d.code == PERSIST_307 then 1 else 0
    ensures CountCode([d], PERSIST_304) == if d.code == PERSIST_304 then 1 else 0
  {
    CountSingle(d, PERSIST_302);
    CountSingle(d, PERSIST_303);
    CountSingle(d, PERSIST_307);
    CountSingle(d, PERSIST_304);
  }

  /**
   * Each default-valued field yields one 302, each inherited field one 303,
   * each plain field whose lower-cased name repeats an earlier one one 307,
   * and each other `?`-marked plain field one 304.
   */
  lemma {:induction false} ScanFieldsCounts(start: Entity, fields: seq<FieldNode>, registry: seq<string>)
    ensures var ds := ScanFields(start, fields, registry).entity.diagnostics;
      && CountCode(ds, PERSIST_302) == CountCode(start.diagnostics, PERSIST_302) + DefaultValuedCount(fields)
      && CountCode(ds, PERSIST_303) == CountCode(start.diagnostics, PERSIST_303) + InheritedCount(fields)
      && CountCode(ds, PERSIST_307) == CountCode(start.diagnostics, PERSIST_307) + RepeatedNameCount(fields)
      && CountCode(ds, PERSIST_304) == CountCode(start.diagnostics, PERSIST_304) + MarkedOptionalCount(fields)
    decreases |fields|
  {
    if fields != [] {
      var prefix := fields[..|fields| - 1];
      ScanFieldsCounts(start, prefix, registry);
      ScanFieldsShape(start, prefix, registry);
      var st := ScanFields(start, prefix, registry);
      var f := fields[|fields| - 1];
      FieldStepCounts(st, f, registry);
      FieldStepAppends(st, f, registry);
      CountCodesAppend(st.entity.diagnostics, FieldStepDiags(st, f, registry));
    }
  }

  /** Counting the four rejection codes distributes over concatenation. */
  lemma CountCodesAppend(a: seq<Diagnostic>, b: seq<Diagnostic>)
    ensures CountCode(a + b, PERSIST_302) == CountCode(a, PERSIST_302) + CountCode(b, PERSIST_302)
    ensures CountCode(a + b, PERSIST_303) == CountCode(a, PERSIST_303) + CountCode(b, PERSIST_303)
    ensures CountCode(a + b, PERSIST_307) == CountCode(a, PERSIST_307) + CountCode(b, PERSIST_307)
    ensures CountCode(a + b, PERSIST_304) == CountCode(a, PERSIST_304) + CountCode(b, PERSIST_304)
  {
    CountCodeAppend(a, b, PERSIST_302);
    CountCodeAppend(a, b, PERSIST_303);
    CountCodeAppend(a, b, PERSIST_307);
    CountCodeAppend(a, b, PERSIST_304);
  }

  // ---------------------------------------------------------------------
  // Reference definitions of what the scan records, over the field list.

  /** A plain field whose lower-cased name no earlier plain field of `prefix` has. */
  predicate FirstOccurrence(prefix: seq<FieldNode>, f: FieldNode) {
    f.PlainField? && Lower(f.name) !in PlainLowerNames(prefix)
  }

  /** The identifier field recorded for a `readonly` plain field. */
  function IdentifierOf(f: FieldNode): IdentifierField
    requires f.PlainField?
  {
    IdentifierField(f.name, RenderType(Unwrap(f.typ).element), f.typ.OptionalOf?, f.typ.loc)
  }

  /** The `readonly` first-occurrence plain fields of `fields`, in order, as identifier fields. */
  function DeclaredIdentifiers(fields: seq<FieldNode>): seq<IdentifierField> {
    if fields == [] then []
    else
      var prefix, last := fields[..|fields| - 1], fields[|fields| - 1];
      DeclaredIdentifiers(prefix) + (if FirstOccurrence(prefix, last) && last.isReadonly then [IdentifierOf(last)] else [])
  }

  /** The first-occurrence plain fields of `fields` whose element type is builtin or module-qualified, by name. */
  function DeclaredNonRelation(fields: seq<FieldNode>): map<string, Loc> {
    if fields == [] then map[]
    else
      var prefix, last := fields[..|fields| - 1], fields[|fields| - 1];
      if FirstOccurrence(prefix, last) && (Unwrap(last.typ).element.BuiltinName? || Unwrap(last.typ).element.QualifiedName?)
      then DeclaredNonRelation(prefix)[last.name := last.loc]
      else DeclaredNonRelation(prefix)
  }

  /** The first-occurrence plain fields of `fields` whose type names an entity of `registry`, as relation fields of `entityName`. */
  function DeclaredRelations(fields: seq<FieldNode>, entityName: string, registry: seq<string>): seq<RelationField> {
    if fields == [] then []
    else
      var prefix, last := fields[..|fields| - 1], fields[|fields| - 1];
      DeclaredRelations(prefix, entityName, registry)
        + if FirstOccurrence(prefix, last) && IsRelationType(last.typ, registry)
          then [RelationField(Unwrap(last.typ).element.name, Unwrap(last.typ).isArray, last.loc, entityName)]
          else []
  }

  /**
   * The scan records, after what `start` holds: as identifier fields the
   * `readonly` plain fields whose lower-cased name is new, in order, with
   * their element type name, nullability and type location; as non-relation
   * fields the new plain fields of builtin or module-qualified element type;
   * and as relation fields, on behalf of `start`, the new plain fields whose
   * type names an entity of the model.
   */
  lemma ScanFieldsEntries(start: Entity, fields: seq<FieldNode>, registry: seq<string>)
    ensures var r := ScanFields(start, fields, registry).entity;
      && r.identifierFields == start.identifierFields + DeclaredIdentifiers(fields)
      && r.nonRelationFields == start.nonRelationFields + DeclaredNonRelation(fields)
      && r.relationFields == start.relationFields + DeclaredRelations(fields, start.name, registry)
  {
    ScanFieldsIdentifiers(start, fields, registry);
    ScanFieldsNonRelation(start, fields, registry);
    ScanFieldsRelations(start, fields, registry);
  }

  /** The last field of `fields` is a first occurrence exactly when the scan of the others has not seen its name. */
  lemma LastStep(start: Entity, fields: seq<FieldNode>, registry: seq<string>)
    requires fields != []
    ensures var prefix, last := fields[..|fields| - 1], fields[|fields| - 1];
      var st := ScanFields(start, prefix, registry);
      && ScanFields(start, fields, registry) == FieldStep(st, last, registry)
      && st.entity.name == start.name
      && (FirstOccurrence(prefix, last) <==> last.PlainField? && Lower(last.name) !in st.seenLower)
  {
    ScanFieldsShape(start, fields[..|fields| - 1], registry);
  }

  lemma {:induction false} ScanFieldsIdentifiers(start: Entity, fields: seq<FieldNode>, registry: seq<string>)
    ensures ScanFields(start, fields, registry).entity.identifierFields == start.identifierFields + DeclaredIdentifiers(fields)
    decreases |fields|
  {
    if fields == [] {
      assert start.identifierFields + [] == start.identifierFields;
    } else {
      var prefix, last := fields[..|fields| - 1], fields[|fields| - 1];
      ScanFieldsIdentifiers(start, prefix, registry);
      LastStep(start, fields, registry);
      FieldStepEntries(ScanFields(start, prefix, registry), last, registry);
      var added := if FirstOccurrence(prefix, last) && last.isReadonly then [IdentifierOf(last)] else [];
      assert DeclaredIdentifiers(fields) == DeclaredIdentifiers(prefix) + added;
      assert start.identifierFields + DeclaredIdentifiers(prefix) + added == start.identifierFields + DeclaredIdentifiers(fields);
    }
  }

  lemma {:induction false} ScanFieldsNonRelation(start: Entity, fields: seq<FieldNode>, registry: seq<string>)
    ensures ScanFields(start, fields, registry).entity.nonRelationFields == start.nonRelationFields + DeclaredNonRelation(fields)
    decreases |fields|
  {
    if fields == [] {
      assert start.nonRelationFields + map[] == start.nonRelationFields;
    } else {
      var prefix, last := fields[..|fields| - 1], fields[|fields| - 1];
      ScanFieldsNonRelation(start, prefix, registry);
      LastStep(start, fields, registry);
      FieldStepEntries(ScanFields(start, prefix, registry), last, registry);
      if FirstOccurrence(prefix, last) && (Unwrap(last.typ).element.BuiltinName? || Unwrap(last.typ).element.QualifiedName?) {
        assert (start.nonRelationFields + DeclaredNonRelation(prefix))[last.name := last.loc]
               == start.nonRelationFields + DeclaredNonRelation(prefix)[last.name := last.loc];
      }
    }
  }

  lemma {:induction false} ScanFieldsRelations(start: Entity, fields: seq<FieldNode>, registry: seq<string>)
    ensures ScanFields(start, fields, registry).entity.relationFields
            == start.relationFields + DeclaredRelations(fields, start.name, registry)
    decreases |fields|
  {
    if fields == [] {
      assert start.relationFields + [] == start.relationFields;
    } else {
      var prefix, last := fields[..|fields| - 1], fields[|fields| - 1];
      ScanFieldsRelations(start, prefix, registry);
      LastStep(start, fields, registry);
      FieldStepEntries(ScanFields(start, prefix, registry), last, registry);
      var added := if FirstOccurrence(prefix, last) && IsRelationType(last.typ, registry)
        then [RelationField(Unwrap(last.typ).element.name, Unwrap(last.typ).isArray, last.loc, start.name)]
        else [];
      assert DeclaredRelations(fields, start.name, registry) == DeclaredRelations(prefix, start.name, registry) + added;
      assert start.relationFields + DeclaredRelations(prefix, start.name, registry) + added
             == start.relationFields + DeclaredRelations(fields, start.name, registry);
    }
  }

  /** What one step records: nothing for a field that is not a first occurrence. */
  lemma FieldStepEntries(st: FieldScan, f: FieldNode, registry: seq<string>)
    ensures var e, e' := st.entity, FieldStep(st, f, registry).entity;
      var first := f.PlainField? && Lower(f.name) !in st.seenLower;
      && e'.name == e.name
      && (!first ==> e'.identifierFields == e.identifierFields && e'.nonRelationFields == e.nonRelationFields
                     && e'.relationFields == e.relationFields)
      && (first ==>
            var v := ClassifyFieldType(f.typ, f.loc, e.name, registry);
            && e'.identifierFields == e.identifierFields + (if f.isReadonly then [IdentifierOf(f)] else [])
            && e'.nonRelationFields == (if v.nonRelation then e.nonRelationFields[f.name := f.loc] else e.nonRelationFields)
            && e'.relationFields == e.relationFields + (if v.relation.Some? then [v.relation.value] else []))
  {
  }

  lemma FieldStepCodes(st: FieldScan, f: FieldNode, registry: seq<string>)
    ensures CodesWithin(FieldStepDiags(st, f, registry), FieldCodes)
  {
  }

  /** The scan leaves the count of every code it does not report unchanged. */
  lemma {:induction false} ScanFieldsKeepsCount(start: Entity, fields: seq<FieldNode>, registry: seq<string>, c: Code)
    requires c !in FieldCodes
    ensures CountCode(ScanFields(start, fields, registry).entity.diagnostics, c) == CountCode(start.diagnostics, c)
    decreases |fields|
  {
    if fields != [] {
      var prefix, last := fields[..|fields| - 1], fields[|fields| - 1];
      ScanFieldsKeepsCount(start, prefix, registry, c);
      var st := ScanFields(start, prefix, registry);
      FieldStepAppends(st, last, registry);
      FieldStepCodes(st, last, registry);
      CountCodeZero(FieldStepDiags(st, last, registry), c);
      CountCodeAppend(st.entity.diagnostics, FieldStepDiags(st, last, registry), c);
    }
  }

  /** An entity gets no identifier field exactly when none of its `readonly` plain fields is a first occurrence. */
  lemma {:induction false} DeclaredIdentifiersEmpty(fields: seq<FieldNode>)
    ensures DeclaredIdentifiers(fields) == [] <==>
      forall i :: 0 <= i < |fields| ==> !(FirstOccurrence(fields[..i], fields[i]) && fields[i].isReadonly)
    decreases |fields|
  {
    if fields != [] {
      var n := |fields| - 1;
      var prefix := fields[..n];
      DeclaredIdentifiersEmpty(prefix);
      assert forall i :: 0 <= i < n ==> prefix[..i] == fields[..i] && prefix[i] == fields[i];
    }
  }

  /** Field validation leaves the count of every code it does not report as the rest-descriptor check left it. */
  lemma ValidateFieldsKeepsCount(e: Entity, registry: seq<string>, c: Code)
    requires c !in FieldCodes
    ensures CountCode(ValidateFields(e, registry).diagnostics, c) == CountCode(e.diagnostics + RestFieldDiags(e.record), c)
  {
    ScanFieldsKeepsCount(e.ReportAll(RestFieldDiags(e.record)), e.record.fields, registry, c);
  }

  // ---------------------------------------------------------------------
  // Which fields draw a diagnostic.

  /** A field that draws no diagnostic: plain, the first with its lower-cased name, not marked `?`, of a legal type. */
  predicate CleanField(prefix: seq<FieldNode>, f: FieldNode, registry: seq<string>) {
    FirstOccurrence(prefix, f) && !f.questionMark && LegalFieldType(f.typ, registry)
  }

  /** Every field of `fields` draws no diagnostic. */
  predicate CleanFields(fields: seq<FieldNode>, registry: seq<string>) {
    forall i :: 0 <= i < |fields| ==> CleanField(fields[..i], fields[i], registry)
  }

  /** First-occurrence plain fields whose type is not legal. */
  function IllegalTypeCount(fields: seq<FieldNode>, registry: seq<string>): nat {
    if fields == [] then 0
    else
      var prefix, last := fields[..|fields| - 1], fields[|fields| - 1];
      IllegalTypeCount(prefix, registry)
        + (if FirstOccurrence(prefix, last) && !LegalFieldType(last.typ, registry) then 1 else 0)
  }

  /** The diagnostics of `ds` that reject a field's type: 305, 306 and 421. */
  function TypeCodeCount(ds: seq<Diagnostic>): nat {
    CountCode(ds, PERSIST_305) + CountCode(ds, PERSIST_306) + CountCode(ds, PERSIST_421)
  }

  lemma TypeCodeCountAppend(a: seq<Diagnostic>, b: seq<Diagnostic>)
    ensures TypeCodeCount(a + b) == TypeCodeCount(a) + TypeCodeCount(b)
  {
    CountCodeAppend(a, b, PERSIST_305);
    CountCodeAppend(a, b, PERSIST_306);
    CountCodeAppend(a, b, PERSIST_421);
  }

  /** One field draws no diagnostic exactly when it is a new plain name, not marked `?`, of a legal type. */
  lemma FieldStepSilent(st: FieldScan, f: FieldNode, registry: seq<string>)
    ensures FieldStepDiags(st, f, registry) == [] <==>
      f.PlainField? && Lower(f.name) !in st.seenLower && !f.questionMark && LegalFieldType(f.typ, registry)
  {
  }

  /** One field draws one type rejection exactly when it is a new plain name of an illegal type. */
  lemma FieldStepTypeCount(st: FieldScan, f: FieldNode, registry: seq<string>)
    ensures TypeCodeCount(FieldStepDiags(st, f, registry))
            == if f.PlainField? && Lower(f.name) !in st.seenLower && !LegalFieldType(f.typ, registry) then 1 else 0
  {
    match f
    case DefaultValuedField(loc) =>
      TypeCodeSingle(Diagnostic(PERSIST_302, [], loc));
    case InheritedField(loc) =>
      TypeCodeSingle(Diagnostic(PERSIST_303, [], loc));
    case PlainField(name, nameLoc, _, questionMark, typ, loc) =>
      if Lower(name) in st.seenLower {
        TypeCodeSingle(Diagnostic(PERSIST_307, [name], nameLoc));
      } else {
        var marked := if questionMark then [Diagnostic(PERSIST_304, [], loc)] else [];
        var v := ClassifyFieldType(typ, loc, st.entity.name, registry);
        if questionMark {
          TypeCodeSingle(Diagnostic(PERSIST_304, [], loc));
        }
        if v.diags != [] {
          assert v.diags == [v.diags[0]];
          TypeCodeSingle(v.diags[0]);
        }
        TypeCodeCountAppend(marked, v.diags);
      }
  }

  lemma TypeCodeSingle(d: Diagnostic)
    ensures TypeCodeCount([d]) == if d.code in {PERSIST_305, PERSIST_306, PERSIST_421} then 1 else 0
  {
    CountSingle(d, PERSIST_305);
    CountSingle(d, PERSIST_306);
    CountSingle(d, PERSIST_421);
  }

  /** The scan reports one 305, 306 or 421 for each first-occurrence plain field of an illegal type, and no more. */
  lemma {:induction false} ScanFieldsTypeCounts(start: Entity, fields: seq<FieldNode>, registry: seq<string>)
    ensures TypeCodeCount(ScanFields(start, fields, registry).entity.diagnostics)
            == TypeCodeCount(start.diagnostics) + IllegalTypeCount(fields, registry)
    decreases |fields|
  {
    if fields != [] {
      var prefix, last := fields[..|fields| - 1], fields[|fields| - 1];
      ScanFieldsTypeCounts(start, prefix, registry);
      LastStep(start, fields, registry);
      var st := ScanFields(start, prefix, registry);
      FieldStepAppends(st, last, registry);
      FieldStepTypeCount(st, last, registry);
      TypeCodeCountAppend(st.entity.diagnostics, FieldStepDiags(st, last, registry));
    }
  }

  lemma CleanFieldsLast(fields: seq<FieldNode>, registry: seq<string>)
    requires fields != []
    ensures var prefix, last := fields[..|fields| - 1], fields[|fields| - 1];
      CleanFields(fields, registry) <==> CleanFields(prefix, registry) && CleanField(prefix, last, registry)
  {
    var n := |fields| - 1;
    var prefix := fields[..n];
    assert forall i :: 0 <= i < n ==> prefix[..i] == fields[..i] && prefix[i] == fields[i];
  }

  /**
   * The scan only appends diagnostics, and appends none exactly when every
   * field is a plain field, the first with its lower-cased name, not marked
   * `?`, of a legal type.
   */
  lemma {:induction false} ScanFieldsSilent(start: Entity, fields: seq<FieldNode>, registry: seq<string>)
    ensures var ds := ScanFields(start, fields, registry).entity.diagnostics;
      && start.diagnostics <= ds
      && (ds == start.diagnostics <==> CleanFields(fields, registry))
    decreases |fields|
  {
    if fields != [] {
      var prefix, last := fields[..|fields| - 1], fields[|fields| - 1];
      ScanFieldsSilent(start, prefix, registry);
      LastStep(start, fields, registry);
      CleanFieldsLast(fields, registry);
      var st := ScanFields(start, prefix, registry);
      FieldStepAppends(st, last, registry);
      FieldStepSilent(st, last, registry);
    }
  }
}
