/**
 * The in-memory entity built while one record type definition is validated:
 * its non-relation fields (name to location), identifier (`readonly`) fields,
 * relation fields and the diagnostics reported against it.
 */
module EntityModel {
  import opened Syntax
  import opened Diagnostics

  /** A `readonly` field: its name, recorded type name, nullability and type location. */
  datatype IdentifierField = IdentifierField(name: string, typ: string, nullable: bool, typeLoc: Loc)

  /** A field whose type is another entity of the model. */
  datatype RelationField = RelationField(typ: string, isArray: bool, loc: Loc, containingEntity: string)

  datatype Entity = Entity(
    name: string,
    nameLoc: Loc,
    record: RecordDesc,
    nonRelationFields: map<string, Loc>,
    identifierFields: seq<IdentifierField>,
    relationFields: seq<RelationField>,
    containsRelations: bool,
    diagnostics: seq<Diagnostic>)
  {
    function Report(d: Diagnostic): Entity {
      this.(diagnostics := diagnostics + [d])
    }

    function ReportAll(ds: seq<Diagnostic>): Entity {
      this.(diagnostics := diagnostics + ds)
    }

    lemma ReportAsReportAll(d: Diagnostic)
      ensures Report(d) == ReportAll([d])
    {
    }

    lemma ReportAllNothing()
      ensures ReportAll([]) == this
    {
      assert diagnostics + [] == diagnostics;
    }

    lemma ReportAllTwice(a: seq<Diagnostic>, b: seq<Diagnostic>)
      ensures ReportAll(a).ReportAll(b) == ReportAll(a + b)
    {
      assert diagnostics + a + b == diagnostics + (a + b);
    }

    function IdentifierFieldNames(): seq<string> {
      seq(|identifierFields|, i requires 0 <= i < |identifierFields| => identifierFields[i].name)
    }
  }

  /** A freshly created entity for a record type definition: nothing recorded yet. */
  function NewEntity(def: TypeDefinition): Entity {
    Entity(def.name, def.nameLoc, def.record, map[], [], [], false, [])
  }
}
