/**
 * Relation validation: the mirror-field search, cardinality inference
 * (1:1, 1:n, n:m), the foreign-key presence check, and the per-entity
 * relation loop with its map of relations deferred until their target entity
 * is finalized.
 */
module RelationRules {
  import opened Wrappers
  import opened Syntax
  import opened Diagnostics
  import opened Text
  import opened EntityModel

  /**
   * The mirror of a relation declared on entity `owner`: the first of the
   * referred entity's relation fields whose type is `owner`.
   */
  function MirrorOf(owner: string, fields: seq<RelationField>): (m: Option<RelationField>)
    ensures m.None? <==> forall f :: f in fields ==> f.typ != owner
    ensures m.Some? ==> exists k :: (0 <= k < |fields| && fields[k] == m.value && m.value.typ == owner
      && forall j :: 0 <= j < k ==> fields[j].typ != owner)
  {
    if fields == [] then None
    else if fields[0].typ == owner then Some(fields[0])
    else
      var m := MirrorOf(owner, fields[1..]);
      assert m.Some? ==> exists k :: (1 <= k < |fields| && fields[k] == m.value && m.value.typ == owner
        && forall j :: 0 <= j < k ==> fields[j].typ != owner) by {
        if m.Some? {
          var k :| 0 <= k < |fields[1..]| && fields[1..][k] == m.value && m.value.typ == owner
            && forall j :: 0 <= j < k ==> fields[1..][j].typ != owner;
          assert fields[k + 1] == m.value;
          assert forall j :: 1 <= j < k + 1 ==> fields[j].typ != owner by {
            forall j | 1 <= j < k + 1 ensures fields[j].typ != owner {
              assert fields[j] == fields[1..][j - 1];
            }
          }
        }
      }
      m
  }

  /**
   * The conventional foreign-key field name: the child entity's name
   * lower-cased, followed by the identifier name with its first letter
   * upper-cased (`Employee`, `id` gives `employeeId`).
   */
  function ForeignKeyName(childName: string, identifierName: string): string {
    Lower(childName) + Capitalize(identifierName)
  }

  lemma ForeignKeyNameShape(childName: string, identifierName: string)
    ensures var r := ForeignKeyName(childName, identifierName);
      && |r| == |childName| + |identifierName|
      && r[..|childName|] == Lower(childName)
      && (identifierName != [] ==>
            r[|childName|] == UpperChar(identifierName[0]) && r[|childName| + 1..] == identifierName[1..])
  {
    var r := ForeignKeyName(childName, identifierName);
    assert r[..|childName|] == Lower(childName);
  }

  /** 422 when the parent already declares the foreign key for one child identifier. */
  function ForeignKeyDiag(parent: Entity, childName: string, identifierName: string): seq<Diagnostic> {
    var fk := ForeignKeyName(childName, identifierName);
    if fk in parent.nonRelationFields then
      [Diagnostic(PERSIST_422, [fk, childName], parent.nonRelationFields[fk])]
    else []
  }

  function ForeignKeyDiagsOf(parent: Entity, childName: string, names: seq<string>): seq<Diagnostic> {
    if names == [] then []
    else
      ForeignKeyDiagsOf(parent, childName, names[..|names| - 1])
        + ForeignKeyDiag(parent, childName, names[|names| - 1])
  }

  /** The foreign-key presence check of `child`'s identifiers against `parent`. */
  function ForeignKeyDiags(parent: Entity, child: Entity): seq<Diagnostic> {
    ForeignKeyDiagsOf(parent, child.name, child.IdentifierFieldNames())
  }

  lemma ForeignKeyDiagsOfStep(parent: Entity, childName: string, names: seq<string>, i: nat)
    requires i < |names|
    ensures ForeignKeyDiagsOf(parent, childName, names[..i + 1])
            == ForeignKeyDiagsOf(parent, childName, names[..i]) + ForeignKeyDiag(parent, childName, names[i])
  {
    assert names[..i + 1][..i] == names[..i];
  }

  /** The foreign-key names of `names` that `parent` already declares. */
  function DeclaredForeignKeyCount(parent: Entity, childName: string, names: seq<string>): nat {
    if names == [] then 0
    else
      DeclaredForeignKeyCount(parent, childName, names[..|names| - 1])
        + (if ForeignKeyName(childName, names[|names| - 1]) in parent.nonRelationFields then 1 else 0)
  }

  /** A 422 for a foreign key built from `childName` and one of `names`, at the parent's field. */
  predicate ForeignKeyReport(d: Diagnostic, parent: Entity, childName: string, names: seq<string>) {
    && d.code == PERSIST_422
    && |d.args| == 2
    && d.args[1] == childName
    && d.args[0] in parent.nonRelationFields
    && d.loc == parent.nonRelationFields[d.args[0]]
    && exists n :: n in names && d.args[0] == ForeignKeyName(childName, n)
  }

  predicate AllForeignKeyReports(ds: seq<Diagnostic>, parent: Entity, childName: string, names: seq<string>) {
    forall d :: d in ds ==> ForeignKeyReport(d, parent, childName, names)
  }

  lemma {:induction false} ForeignKeyDiagsOfLength(parent: Entity, childName: string, names: seq<string>)
    ensures |ForeignKeyDiagsOf(parent, childName, names)| == DeclaredForeignKeyCount(parent, childName, names)
    decreases |names|
  {
    if names != [] {
      ForeignKeyDiagsOfLength(parent, childName, names[..|names| - 1]);
    }
  }

  lemma {:induction false} ForeignKeyDiagsOfSound(parent: Entity, childName: string, names: seq<string>)
    ensures AllForeignKeyReports(ForeignKeyDiagsOf(parent, childName, names), parent, childName, names)
    decreases |names|
  {
    if names != [] {
      var prefix, last := names[..|names| - 1], names[|names| - 1];
      ForeignKeyDiagsOfSound(parent, childName, prefix);
      var a, b := ForeignKeyDiagsOf(parent, childName, prefix), ForeignKeyDiag(parent, childName, last);
      assert ForeignKeyDiagsOf(parent, childName, names) == a + b;
      forall d | d in a + b ensures ForeignKeyReport(d, parent, childName, names) {
        if d in a {
          assert ForeignKeyReport(d, parent, childName, prefix);
          var n :| n in prefix && d.args[0] == ForeignKeyName(childName, n);
          assert n in names;
        } else {
          assert last in names;
        }
      }
    }
  }

  /** The 422 reporting that `parent` declares the foreign key built from `childName` and `n`. */
  function ForeignKeyReportFor(parent: Entity, childName: string, n: string): Diagnostic
    requires ForeignKeyName(childName, n) in parent.nonRelationFields
  {
    var fk := ForeignKeyName(childName, n);
    Diagnostic(PERSIST_422, [fk, childName], parent.nonRelationFields[fk])
  }

  /** Every name of `names` whose foreign key `parent` declares is reported in `ds`. */
  predicate ReportsDeclaredKeys(ds: seq<Diagnostic>, parent: Entity, childName: string, names: seq<string>) {
    forall n :: n in names && ForeignKeyName(childName, n) in parent.nonRelationFields ==>
      ForeignKeyReportFor(parent, childName, n) in ds
  }

  lemma {:induction false} ForeignKeyDiagsOfComplete(parent: Entity, childName: string, names: seq<string>)
    ensures ReportsDeclaredKeys(ForeignKeyDiagsOf(parent, childName, names), parent, childName, names)
    decreases |names|
  {
    if names != [] {
      var prefix, last := names[..|names| - 1], names[|names| - 1];
      ForeignKeyDiagsOfComplete(parent, childName, prefix);
      var a, b := ForeignKeyDiagsOf(parent, childName, prefix), ForeignKeyDiag(parent, childName, last);
      assert ForeignKeyDiagsOf(parent, childName, names) == a + b;
      assert names == prefix + [last];
      forall n | n in names && ForeignKeyName(childName, n) in parent.nonRelationFields
        ensures ForeignKeyReportFor(parent, childName, n) in a + b
      {
        if n == last {
          assert b == [ForeignKeyReportFor(parent, childName, n)];
        } else {
          assert n in prefix;
        }
      }
    }
  }

  /**
   * The check reports a 422 at the parent's field for exactly the child
   * identifiers whose foreign-key name the parent already declares, once each,
   * and nothing else.
   */
  lemma ForeignKeyDiagsSpec(parent: Entity, child: Entity)
    ensures var r, names := ForeignKeyDiags(parent, child), child.IdentifierFieldNames();
      && |r| == DeclaredForeignKeyCount(parent, child.name, names)
      && AllForeignKeyReports(r, parent, child.name, names)
      && ReportsDeclaredKeys(r, parent, child.name, names)
  {
    ForeignKeyDiagsOfLength(parent, child.name, child.IdentifierFieldNames());
    ForeignKeyDiagsOfSound(parent, child.name, child.IdentifierFieldNames());
    ForeignKeyDiagsOfComplete(parent, child.name, child.IdentifierFieldNames());
  }

  /**
   * The diagnostics of validating relation field `pf` of entity `processing`
   * against the referred entity `referred`, while entity `reportingName` is
   * being finalized: 402 without a mirror field, 420 when both sides are
   * arrays, otherwise the foreign-key check with the scalar side of a 1:n
   * relation, or the entity being finalized in a 1:1 relation, as the child.
   */
  function RelationDiags(pf: RelationField, processing: Entity, referred: Entity, reportingName: string)
    : (r: seq<Diagnostic>)
  {
    match MirrorOf(pf.containingEntity, referred.relationFields)
    case None => [Diagnostic(PERSIST_402, [referred.name, pf.containingEntity], pf.loc)]
    case Some(mirror) =>
      if !pf.isArray && !mirror.isArray then
        if processing.name == reportingName then ForeignKeyDiags(referred, processing)
        else ForeignKeyDiags(processing, referred)
      else if pf.isArray && mirror.isArray then
        [Diagnostic(PERSIST_420, [referred.name], pf.loc)]
      else if !pf.isArray then ForeignKeyDiags(processing, referred)
      else ForeignKeyDiags(referred, processing)
  }

  /** The foreign-key check reads only the parent's non-relation fields. */
  lemma {:induction false} ForeignKeyDiagsOfSameKeys(parent: Entity, parent': Entity, childName: string, names: seq<string>)
    requires parent'.nonRelationFields == parent.nonRelationFields
    ensures ForeignKeyDiagsOf(parent', childName, names) == ForeignKeyDiagsOf(parent, childName, names)
    decreases |names|
  {
    if names != [] {
      ForeignKeyDiagsOfSameKeys(parent, parent', childName, names[..|names| - 1]);
    }
  }

  /** Pairwise validation does not depend on the diagnostics already reported against `processing`. */
  lemma RelationDiagsSameEntity(pf: RelationField, processing: Entity, processing': Entity, referred: Entity,
                                reportingName: string)
    requires processing' == processing.(diagnostics := processing'.diagnostics)
    ensures RelationDiags(pf, processing', referred, reportingName) == RelationDiags(pf, processing, referred, reportingName)
  {
    assert processing'.IdentifierFieldNames() == processing.IdentifierFieldNames();
    ForeignKeyDiagsOfSameKeys(processing, processing', referred.name, referred.IdentifierFieldNames());
  }

  /**
   * Cardinality: no mirror gives exactly one 402; mirrored arrays on both
   * sides give exactly one 420; otherwise only foreign-key diagnostics, with
   * the foreign key named after the array side of a 1:n relation and looked
   * up on its scalar side, and in a 1:1 relation named after the entity being
   * finalized and looked up on the other one.
   */
  lemma RelationDiagsCases(pf: RelationField, processing: Entity, referred: Entity, reportingName: string)
    ensures var r, m := RelationDiags(pf, processing, referred, reportingName),
                       MirrorOf(pf.containingEntity, referred.relationFields);
      && (m.None? ==> r == [Diagnostic(PERSIST_402, [referred.name, pf.containingEntity], pf.loc)])
      && (m.Some? && pf.isArray && m.value.isArray ==> r == [Diagnostic(PERSIST_420, [referred.name], pf.loc)])
      && (m.Some? && pf.isArray != m.value.isArray ==>
            var (scalarSide, arraySide) := if pf.isArray then (referred, processing) else (processing, referred);
            r == ForeignKeyDiags(scalarSide, arraySide))
      && (m.Some? && !pf.isArray && !m.value.isArray ==>
            var (other, finalizing) :=
              if processing.name == reportingName then (referred, processing) else (processing, referred);
            r == ForeignKeyDiags(other, finalizing))
      && (m.Some? ==>
            CountCode(r, PERSIST_402) == 0 && CountCode(r, PERSIST_401) == 0 && CountCode(r, PERSIST_403) == 0)
  {
    var r, m := RelationDiags(pf, processing, referred, reportingName),
                MirrorOf(pf.containingEntity, referred.relationFields);
    if m.Some? {
      if !(pf.isArray && m.value.isArray) {
        var (parent, child) :=
          if !pf.isArray && !m.value.isArray then
            (if processing.name == reportingName then (referred, processing) else (processing, referred))
          else if !pf.isArray then (processing, referred)
          else (referred, processing);
        assert r == ForeignKeyDiags(parent, child);
        ForeignKeyDiagsOfSound(parent, child.name, child.IdentifierFieldNames());
        CountCodeZero(r, PERSIST_402);
        CountCodeZero(r, PERSIST_401);
        CountCodeZero(r, PERSIST_403);
      } else {
        CountSingle(Diagnostic(PERSIST_420, [referred.name], pf.loc), PERSIST_402);
        CountSingle(Diagnostic(PERSIST_420, [referred.name], pf.loc), PERSIST_401);
        CountSingle(Diagnostic(PERSIST_420, [referred.name], pf.loc), PERSIST_403);
      }
    }
  }
}
