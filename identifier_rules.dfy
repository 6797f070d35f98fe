/**
 * Identifier validation: an entity needs at least one `readonly` field, and
 * every identifier field must be non-nullable and of a supported type.
 */
module IdentifierRules {
  import opened Syntax
  import opened Diagnostics
  import opened EntityModel
  import opened TypeRules

  /** 502 for a nullable identifier, then 503 for an unsupported identifier type. */
  function IdentifierFieldDiags(id: IdentifierField, entityName: string): seq<Diagnostic> {
    (if id.nullable then [Diagnostic(PERSIST_502, [entityName], id.typeLoc)] else [])
      + (if id.typ !in SupportedIdentifierTypes() then [Diagnostic(PERSIST_503, [id.typ], id.typeLoc)] else [])
  }

  function IdentifierDiagsOf(ids: seq<IdentifierField>, entityName: string): seq<Diagnostic> {
    if ids == [] then []
    else IdentifierDiagsOf(ids[..|ids| - 1], entityName) + IdentifierFieldDiags(ids[|ids| - 1], entityName)
  }

  /** The diagnostics identifier validation reports against entity `e`. */
  function IdentifierDiags(e: Entity): seq<Diagnostic> {
    if e.identifierFields == [] then [Diagnostic(PERSIST_501, [e.name], e.nameLoc)]
    else IdentifierDiagsOf(e.identifierFields, e.name)
  }

  function NullableCount(ids: seq<IdentifierField>): nat {
    if ids == [] then 0
    else NullableCount(ids[..|ids| - 1]) + (if ids[|ids| - 1].nullable then 1 else 0)
  }

  function UnsupportedTypeCount(ids: seq<IdentifierField>): nat {
    if ids == [] then 0
    else UnsupportedTypeCount(ids[..|ids| - 1]) + (if ids[|ids| - 1].typ in SupportedIdentifierTypes() then 0 else 1)
  }

  lemma IdentifierFieldCounts(id: IdentifierField, entityName: string)
    ensures var ds := IdentifierFieldDiags(id, entityName);
      && CountCode(ds, PERSIST_501) == 0
      && CountCode(ds, PERSIST_502) == (if id.nullable then 1 else 0)
      && CountCode(ds, PERSIST_503) == (if id.typ in SupportedIdentifierTypes() then 0 else 1)
      && CodesWithin(ds, {PERSIST_502, PERSIST_503})
  {
    var unsupported := id.typ !in SupportedIdentifierTypes();
    var d1, d2 := Diagnostic(PERSIST_502, [entityName], id.typeLoc), Diagnostic(PERSIST_503, [id.typ], id.typeLoc);
    assert IdentifierFieldDiags(id, entityName) == (if id.nullable then [d1] else []) + (if unsupported then [d2] else []);
    TwoOptional(id.nullable, d1, unsupported, d2);
  }

  lemma TwoOptional(b1: bool, d1: Diagnostic, b2: bool, d2: Diagnostic)
    requires d1.code == PERSIST_502 && d2.code == PERSIST_503
    ensures var ds := (if b1 then [d1] else []) + (if b2 then [d2] else []);
      && CountCode(ds, PERSIST_501) == 0
      && CountCode(ds, PERSIST_502) == (if b1 then 1 else 0)
      && CountCode(ds, PERSIST_503) == (if b2 then 1 else 0)
      && CodesWithin(ds, {PERSIST_502, PERSIST_503})
  {
    var a, b := (if b1 then [d1] else []), (if b2 then [d2] else []);
    CountSingle(d1, PERSIST_501); CountSingle(d1, PERSIST_502); CountSingle(d1, PERSIST_503);
    CountSingle(d2, PERSIST_501); CountSingle(d2, PERSIST_502); CountSingle(d2, PERSIST_503);
    CountCodeAppend(a, b, PERSIST_501);
    CountCodeAppend(a, b, PERSIST_502);
    CountCodeAppend(a, b, PERSIST_503);
    assert CodesWithin(a, {PERSIST_502, PERSIST_503});
    assert CodesWithin(b, {PERSIST_502, PERSIST_503});
    CodesWithinAppend(a, b, {PERSIST_502, PERSIST_503});
  }

  /** Identifier fields are reported with 502 and 503 only. */
  lemma {:induction false} IdentifierDiagsOfCodes(ids: seq<IdentifierField>, entityName: string)
    ensures CodesWithin(IdentifierDiagsOf(ids, entityName), {PERSIST_502, PERSIST_503})
    decreases |ids|
  {
    if ids != [] {
      var prefix, last := ids[..|ids| - 1], ids[|ids| - 1];
      IdentifierDiagsOfCodes(prefix, entityName);
      IdentifierFieldCounts(last, entityName);
      CodesWithinAppend(IdentifierDiagsOf(prefix, entityName), IdentifierFieldDiags(last, entityName),
                        {PERSIST_502, PERSIST_503});
    }
  }

  /**
   * Over a list of identifier fields: one 502 per nullable field, one 503 per
   * field whose type is not a supported identifier type, independently, and
   * no 501.
   */
  lemma {:induction false} IdentifierDiagsOfCounts(ids: seq<IdentifierField>, entityName: string)
    ensures var ds := IdentifierDiagsOf(ids, entityName);
      && CountCode(ds, PERSIST_501) == 0
      && CountCode(ds, PERSIST_502) == NullableCount(ids)
      && CountCode(ds, PERSIST_503) == UnsupportedTypeCount(ids)
      && CodesWithin(ds, {PERSIST_502, PERSIST_503})
    decreases |ids|
  {
    IdentifierDiagsOfCodes(ids, entityName);
    if ids != [] {
      var prefix, last := ids[..|ids| - 1], ids[|ids| - 1];
      IdentifierDiagsOfCounts(prefix, entityName);
      IdentifierFieldCounts(last, entityName);
      var a, b := IdentifierDiagsOf(prefix, entityName), IdentifierFieldDiags(last, entityName);
      assert IdentifierDiagsOf(ids, entityName) == a + b;
      assert NullableCount(ids) == NullableCount(prefix) + (if last.nullable then 1 else 0);
      assert UnsupportedTypeCount(ids) == UnsupportedTypeCount(prefix) + (if last.typ in SupportedIdentifierTypes() then 0 else 1);
      CountCodeAppend(a, b, PERSIST_501);
      CountCodeAppend(a, b, PERSIST_502);
      CountCodeAppend(a, b, PERSIST_503);
    }
  }

  /**
   * An entity without identifier fields gets exactly one 501 and nothing
   * else; otherwise no 501, one 502 per nullable identifier and one 503 per
   * identifier of an unsupported type.
   */
  lemma IdentifierDiagsCounts(e: Entity)
    ensures e.identifierFields == [] ==> IdentifierDiags(e) == [Diagnostic(PERSIST_501, [e.name], e.nameLoc)]
    ensures e.identifierFields != [] ==>
      var ds := IdentifierDiags(e);
      && CountCode(ds, PERSIST_501) == 0
      && CountCode(ds, PERSIST_502) == NullableCount(e.identifierFields)
      && CountCode(ds, PERSIST_503) == UnsupportedTypeCount(e.identifierFields)
    ensures CodesWithin(IdentifierDiags(e), {PERSIST_501, PERSIST_502, PERSIST_503})
  {
    IdentifierDiagsOfCounts(e.identifierFields, e.name);
  }

  /** A list of identifier fields draws no diagnostic exactly when each is non-nullable and of a supported type. */
  lemma {:induction false} IdentifierDiagsOfEmpty(ids: seq<IdentifierField>, entityName: string)
    ensures IdentifierDiagsOf(ids, entityName) == [] <==>
      forall id :: id in ids ==> !id.nullable && id.typ in SupportedIdentifierTypes()
    decreases |ids|
  {
    if ids != [] {
      var prefix, last := ids[..|ids| - 1], ids[|ids| - 1];
      IdentifierDiagsOfEmpty(prefix, entityName);
      assert ids == prefix + [last];
      assert forall id :: id in ids <==> id in prefix || id == last;
    }
  }

  /**
   * Identifier validation reports nothing exactly when the entity has an
   * identifier field and every identifier field is non-nullable and of a
   * supported type.
   */
  lemma IdentifierDiagsEmpty(e: Entity)
    ensures IdentifierDiags(e) == [] <==>
      && e.identifierFields != []
      && forall id :: id in e.identifierFields ==> !id.nullable && id.typ in SupportedIdentifierTypes()
  {
    IdentifierDiagsOfEmpty(e.identifierFields, e.name);
  }
}
