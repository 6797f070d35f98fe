/**
 * Two entities finalized one after the other by a fresh validator: what the
 * relation loop and the drain report between them, whichever is declared
 * first. The entities are arbitrary prepared entities with the stated
 * relation fields.
 */
module Scenarios {
  import opened Wrappers
  import opened Syntax
  import opened Diagnostics
  import opened EntityModel
  import opened RelationRules
  import opened RelationLoop
  import opened ModelSession

  /** `e` declares exactly the relation `rf`, on its own behalf. */
  predicate DeclaresOnly(e: Entity, rf: RelationField) {
    e.relationFields == [rf] && e.containsRelations && rf.containingEntity == e.name
  }

  /**
   * A's only relation, a scalar one to B, where B declares no relation field
   * at all, is reported once on a fresh validator: as a 402 against B when A
   * comes first, and against A when B comes first.
   */
  lemma OneSidedRelation(eA: Entity, eB: Entity, loc: Loc)
    requires eA.name != eB.name
    requires DeclaresOnly(eA, RelationField(eB.name, false, loc, eA.name))
    requires eB.relationFields == [] && !eB.containsRelations
    ensures var (s1, dsA) := FinalizePrepared(InitialSession(), eA);
      var (s2, dsB) := FinalizePrepared(s1, eB);
      dsA == eA.diagnostics && dsB == eB.diagnostics + [Diagnostic(PERSIST_402, [eB.name, eA.name], loc)]
    ensures var (s1, dsB) := FinalizePrepared(InitialSession(), eB);
      var (s2, dsA) := FinalizePrepared(s1, eA);
      dsB == eB.diagnostics && dsA == eA.diagnostics + [Diagnostic(PERSIST_402, [eB.name, eA.name], loc)]
  {
    var rf := RelationField(eB.name, false, loc, eA.name);
    var d := Diagnostic(PERSIST_402, [eB.name, eA.name], loc);
    // A first: the relation waits for B and the drain finds no mirror on B.
    var s0 := InitialSession();
    assert RelLoop(RelState(eA, [], map[]), [rf], map[]) == RelState(eA, [eB.name], map[eB.name := [rf]]);
    eA.ReportAllNothing();
    var (s1, dsA) := FinalizePrepared(s0, eA);
    assert s1 == Session(map[eA.name := eA], [], map[eB.name := [rf]]);
    assert [rf][..0] == [];
    assert DrainInto(eB, [rf], s1.entities) == eB.ReportAll([d]);
    // B first: A finds B finalized, without a mirror.
    eB.ReportAllNothing();
    var (t1, dsB) := FinalizePrepared(s0, eB);
    assert t1 == Session(map[eB.name := eB], [], map[]);
    assert RelLoop(RelState(eA, [], map[]), [rf], t1.entities) == RelState(eA.ReportAll([d]), [eB.name], map[]);
  }

  /**
   * The first entity finalized by a fresh validator, declaring one relation
   * to an entity not finalized yet: nothing is reported for the relation,
   * which waits under its target.
   */
  lemma FinalizeFirst(e: Entity, rf: RelationField)
    requires DeclaresOnly(e, rf) && rf.typ != e.name
    ensures FinalizePrepared(InitialSession(), e) == (Session(map[e.name := e], [], map[rf.typ := [rf]]), e.diagnostics)
  {
    assert RelLoop(RelState(e, [], map[]), [rf], map[]) == RelState(e, [rf.typ], map[rf.typ := [rf]]);
    e.ReportAllNothing();
  }

  /**
   * The second entity, whose one relation `rfB` is mirrored by the relation
   * `rfA` waiting for it: the pair is validated once, from `rfB`'s side, and
   * the waiting relation is dropped, so the drain has nothing to do.
   */
  lemma FinalizeSecondMirrored(eA: Entity, rfA: RelationField, eB: Entity, rfB: RelationField)
    requires eA.name != eB.name
    requires DeclaresOnly(eA, rfA) && rfA.typ == eB.name
    requires DeclaresOnly(eB, rfB) && rfB.typ == eA.name
    ensures var s1 := Session(map[eA.name := eA], [], map[eB.name := [rfA]]);
      && ValidSession(s1)
      && var (s2, ds) := FinalizePrepared(s1, eB);
         s2.deferred == map[] && ds == eB.diagnostics + RelationDiags(rfB, eB, eA, eB.name)
  {
    var s1 := Session(map[eA.name := eA], [], map[eB.name := [rfA]]);
    assert BucketWellFormed([rfA], eB.name, s1.entities.Keys);
    assert MirrorOf(eB.name, eA.relationFields) == Some(rfA);
    assert RemoveContaining([rfA], eA.name) == [];
    assert DropValidated(s1.deferred, eB.name, eA.name) == map[];
    var ds := RelationDiags(rfB, eB, eA, eB.name);
    assert RelLoop(RelState(eB, [], s1.deferred), [rfB], s1.entities) == RelState(eB.ReportAll(ds), [eA.name], map[]);
  }

  /**
   * Mutual array relations are reported once, as a 420 against the entity
   * finalized second, and nothing is left deferred.
   */
  lemma ManyToMany(eA: Entity, eB: Entity, locA: Loc, locB: Loc)
    requires eA.name != eB.name
    requires DeclaresOnly(eA, RelationField(eB.name, true, locA, eA.name))
    requires DeclaresOnly(eB, RelationField(eA.name, true, locB, eB.name))
    ensures var (s1, dsA) := FinalizePrepared(InitialSession(), eA);
      var (s2, dsB) := FinalizePrepared(s1, eB);
      && dsA == eA.diagnostics
      && dsB == eB.diagnostics + [Diagnostic(PERSIST_420, [eA.name], locB)]
      && s2.deferred == map[]
  {
    var rfA, rfB := RelationField(eB.name, true, locA, eA.name), RelationField(eA.name, true, locB, eB.name);
    FinalizeFirst(eA, rfA);
    FinalizeSecondMirrored(eA, rfA, eB, rfB);
    assert MirrorOf(eB.name, eA.relationFields) == Some(rfA);
  }

  /**
   * Mutual scalar relations are validated once, when the second entity is
   * finalized: the foreign key is named after that entity and looked up on
   * the first, and nothing is left deferred.
   */
  lemma OneToOne(eA: Entity, eB: Entity, locA: Loc, locB: Loc)
    requires eA.name != eB.name
    requires DeclaresOnly(eA, RelationField(eB.name, false, locA, eA.name))
    requires DeclaresOnly(eB, RelationField(eA.name, false, locB, eB.name))
    ensures var (s1, dsA) := FinalizePrepared(InitialSession(), eA);
      var (s2, dsB) := FinalizePrepared(s1, eB);
      && dsA == eA.diagnostics
      && dsB == eB.diagnostics + ForeignKeyDiags(eA, eB)
      && s2.deferred == map[]
  {
    var rfA, rfB := RelationField(eB.name, false, locA, eA.name), RelationField(eA.name, false, locB, eB.name);
    FinalizeFirst(eA, rfA);
    FinalizeSecondMirrored(eA, rfA, eB, rfB);
    assert MirrorOf(eB.name, eA.relationFields) == Some(rfA);
  }

  /**
   * A scalar relation from A to B mirrored by an array on B: in either
   * order, once, the foreign key is named after B (the array side) and looked
   * up on A (the scalar side), reported against the entity finalized second.
   */
  lemma OneToMany(eA: Entity, eB: Entity, locA: Loc, locB: Loc)
    requires eA.name != eB.name
    requires DeclaresOnly(eA, RelationField(eB.name, false, locA, eA.name))
    requires DeclaresOnly(eB, RelationField(eA.name, true, locB, eB.name))
    ensures var (s1, dsA) := FinalizePrepared(InitialSession(), eA);
      var (s2, dsB) := FinalizePrepared(s1, eB);
      dsA == eA.diagnostics && dsB == eB.diagnostics + ForeignKeyDiags(eA, eB)
    ensures var (s1, dsB) := FinalizePrepared(InitialSession(), eB);
      var (s2, dsA) := FinalizePrepared(s1, eA);
      dsB == eB.diagnostics && dsA == eA.diagnostics + ForeignKeyDiags(eA, eB)
  {
    var rfA, rfB := RelationField(eB.name, false, locA, eA.name), RelationField(eA.name, true, locB, eB.name);
    // A first: B's array side is validated against A's scalar side.
    FinalizeFirst(eA, rfA);
    FinalizeSecondMirrored(eA, rfA, eB, rfB);
    assert MirrorOf(eB.name, eA.relationFields) == Some(rfA);
    // B first: A's scalar side is validated against B's array side.
    FinalizeFirst(eB, rfB);
    FinalizeSecondMirrored(eB, rfB, eA, rfA);
    assert MirrorOf(eA.name, eB.relationFields) == Some(rfB);
  }
}
