/**
 * The per-entity relation loop and the map of relations deferred until their
 * target entity is finalized: who is validated when, and what is left
 * waiting.
 */
module RelationLoop {
  import opened Diagnostics
  import opened EntityModel
  import opened RelationRules

  /** Relation fields waiting for their target entity, keyed by the target's name. */
  type Deferred = map<string, seq<RelationField>>

  /**
   * Every waiting field sits in the bucket of its own target, is not a
   * self-relation, and was declared by an entity in `done`.
   */
  predicate BucketWellFormed(bucket: seq<RelationField>, target: string, done: set<string>) {
    forall f :: f in bucket ==> f.typ == target && f.containingEntity != target && f.containingEntity in done
  }

  predicate DeferredWellFormed(deferred: Deferred, done: set<string>) {
    forall k :: k in deferred ==> BucketWellFormed(deferred[k], k, done)
  }

  /** The bucket without the fields declared on entity `name`, in order. */
  function RemoveContaining(bucket: seq<RelationField>, name: string): (r: seq<RelationField>)
    ensures forall f :: f in r <==> f in bucket && f.containingEntity != name
    ensures |r| <= |bucket|
    decreases |bucket|
  {
    if bucket == [] then []
    else if bucket[0].containingEntity == name then RemoveContaining(bucket[1..], name)
    else [bucket[0]] + RemoveContaining(bucket[1..], name)
  }

  /** Removing distributes over concatenation, so the fields that stay keep their order. */
  lemma {:induction false} RemoveContainingAppend(a: seq<RelationField>, b: seq<RelationField>, name: string)
    ensures RemoveContaining(a + b, name) == RemoveContaining(a, name) + RemoveContaining(b, name)
    decreases |a|
  {
    if a == [] {
      assert a + b == b;
    } else {
      assert (a + b)[0] == a[0] && (a + b)[1..] == a[1..] + b;
      RemoveContainingAppend(a[1..], b, name);
    }
  }

  /**
   * After `owner` has validated its relation to `referred`, the fields of
   * `referred` waiting for `owner` are dropped, and the bucket with them
   * once it is empty.
   */
  function DropValidated(deferred: Deferred, owner: string, referred: string): (r: Deferred)
    ensures r.Keys <= deferred.Keys
    ensures forall k :: k in deferred && k != owner ==> k in r && r[k] == deferred[k]
    ensures owner in r ==> owner in deferred && r[owner] == RemoveContaining(deferred[owner], referred) && r[owner] != []
    ensures owner in deferred && owner !in r ==> RemoveContaining(deferred[owner], referred) == []
  {
    if owner in deferred then
      var bucket := RemoveContaining(deferred[owner], referred);
      if bucket == [] then deferred - {owner} else deferred[owner := bucket]
    else deferred
  }

  /** `rf` appended to the bucket of its target, which is created when missing. */
  function Defer(deferred: Deferred, rf: RelationField): (r: Deferred)
    ensures r.Keys == deferred.Keys + {rf.typ}
    ensures forall k :: k in deferred && k != rf.typ ==> r[k] == deferred[k]
    ensures r[rf.typ] == (if rf.typ in deferred then deferred[rf.typ] else []) + [rf]
  {
    if rf.typ in deferred then deferred[rf.typ := deferred[rf.typ] + [rf]]
    else deferred[rf.typ := [rf]]
  }

  /** The entity being finalized, the targets already seen, and the deferred map. */
  datatype RelState = RelState(entity: Entity, validTypes: seq<string>, deferred: Deferred)

  /**
   * One relation field of the entity being finalized, against the entities
   * finalized before it; the flag says whether the loop stops here.
   */
  function RelStep(st: RelState, rf: RelationField, entities: map<string, Entity>): (RelState, bool) {
    if rf.typ == rf.containingEntity then
      (st.(entity := st.entity.Report(Diagnostic(PERSIST_401, [], rf.loc))), true)
    else if rf.typ in st.validTypes then
      (st.(entity := st.entity.Report(Diagnostic(PERSIST_403, [rf.typ], rf.loc))), true)
    else
      var validTypes := st.validTypes + [rf.typ];
      if rf.typ in entities then
        var e := st.entity;
        (RelState(e.ReportAll(RelationDiags(rf, e, entities[rf.typ], e.name)), validTypes,
                  DropValidated(st.deferred, e.name, rf.typ)), false)
      else
        (RelState(st.entity, validTypes, Defer(st.deferred, rf)), false)
  }

  /** The loop over `fields`, stopping after the first step that says so. */
  function RelLoop(st: RelState, fields: seq<RelationField>, entities: map<string, Entity>): RelState
    decreases |fields|
  {
    if fields == [] then st
    else
      var (next, stop) := RelStep(st, fields[0], entities);
      if stop then next else RelLoop(next, fields[1..], entities)
  }

  lemma RelLoopUnfold(st: RelState, fields: seq<RelationField>, i: nat, entities: map<string, Entity>)
    requires i < |fields|
    ensures RelLoop(st, fields[i..], entities)
            == (var (next, stop) := RelStep(st, fields[i], entities);
                if stop then next else RelLoop(next, fields[i + 1..], entities))
  {
    assert fields[i..][0] == fields[i] && fields[i..][1..] == fields[i + 1..];
  }

  /** The relation validation of `e`: nothing to do when it declares no relation. */
  function ValidateRelations(e: Entity, entities: map<string, Entity>, deferred: Deferred): RelState {
    if !e.containsRelations then RelState(e, [], deferred)
    else RelLoop(RelState(e, [], deferred), e.relationFields, entities)
  }

  /**
   * The drain: every field still waiting for `e` is validated with `e` as
   * the referred and the reporting entity, in bucket order.
   */
  function DrainInto(e: Entity, bucket: seq<RelationField>, entities: map<string, Entity>): Entity
    requires forall f :: f in bucket ==> f.containingEntity in entities
    decreases |bucket|
  {
    if bucket == [] then e
    else
      var prefix, f := bucket[..|bucket| - 1], bucket[|bucket| - 1];
      var e' := DrainInto(e, prefix, entities);
      e'.ReportAll(RelationDiags(f, entities[f.containingEntity], e', e'.name))
  }

  lemma DrainIntoStep(e: Entity, bucket: seq<RelationField>, j: nat, entities: map<string, Entity>)
    requires j < |bucket|
    requires forall f :: f in bucket ==> f.containingEntity in entities
    ensures forall f :: f in bucket[..j] ==> f.containingEntity in entities
    ensures var e' := DrainInto(e, bucket[..j], entities);
      DrainInto(e, bucket[..j + 1], entities)
      == e'.ReportAll(RelationDiags(bucket[j], entities[bucket[j].containingEntity], e', e'.name))
  {
    assert bucket[..j + 1][..j] == bucket[..j];
    assert forall f :: f in bucket[..j] ==> f in bucket;
  }

  /** The drain for `e` of whatever waits under its name. */
  function Drain(e: Entity, entities: map<string, Entity>, deferred: Deferred): Entity
    requires DeferredWellFormed(deferred, entities.Keys + {e.name})
  {
    if e.name in deferred then DrainInto(e, deferred[e.name], entities) else e
  }

  // ---------------------------------------------------------------------
  // The deferred map stays well formed.

  lemma DeferKeepsWellFormed(deferred: Deferred, rf: RelationField, done: set<string>)
    requires DeferredWellFormed(deferred, done)
    requires rf.typ != rf.containingEntity && rf.containingEntity in done
    ensures DeferredWellFormed(Defer(deferred, rf), done)
  {
    var r := Defer(deferred, rf);
    forall k | k in r ensures BucketWellFormed(r[k], k, done) {
      if k == rf.typ {
        var old_ := if rf.typ in deferred then deferred[rf.typ] else [];
        assert r[k] == old_ + [rf];
        assert BucketWellFormed(old_, k, done);
      }
    }
  }

  lemma DropKeepsWellFormed(deferred: Deferred, owner: string, referred: string, done: set<string>)
    requires DeferredWellFormed(deferred, done)
    ensures DeferredWellFormed(DropValidated(deferred, owner, referred), done)
  {
  }

  lemma WellFormedGrows(deferred: Deferred, done: set<string>, more: set<string>)
    requires DeferredWellFormed(deferred, done) && done <= more
    ensures DeferredWellFormed(deferred, more)
  {
  }

  /**
   * The relation loop keeps the deferred map well formed when every field
   * it processes was declared by an entity in `done`.
   */
  lemma {:induction false} RelLoopKeepsWellFormed(st: RelState, fields: seq<RelationField>,
                                                   entities: map<string, Entity>, done: set<string>)
    requires DeferredWellFormed(st.deferred, done)
    requires forall f :: f in fields ==> f.containingEntity in done
    ensures DeferredWellFormed(RelLoop(st, fields, entities).deferred, done)
    decreases |fields|
  {
    if fields != [] {
      var rf := fields[0];
      var (next, stop) := RelStep(st, rf, entities);
      if !stop {
        if rf.typ in entities {
          DropKeepsWellFormed(st.deferred, st.entity.name, rf.typ, done);
        } else {
          DeferKeepsWellFormed(st.deferred, rf, done);
        }
        assert forall f :: f in fields[1..] ==> f in fields;
        RelLoopKeepsWellFormed(next, fields[1..], entities, done);
      }
    }
  }

  // ---------------------------------------------------------------------
  // What the loop does to the entity and the deferred map.

  /** `e'` is `e` with diagnostics appended and nothing else changed. */
  predicate Extends(e: Entity, e': Entity) {
    && e' == e.(diagnostics := e'.diagnostics)
    && |e.diagnostics| <= |e'.diagnostics|
    && e'.diagnostics[..|e.diagnostics|] == e.diagnostics
  }

  function Added(e: Entity, e': Entity): seq<Diagnostic>
    requires |e.diagnostics| <= |e'.diagnostics|
  {
    e'.diagnostics[|e.diagnostics|..]
  }

  lemma ExtendsTrans(e1: Entity, e2: Entity, e3: Entity)
    requires Extends(e1, e2) && Extends(e2, e3)
    ensures Extends(e1, e3)
    ensures Added(e1, e3) == Added(e1, e2) + Added(e2, e3)
  {
    assert e3.diagnostics[..|e2.diagnostics|][..|e1.diagnostics|] == e3.diagnostics[..|e1.diagnostics|];
    assert e3.diagnostics[|e1.diagnostics|..] == e2.diagnostics[|e1.diagnostics|..] + e3.diagnostics[|e2.diagnostics|..];
  }

  lemma ReportAllExtends(e: Entity, ds: seq<Diagnostic>)
    ensures Extends(e, e.ReportAll(ds)) && Added(e, e.ReportAll(ds)) == ds
  {
    assert (e.diagnostics + ds)[..|e.diagnostics|] == e.diagnostics;
  }

  /** Pairwise validation reports neither a self-relation nor a repeated target. */
  lemma RelationDiagsNoBreakCodes(pf: RelationField, processing: Entity, referred: Entity, reportingName: string)
    ensures var r := RelationDiags(pf, processing, referred, reportingName);
      CountCode(r, PERSIST_401) == 0 && CountCode(r, PERSIST_403) == 0
  {
    RelationDiagsCases(pf, processing, referred, reportingName);
    if MirrorOf(pf.containingEntity, referred.relationFields).None? {
      var d := Diagnostic(PERSIST_402, [referred.name, pf.containingEntity], pf.loc);
      CountSingle(d, PERSIST_401);
      CountSingle(d, PERSIST_403);
    }
  }

  /** Fields of the deferred map `d'` come from `d` or are fields of `fields` whose target is unfinalized. */
  predicate DeferredFrom(d': Deferred, d: Deferred, fields: seq<RelationField>, entities: map<string, Entity>) {
    forall k :: k in d' ==> forall f :: f in d'[k] ==>
      (k in d && f in d[k]) || (f in fields && f.typ == k && f.typ !in entities)
  }

  lemma DeferredFromTrans(d3: Deferred, d2: Deferred, d1: Deferred, later: seq<RelationField>,
                          first: seq<RelationField>, all: seq<RelationField>, entities: map<string, Entity>)
    requires DeferredFrom(d3, d2, later, entities) && DeferredFrom(d2, d1, first, entities)
    requires forall f :: f in later ==> f in all
    requires forall f :: f in first ==> f in all
    ensures DeferredFrom(d3, d1, all, entities)
  {
  }

  /** One step appends the diagnostics `RelStepDiags` and nothing else to the entity. */
  function RelStepDiags(st: RelState, rf: RelationField, entities: map<string, Entity>): seq<Diagnostic> {
    if rf.typ == rf.containingEntity then [Diagnostic(PERSIST_401, [], rf.loc)]
    else if rf.typ in st.validTypes then [Diagnostic(PERSIST_403, [rf.typ], rf.loc)]
    else if rf.typ in entities then RelationDiags(rf, st.entity, entities[rf.typ], st.entity.name)
    else []
  }

  lemma RelStepEntity(st: RelState, rf: RelationField, entities: map<string, Entity>)
    ensures var (next, stop) := RelStep(st, rf, entities);
      var ds := RelStepDiags(st, rf, entities);
      && next.entity == st.entity.ReportAll(ds)
      && Extends(st.entity, next.entity) && Added(st.entity, next.entity) == ds
      && CountCode(ds, PERSIST_401) + CountCode(ds, PERSIST_403) == (if stop then 1 else 0)
  {
    var ds := RelStepDiags(st, rf, entities);
    ReportAllExtends(st.entity, ds);
    if rf.typ == rf.containingEntity || rf.typ in st.validTypes {
      CountSingle(ds[0], PERSIST_401);
      CountSingle(ds[0], PERSIST_403);
    } else if rf.typ in entities {
      RelationDiagsNoBreakCodes(rf, st.entity, entities[rf.typ], st.entity.name);
    } else {
      assert st.entity.ReportAll([]) == st.entity;
    }
  }

  /**
   * The loop only appends diagnostics to the entity being finalized, at most
   * one of them a 401 or 403, since either stops the loop.
   */
  lemma {:induction false} RelLoopEntity(st: RelState, fields: seq<RelationField>, entities: map<string, Entity>)
    ensures var r := RelLoop(st, fields, entities);
      && Extends(st.entity, r.entity)
      && CountCode(Added(st.entity, r.entity), PERSIST_401) + CountCode(Added(st.entity, r.entity), PERSIST_403) <= 1
    decreases |fields|
  {
    var r := RelLoop(st, fields, entities);
    if fields == [] {
      ReportAllExtends(st.entity, []);
      assert st.entity.ReportAll([]) == st.entity;
    } else {
      var (next, stop) := RelStep(st, fields[0], entities);
      RelStepEntity(st, fields[0], entities);
      if !stop {
        var ds := RelStepDiags(st, fields[0], entities);
        RelLoopEntity(next, fields[1..], entities);
        var tail := Added(next.entity, r.entity);
        ExtendsTrans(st.entity, next.entity, r.entity);
        CountCodeAppend(ds, tail, PERSIST_401);
        CountCodeAppend(ds, tail, PERSIST_403);
      }
    }
  }

  /** The targets already seen only grow. */
  lemma {:induction false} RelLoopValidTypes(st: RelState, fields: seq<RelationField>, entities: map<string, Entity>)
    ensures var r := RelLoop(st, fields, entities);
      |st.validTypes| <= |r.validTypes| && r.validTypes[..|st.validTypes|] == st.validTypes
    decreases |fields|
  {
    if fields != [] {
      var (next, stop) := RelStep(st, fields[0], entities);
      if !stop {
        RelLoopValidTypes(next, fields[1..], entities);
        var r := RelLoop(next, fields[1..], entities);
        assert next.validTypes[..|st.validTypes|] == st.validTypes;
        assert r.validTypes[..|st.validTypes|] == r.validTypes[..|next.validTypes|][..|st.validTypes|];
      }
    }
  }

  /** Only the loop's own fields whose target is not finalized are deferred. */
  lemma {:induction false} RelLoopDeferred(st: RelState, fields: seq<RelationField>, entities: map<string, Entity>)
    ensures DeferredFrom(RelLoop(st, fields, entities).deferred, st.deferred, fields, entities)
    decreases |fields|
  {
    if fields != [] {
      var rf := fields[0];
      var (next, stop) := RelStep(st, rf, entities);
      if !stop {
        assert DeferredFrom(next.deferred, st.deferred, [rf], entities);
        RelLoopDeferred(next, fields[1..], entities);
        assert forall f :: f in fields[1..] ==> f in fields;
        DeferredFromTrans(RelLoop(next, fields[1..], entities).deferred, next.deferred, st.deferred,
                          fields[1..], [rf], fields, entities);
      }
    }
  }

  /**
   * The loop only appends diagnostics to the entity being finalized, at most
   * one of them a 401 or 403 (either stops the loop), never forgets a
   * validated target, and defers only its own fields whose target is not
   * finalized yet.
   */
  lemma RelLoopShape(st: RelState, fields: seq<RelationField>, entities: map<string, Entity>)
    ensures var r := RelLoop(st, fields, entities);
      && Extends(st.entity, r.entity)
      && CountCode(Added(st.entity, r.entity), PERSIST_401) + CountCode(Added(st.entity, r.entity), PERSIST_403) <= 1
      && |st.validTypes| <= |r.validTypes| && r.validTypes[..|st.validTypes|] == st.validTypes
      && DeferredFrom(r.deferred, st.deferred, fields, entities)
  {
    RelLoopEntity(st, fields, entities);
    RelLoopValidTypes(st, fields, entities);
    RelLoopDeferred(st, fields, entities);
  }

  /**
   * Relation validation of `e` only appends diagnostics to `e`, and keeps the
   * deferred map well formed when `e` is counted among the declaring entities.
   */
  lemma ValidateRelationsShape(e: Entity, entities: map<string, Entity>, deferred: Deferred, done: set<string>)
    requires DeferredWellFormed(deferred, done)
    requires forall rf :: rf in e.relationFields ==> rf.containingEntity in done
    ensures var r := ValidateRelations(e, entities, deferred);
      && Extends(e, r.entity)
      && DeferredWellFormed(r.deferred, done)
      && DeferredFrom(r.deferred, deferred, e.relationFields, entities)
  {
    var st := RelState(e, [], deferred);
    if e.containsRelations {
      RelLoopShape(st, e.relationFields, entities);
      RelLoopKeepsWellFormed(st, e.relationFields, entities, done);
    } else {
      ReportAllExtends(e, []);
      assert e.ReportAll([]) == e;
    }
  }

  // ---------------------------------------------------------------------
  // Exactly what the loop validates and what it defers.

  /** Whether the loop stops at `rf` once the targets `seen` have been validated or deferred. */
  predicate StopsAt(rf: RelationField, seen: seq<string>) {
    rf.typ == rf.containingEntity || rf.typ in seen
  }

  /** The targets of `fields`, in order. */
  function Targets(fields: seq<RelationField>): (r: seq<string>)
    ensures |r| == |fields|
    decreases |fields|
  {
    if fields == [] then [] else [fields[0].typ] + Targets(fields[1..])
  }

  /** The number of fields the loop gets through before it stops, or all of them. */
  function Processed(seen: seq<string>, fields: seq<RelationField>): (k: nat)
    ensures k <= |fields|
    decreases |fields|
  {
    if fields == [] || StopsAt(fields[0], seen) then 0
    else 1 + Processed(seen + [fields[0].typ], fields[1..])
  }

  /** The `i`-th field targets a name of `seen` or the target of an earlier field. */
  predicate RepeatsTarget(fields: seq<RelationField>, seen: seq<string>, i: nat)
    requires i < |fields|
  {
    fields[i].typ in seen || exists j :: 0 <= j < i && fields[j].typ == fields[i].typ
  }

  lemma RepeatsTargetShift(fields: seq<RelationField>, seen: seq<string>, i: nat)
    requires i + 1 < |fields|
    ensures RepeatsTarget(fields[1..], seen + [fields[0].typ], i) <==> RepeatsTarget(fields, seen, i + 1)
  {
    var rest := fields[1..];
    assert rest[i] == fields[i + 1];
    if RepeatsTarget(rest, seen + [fields[0].typ], i) {
      if rest[i].typ !in seen && rest[i].typ != fields[0].typ {
        var j :| 0 <= j < i && rest[j].typ == rest[i].typ;
        assert fields[j + 1] == rest[j];
      }
    }
    if RepeatsTarget(fields, seen, i + 1) && fields[i + 1].typ !in seen {
      var j :| 0 <= j < i + 1 && fields[j].typ == fields[i + 1].typ;
      if j > 0 {
        assert rest[j - 1] == fields[j];
      }
    }
  }

  /**
   * The loop gets through exactly the fields before the first one that is a
   * self-relation or targets a name of `seen` or the target of an earlier
   * field.
   */
  lemma {:induction false} ProcessedIsFirstStop(seen: seq<string>, fields: seq<RelationField>)
    ensures var k := Processed(seen, fields);
      && (forall i :: 0 <= i < k ==> fields[i].typ != fields[i].containingEntity && !RepeatsTarget(fields, seen, i))
      && (k < |fields| ==> fields[k].typ == fields[k].containingEntity || RepeatsTarget(fields, seen, k))
    decreases |fields|
  {
    if fields != [] && !StopsAt(fields[0], seen) {
      var rest, seen' := fields[1..], seen + [fields[0].typ];
      ProcessedIsFirstStop(seen', rest);
      var k := Processed(seen, fields);
      assert k == 1 + Processed(seen', rest);
      forall i | 0 <= i < k
        ensures fields[i].typ != fields[i].containingEntity && !RepeatsTarget(fields, seen, i)
      {
        if i > 0 {
          assert fields[i] == rest[i - 1];
          RepeatsTargetShift(fields, seen, i - 1);
        }
      }
      if k < |fields| {
        assert fields[k] == rest[k - 1];
        RepeatsTargetShift(fields, seen, k - 1);
      }
    }
  }

  /** The fields of `fields` waiting for `key`: those targeting it that are not finalized, in order. */
  function Waiting(fields: seq<RelationField>, key: string, entities: map<string, Entity>): seq<RelationField>
    decreases |fields|
  {
    if fields == [] then []
    else (if fields[0].typ == key && key !in entities then [fields[0]] else []) + Waiting(fields[1..], key, entities)
  }

  /** The targets of `fields` that are finalized, in order. */
  function FinalizedTargets(fields: seq<RelationField>, entities: map<string, Entity>): (r: seq<string>)
    ensures forall t :: t in r <==> t in entities && exists f :: f in fields && f.typ == t
    decreases |fields|
  {
    if fields == [] then []
    else
      var rest := FinalizedTargets(fields[1..], entities);
      assert forall f :: f in fields <==> f == fields[0] || f in fields[1..];
      (if fields[0].typ in entities then [fields[0].typ] else []) + rest
  }

  /** `bucket` without the fields declared on any of `names`, removed one name at a time. */
  function RemoveEach(bucket: seq<RelationField>, names: seq<string>): (r: seq<RelationField>)
    ensures forall f :: f in r <==> f in bucket && f.containingEntity !in names
    decreases |names|
  {
    if names == [] then bucket
    else RemoveEach(RemoveContaining(bucket, names[0]), names[1..])
  }

  /** The bucket of `key`, empty when there is none. */
  function Bucket(deferred: Deferred, key: string): seq<RelationField> {
    if key in deferred then deferred[key] else []
  }

  /** The pairwise diagnostics of `rf` of `e` when its target is finalized; nothing otherwise. */
  function PairDiags(rf: RelationField, e: Entity, entities: map<string, Entity>): seq<Diagnostic> {
    if rf.typ in entities then RelationDiags(rf, e, entities[rf.typ], e.name) else []
  }

  /** The pairwise diagnostics of the fields of `fields` whose target is finalized, against `e`, in order. */
  function ValidatedDiags(e: Entity, fields: seq<RelationField>, entities: map<string, Entity>): seq<Diagnostic>
    decreases |fields|
  {
    if fields == [] then [] else PairDiags(fields[0], e, entities) + ValidatedDiags(e, fields[1..], entities)
  }

  /** The diagnostic of the field the loop stops at: 401 for a self-relation, else 403. */
  function StopDiag(rf: RelationField): Diagnostic {
    if rf.typ == rf.containingEntity then Diagnostic(PERSIST_401, [], rf.loc)
    else Diagnostic(PERSIST_403, [rf.typ], rf.loc)
  }

  lemma ProcessedSplit(seen: seq<string>, fields: seq<RelationField>)
    requires fields != [] && !StopsAt(fields[0], seen)
    ensures var k := Processed(seen, fields);
      && k == 1 + Processed(seen + [fields[0].typ], fields[1..])
      && fields[..k] == [fields[0]] + fields[1..][..k - 1]
      && (k < |fields| ==> fields[k] == fields[1..][k - 1])
  {
  }

  /** `next` is what the step at `rf`, which does not stop the loop, makes of `st`. */
  predicate StepsOn(st: RelState, rf: RelationField, entities: map<string, Entity>, next: RelState) {
    && next.validTypes == st.validTypes + [rf.typ]
    && next.entity == st.entity.ReportAll(PairDiags(rf, st.entity, entities))
    && next.deferred == (if rf.typ in entities then DropValidated(st.deferred, st.entity.name, rf.typ) else Defer(st.deferred, rf))
  }

  /** A field the loop does not stop at: the step it takes, and the loop goes on with the next field. */
  lemma RelLoopGoesOn(st: RelState, fields: seq<RelationField>, entities: map<string, Entity>) returns (next: RelState)
    requires fields != [] && !StopsAt(fields[0], st.validTypes)
    ensures RelLoop(st, fields, entities) == RelLoop(next, fields[1..], entities)
    ensures StepsOn(st, fields[0], entities, next)
  {
    next := RelStep(st, fields[0], entities).0;
    if fields[0].typ !in entities {
      assert st.entity.ReportAll([]) == st.entity;
    }
  }

  /** At a field the loop stops at, it ends with the step that reports it. */
  lemma RelLoopStops(st: RelState, fields: seq<RelationField>, entities: map<string, Entity>)
    requires fields != [] && StopsAt(fields[0], st.validTypes)
    ensures var r := RelLoop(st, fields, entities);
      r == st.(entity := st.entity.ReportAll([StopDiag(fields[0])]))
  {
  }

  /** The loop remembers exactly the targets of the fields it got through. */
  lemma {:induction false} RelLoopTargets(st: RelState, fields: seq<RelationField>, entities: map<string, Entity>)
    ensures RelLoop(st, fields, entities).validTypes
            == st.validTypes + Targets(fields[..Processed(st.validTypes, fields)])
    decreases |fields|
  {
    var k := Processed(st.validTypes, fields);
    if fields == [] || StopsAt(fields[0], st.validTypes) {
      if fields != [] {
        RelLoopStops(st, fields, entities);
      }
      assert Targets(fields[..k]) == [];
      assert st.validTypes + [] == st.validTypes;
    } else {
      var next := RelLoopGoesOn(st, fields, entities);
      ProcessedSplit(st.validTypes, fields);
      RelLoopTargets(next, fields[1..], entities);
      var rest := fields[1..][..k - 1];
      assert fields[..k][0] == fields[0] && fields[..k][1..] == rest;
      assert Targets(fields[..k]) == [fields[0].typ] + Targets(rest);
      ConcatAssoc(st.validTypes, [fields[0].typ], Targets(rest));
    }
  }

  /** The loop appends the pairwise diagnostics of the fields it validates, then that of the field it stops at. */
  lemma {:induction false} RelLoopDiagnostics(st: RelState, fields: seq<RelationField>, entities: map<string, Entity>)
    ensures var r, k := RelLoop(st, fields, entities), Processed(st.validTypes, fields);
      && Extends(st.entity, r.entity)
      && Added(st.entity, r.entity)
         == ValidatedDiags(st.entity, fields[..k], entities) + (if k < |fields| then [StopDiag(fields[k])] else [])
    decreases |fields|
  {
    var k := Processed(st.validTypes, fields);
    if fields == [] {
      assert st.entity.diagnostics[|st.entity.diagnostics|..] == [];
    } else if StopsAt(fields[0], st.validTypes) {
      RelLoopStops(st, fields, entities);
      ReportAllExtends(st.entity, [StopDiag(fields[0])]);
      assert fields[..k] == [];
    } else {
      var next := RelLoopGoesOn(st, fields, entities);
      ProcessedSplit(st.validTypes, fields);
      RelLoopDiagnostics(next, fields[1..], entities);
      var rest := fields[1..][..k - 1];
      AppendsStep(st.entity, next.entity, RelLoop(next, fields[1..], entities).entity, fields[0], rest, entities,
                  if k < |fields| then [StopDiag(fields[k])] else []);
    }
  }

  /** One validated or deferred field in front of the rest: its pairwise diagnostics come first. */
  lemma AppendsStep(e: Entity, e': Entity, r: Entity, rf: RelationField, rest: seq<RelationField>,
                    entities: map<string, Entity>, stopped: seq<Diagnostic>)
    requires e' == e.ReportAll(PairDiags(rf, e, entities))
    requires Extends(e', r) && Added(e', r) == ValidatedDiags(e', rest, entities) + stopped
    ensures Extends(e, r) && Added(e, r) == ValidatedDiags(e, [rf] + rest, entities) + stopped
  {
    var ds := PairDiags(rf, e, entities);
    var v := ValidatedDiags(e, rest, entities);
    assert Extends(e, r) && Added(e, r) == ds + (v + stopped) by {
      ReportAllExtends(e, ds);
      ExtendsTrans(e, e', r);
      ValidatedDiagsSameEntity(e, e', rest, entities);
    }
    assert ValidatedDiags(e, [rf] + rest, entities) == ds + v by {
      assert ([rf] + rest)[0] == rf && ([rf] + rest)[1..] == rest;
    }
    ConcatAssoc(ds, v, stopped);
  }

  /** Pairwise validation does not look at the diagnostics of the entities it compares. */
  lemma ValidatedDiagsSameEntity(e: Entity, e': Entity, fields: seq<RelationField>, entities: map<string, Entity>)
    requires e' == e.(diagnostics := e'.diagnostics)
    ensures ValidatedDiags(e', fields, entities) == ValidatedDiags(e, fields, entities)
    decreases |fields|
  {
    if fields != [] {
      ValidatedDiagsSameEntity(e, e', fields[1..], entities);
      if fields[0].typ in entities {
        RelationDiagsSameEntity(fields[0], e, e', entities[fields[0].typ], e.name);
      }
      assert PairDiags(fields[0], e', entities) == PairDiags(fields[0], e, entities);
    }
  }

  /** What one validated or deferred field does to the deferred map while `owner` is finalized. */
  function StepDeferred(d: Deferred, rf: RelationField, owner: string, entities: map<string, Entity>): Deferred {
    if rf.typ in entities then DropValidated(d, owner, rf.typ) else Defer(d, rf)
  }

  /** The deferred map after the fields `fields`, validated or deferred in order. */
  function StepsDeferred(d: Deferred, fields: seq<RelationField>, owner: string, entities: map<string, Entity>): Deferred
    decreases |fields|
  {
    if fields == [] then d else StepsDeferred(StepDeferred(d, fields[0], owner, entities), fields[1..], owner, entities)
  }

  /** The loop changes the deferred map only through the fields it gets through. */
  lemma {:induction false} RelLoopDeferredSteps(st: RelState, fields: seq<RelationField>, entities: map<string, Entity>)
    ensures RelLoop(st, fields, entities).deferred
            == StepsDeferred(st.deferred, fields[..Processed(st.validTypes, fields)], st.entity.name, entities)
    decreases |fields|
  {
    var k := Processed(st.validTypes, fields);
    if fields == [] || StopsAt(fields[0], st.validTypes) {
      if fields != [] {
        RelLoopStops(st, fields, entities);
      }
      assert fields[..k] == [];
    } else {
      var next := RelLoopGoesOn(st, fields, entities);
      ProcessedSplit(st.validTypes, fields);
      RelLoopDeferredSteps(next, fields[1..], entities);
      var rest := fields[1..][..k - 1];
      assert fields[..k][0] == fields[0] && fields[..k][1..] == rest;
      assert next.entity.name == st.entity.name;
    }
  }

  /**
   * Every waiting list other than the finalized entity's own is the old one
   * followed by the fields the loop got through that target it and whose
   * target is not finalized, in order; nothing else is deferred.
   */
  lemma RelLoopWaiting(st: RelState, fields: seq<RelationField>, entities: map<string, Entity>, key: string)
    requires key != st.entity.name
    ensures var r, k := RelLoop(st, fields, entities), Processed(st.validTypes, fields);
      && Bucket(r.deferred, key) == Bucket(st.deferred, key) + Waiting(fields[..k], key, entities)
      && (key in r.deferred <==> key in st.deferred || Waiting(fields[..k], key, entities) != [])
  {
    RelLoopDeferredSteps(st, fields, entities);
    StepsWaiting(st.deferred, fields[..Processed(st.validTypes, fields)], st.entity.name, entities, key);
  }

  lemma {:induction false} StepsWaiting(d: Deferred, fields: seq<RelationField>, owner: string,
                                        entities: map<string, Entity>, key: string)
    requires key != owner
    ensures var r := StepsDeferred(d, fields, owner, entities);
      && Bucket(r, key) == Bucket(d, key) + Waiting(fields, key, entities)
      && (key in r <==> key in d || Waiting(fields, key, entities) != [])
    decreases |fields|
  {
    if fields == [] {
      ConcatNothing(Bucket(d, key));
    } else {
      var d' := StepDeferred(d, fields[0], owner, entities);
      StepsWaiting(d', fields[1..], owner, entities, key);
      assert [fields[0]] + fields[1..] == fields;
      WaitingStep(d, d', StepsDeferred(d', fields[1..], owner, entities), fields[0], fields[1..], key, owner, entities);
    }
  }

  /** One field in front of the rest: deferred to `key` only when it targets `key` and that is not finalized. */
  lemma WaitingStep(d: Deferred, d': Deferred, dr: Deferred, rf: RelationField, rest: seq<RelationField>,
                    key: string, owner: string, entities: map<string, Entity>)
    requires key != owner
    requires d' == StepDeferred(d, rf, owner, entities)
    requires Bucket(dr, key) == Bucket(d', key) + Waiting(rest, key, entities)
    requires key in dr <==> key in d' || Waiting(rest, key, entities) != []
    ensures Bucket(dr, key) == Bucket(d, key) + Waiting([rf] + rest, key, entities)
    ensures key in dr <==> key in d || Waiting([rf] + rest, key, entities) != []
  {
    var mine := if rf.typ == key && key !in entities then [rf] else [];
    var w := Waiting(rest, key, entities);
    assert Waiting([rf] + rest, key, entities) == mine + w by {
      assert ([rf] + rest)[0] == rf && ([rf] + rest)[1..] == rest;
    }
    assert Bucket(d', key) == Bucket(d, key) + mine && (key in d' <==> key in d || mine != []) by {
      if rf.typ !in entities && rf.typ == key {
        assert Bucket(d', key) == Bucket(d, key) + [rf];
      } else {
        assert Bucket(d, key) + [] == Bucket(d, key);
      }
    }
    ConcatAssoc(Bucket(d, key), mine, w);
  }

  lemma ConcatAssoc<T>(a: seq<T>, b: seq<T>, c: seq<T>)
    ensures a + b + c == a + (b + c)
  {
  }

  lemma ConcatNothing<T>(a: seq<T>)
    ensures a + [] == a
  {
  }

  /**
   * The finalized entity's own waiting list loses the fields declared on
   * each finalized entity it validates a relation to, one target after the
   * other, and disappears only once it is empty; it gains nothing, as long
   * as the loop's fields are declared on the entity being finalized.
   */
  lemma RelLoopOwnBucket(st: RelState, fields: seq<RelationField>, entities: map<string, Entity>)
    requires forall f :: f in fields ==> f.containingEntity == st.entity.name
    ensures var r, k, owner := RelLoop(st, fields, entities), Processed(st.validTypes, fields), st.entity.name;
      var left := RemoveEach(Bucket(st.deferred, owner), FinalizedTargets(fields[..k], entities));
      && Bucket(r.deferred, owner) == left
      && (owner in r.deferred ==> owner in st.deferred)
      && (owner in st.deferred && left != [] ==> owner in r.deferred)
  {
    var k := Processed(st.validTypes, fields);
    RelLoopDeferredSteps(st, fields, entities);
    ProcessedIsFirstStop(st.validTypes, fields);
    assert forall f :: f in fields[..k] ==> f in fields && f.typ != st.entity.name by {
      forall f | f in fields[..k] ensures f in fields && f.typ != st.entity.name {
        var i :| 0 <= i < k && fields[..k][i] == f;
        assert fields[i] == f;
      }
    }
    StepsOwnBucket(st.deferred, fields[..k], st.entity.name, entities);
  }

  lemma {:induction false} StepsOwnBucket(d: Deferred, fields: seq<RelationField>, owner: string,
                                          entities: map<string, Entity>)
    requires forall f :: f in fields ==> f.containingEntity == owner && f.typ != owner
    ensures var r, left := StepsDeferred(d, fields, owner, entities), RemoveEach(Bucket(d, owner), FinalizedTargets(fields, entities));
      && Bucket(r, owner) == left
      && (owner in r ==> owner in d)
      && (owner in d && left != [] ==> owner in r)
    decreases |fields|
  {
    if fields != [] {
      var d' := StepDeferred(d, fields[0], owner, entities);
      assert fields[0] in fields;
      assert forall f :: f in fields[1..] ==> f in fields;
      StepsOwnBucket(d', fields[1..], owner, entities);
      assert [fields[0]] + fields[1..] == fields;
      OwnBucketStep(d, d', StepsDeferred(d', fields[1..], owner, entities), fields[0], fields[1..], owner, entities);
    }
  }

  /** One field in front of the rest: the own list only loses the fields of its target, when that is finalized. */
  lemma OwnBucketStep(d: Deferred, d': Deferred, dr: Deferred, rf: RelationField, rest: seq<RelationField>,
                      owner: string, entities: map<string, Entity>)
    requires rf.containingEntity == owner && rf.typ != owner
    requires d' == StepDeferred(d, rf, owner, entities)
    requires var left := RemoveEach(Bucket(d', owner), FinalizedTargets(rest, entities));
      && Bucket(dr, owner) == left
      && (owner in dr ==> owner in d')
      && (owner in d' && left != [] ==> owner in dr)
    ensures var left := RemoveEach(Bucket(d, owner), FinalizedTargets([rf] + rest, entities));
      && Bucket(dr, owner) == left
      && (owner in dr ==> owner in d)
      && (owner in d && left != [] ==> owner in dr)
  {
    assert ([rf] + rest)[0] == rf && ([rf] + rest)[1..] == rest;
    var later := FinalizedTargets(rest, entities);
    if rf.typ in entities {
      assert FinalizedTargets([rf] + rest, entities) == [rf.typ] + later;
      assert Bucket(d', owner) == RemoveContaining(Bucket(d, owner), rf.typ);
      RemoveEachEmpty(later);
    } else {
      assert FinalizedTargets([rf] + rest, entities) == later;
      assert Bucket(d', owner) == Bucket(d, owner);
    }
  }

  lemma RemoveEachEmpty(names: seq<string>)
    ensures RemoveEach([], names) == []
  {
  }

  /** The fields relation validation of `e` walks: none when `e` declares no relation. */
  function LoopFields(e: Entity): seq<RelationField> {
    if e.containsRelations then e.relationFields else []
  }

  /**
   * Relation validation of `e`, exactly. With `k` the number of fields it gets
   * through before a self-relation or a repeated target: it appends the
   * pairwise diagnostics of those of the `k` fields whose target is
   * finalized, then the diagnostic of the field it stops at; it appends the
   * others, in order, to their target's waiting list, creating lists only for
   * them; and it drops from `e`'s own waiting list the fields of each
   * finalized entity it validated a relation to. No field after the stop is
   * validated or deferred.
   */
  lemma ValidateRelationsExact(e: Entity, entities: map<string, Entity>, deferred: Deferred)
    requires forall rf :: rf in e.relationFields ==> rf.containingEntity == e.name
    ensures var r, fields := ValidateRelations(e, entities, deferred), LoopFields(e);
      var k := Processed([], fields);
      && Extends(e, r.entity)
      && Added(e, r.entity) == ValidatedDiags(e, fields[..k], entities) + (if k < |fields| then [StopDiag(fields[k])] else [])
      && r.validTypes == Targets(fields[..k])
      && (forall key :: key != e.name ==>
            Bucket(r.deferred, key) == Bucket(deferred, key) + Waiting(fields[..k], key, entities))
      && (forall key :: key != e.name ==>
            (key in r.deferred <==> key in deferred || Waiting(fields[..k], key, entities) != []))
      && Bucket(r.deferred, e.name) == RemoveEach(Bucket(deferred, e.name), FinalizedTargets(fields[..k], entities))
  {
    var st, fields := RelState(e, [], deferred), LoopFields(e);
    assert ValidateRelations(e, entities, deferred) == RelLoop(st, fields, entities);
    RelLoopDiagnostics(st, fields, entities);
    RelLoopTargets(st, fields, entities);
    assert [] + Targets(fields[..Processed([], fields)]) == Targets(fields[..Processed([], fields)]);
    forall key | key != e.name
      ensures Bucket(RelLoop(st, fields, entities).deferred, key)
              == Bucket(deferred, key) + Waiting(fields[..Processed([], fields)], key, entities)
      ensures key in RelLoop(st, fields, entities).deferred
              <==> key in deferred || Waiting(fields[..Processed([], fields)], key, entities) != []
    {
      RelLoopWaiting(st, fields, entities, key);
    }
    RelLoopOwnBucket(st, fields, entities);
  }
}
