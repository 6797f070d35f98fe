/**
 * Classification of a field's declared type: builtin simple types, the
 * temporal types of the `time` module, `byte[]`, relations to other entities
 * of the model, and everything else.
 */
module TypeRules {
  import opened Wrappers
  import opened Syntax
  import opened Diagnostics
  import opened EntityModel

  const INT := "int"
  const BOOLEAN := "boolean"
  const DECIMAL := "decimal"
  const FLOAT := "float"
  const STRING := "string"
  const BYTE := "byte"

  const TIME_MODULE := "time"
  const DATE := "Date"
  const TIME_OF_DAY := "TimeOfDay"
  const UTC := "Utc"
  const CIVIL := "Civil"

  const ARRAY_POSTFIX := "[]"

  /** The simple types a field may have. */
  const SimpleTypes: set<string> := {INT, BOOLEAN, DECIMAL, FLOAT, STRING}

  /** The identifiers of the `time` module a field may use. */
  const TimeTypes: set<string> := {DATE, TIME_OF_DAY, UTC, CIVIL}

  function IsValidSimpleType(typ: string): (b: bool)
    ensures b <==> typ in SimpleTypes
  {
    typ == INT || typ == BOOLEAN || typ == DECIMAL || typ == FLOAT || typ == STRING
  }

  function IsValidImportedType(modulePrefix: string, identifier: string): (b: bool)
    ensures b <==> modulePrefix == TIME_MODULE && identifier in TimeTypes
  {
    if modulePrefix != TIME_MODULE then false
    else identifier == DATE || identifier == TIME_OF_DAY || identifier == UTC || identifier == CIVIL
  }

  /** The types an identifier field may have. */
  function SupportedIdentifierTypes(): (r: seq<string>)
    ensures forall t :: t in r <==> t in SimpleTypes
  {
    [INT, STRING, BOOLEAN, DECIMAL, FLOAT]
  }

  /**
   * A type descriptor with at most one optional wrapper and then at most one
   * array wrapper peeled off, in that order.
   */
  datatype Unwrapped = Unwrapped(isOptional: bool, isArray: bool, element: TypeDesc)

  function Unwrap(t: TypeDesc): (u: Unwrapped)
    ensures u.isOptional <==> t.OptionalOf?
    ensures u.isArray <==> (if t.OptionalOf? then t.inner else t).ArrayOf?
    ensures var peeled := if t.OptionalOf? then t.inner else t;
      u.element == if peeled.ArrayOf? then peeled.member else peeled
  {
    var afterOptional := if t.OptionalOf? then t.inner else t;
    if afterOptional.ArrayOf? then Unwrapped(t.OptionalOf?, true, afterOptional.member)
    else Unwrapped(t.OptionalOf?, false, afterOptional)
  }

  /** The text of a type descriptor, used when a descriptor has no single name. */
  function RenderType(t: TypeDesc): string {
    match t
    case OptionalOf(inner, _) => RenderType(inner) + "?"
    case ArrayOf(member, _) => RenderType(member) + ARRAY_POSTFIX
    case BuiltinName(name, _) => name
    case QualifiedName(p, i, _) => p + ":" + i
    case SimpleName(name, _) => name
    case OtherShape(text, _) => text
  }

  /**
   * The diagnostics for a builtin or non-entity simple type name: a valid
   * simple type is legal except in array form (306 at the element type);
   * `byte[]` is legal; anything else is an invalid type (305, with the array
   * postfix, at the whole type).
   */
  function SimpleTypeDiags(typ: string, isArray: bool, typeLoc: Loc, elementLoc: Loc): (r: seq<Diagnostic>)
    ensures r == [] <==> (typ in SimpleTypes && !isArray) || (typ == BYTE && isArray)
    ensures |r| <= 1
    ensures typ in SimpleTypes && isArray ==> r == [Diagnostic(PERSIST_306, [typ], elementLoc)]
    ensures typ !in SimpleTypes && !(typ == BYTE && isArray) ==>
      r == [Diagnostic(PERSIST_305, [typ + if isArray then ARRAY_POSTFIX else ""], typeLoc)]
  {
    var postfix := if isArray then ARRAY_POSTFIX else "";
    if IsValidSimpleType(typ) then
      (if isArray then [Diagnostic(PERSIST_306, [typ], elementLoc)] else [])
    else if !(typ == BYTE && isArray) then
      [Diagnostic(PERSIST_305, [typ + postfix], typeLoc)]
    else []
  }

  /** What classifying one field's type yields. */
  datatype TypeVerdict = TypeVerdict(
    diags: seq<Diagnostic>,
    identifierType: string,
    optional: bool,
    nonRelation: bool,
    relation: Option<RelationField>)

  /** The declared type names a relation to another entity of the model. */
  predicate IsRelationType(t: TypeDesc, registry: seq<string>) {
    var e := Unwrap(t).element;
    e.SimpleName? && e.name in registry
  }

  /** Reference definition of a type that draws no diagnostic. */
  predicate LegalFieldType(t: TypeDesc, registry: seq<string>) {
    var u := Unwrap(t);
    match u.element
    case BuiltinName(n, _) => (n in SimpleTypes && !u.isArray) || (n == BYTE && u.isArray)
    case SimpleName(n, _) =>
      if n in registry then !u.isOptional
      else (n in SimpleTypes && !u.isArray) || (n == BYTE && u.isArray)
    case QualifiedName(p, i, _) => p == TIME_MODULE && i in TimeTypes && !u.isArray
    case _ => false
  }

  /** An element type that has a single name: a builtin, a plain or a module-qualified name. */
  predicate NamedElement(e: TypeDesc) {
    e.BuiltinName? || e.SimpleName? || e.QualifiedName?
  }

  /**
   * An element type that is legal on its own but not in array form: a valid
   * simple type (builtin, or a plain name that is no entity) or a temporal
   * type of the `time` module.
   */
  predicate ScalarOnlyElement(e: TypeDesc, registry: seq<string>) {
    match e
    case BuiltinName(n, _) => n in SimpleTypes
    case SimpleName(n, _) => n !in registry && n in SimpleTypes
    case QualifiedName(p, i, _) => p == TIME_MODULE && i in TimeTypes
    case _ => false
  }

  /**
   * Classifies the type `t` of field at `fieldLoc` of entity `entityName`,
   * given the names of all entities of the model.
   */
  function ClassifyFieldType(t: TypeDesc, fieldLoc: Loc, entityName: string, registry: seq<string>): (v: TypeVerdict)
    ensures v.optional <==> t.OptionalOf?
    ensures v.nonRelation <==> Unwrap(t).element.BuiltinName? || Unwrap(t).element.QualifiedName?
    ensures v.relation.Some? <==> IsRelationType(t, registry)
    ensures v.relation.Some? ==>
      v.relation.value == RelationField(Unwrap(t).element.name, Unwrap(t).isArray, fieldLoc, entityName)
    ensures v.diags == [] <==> LegalFieldType(t, registry)
    ensures |v.diags| <= 1
    ensures forall d :: d in v.diags ==> d.code in {PERSIST_305, PERSIST_306, PERSIST_421}
    ensures v.identifierType == RenderType(Unwrap(t).element)
    ensures IsRelationType(t, registry) ==>
      v.diags == if t.OptionalOf? then [Diagnostic(PERSIST_421, [], t.loc)] else []
    ensures var e := Unwrap(t).element;
      Unwrap(t).isArray && ScalarOnlyElement(e, registry) ==>
        v.diags == [Diagnostic(PERSIST_306, [RenderType(e)], if e.QualifiedName? then t.loc else e.loc)]
    ensures var u := Unwrap(t);
      !LegalFieldType(t, registry) && !IsRelationType(t, registry) && !(u.isArray && ScalarOnlyElement(u.element, registry)) ==>
        v.diags == [Diagnostic(PERSIST_305,
                               [RenderType(u.element) + if u.isArray && NamedElement(u.element) then ARRAY_POSTFIX else ""],
                               t.loc)]
  {
    var u := Unwrap(t);
    var postfix := if u.isArray then ARRAY_POSTFIX else "";
    match u.element
    case BuiltinName(name, elementLoc) =>
      TypeVerdict(SimpleTypeDiags(name, u.isArray, t.loc, elementLoc), name, u.isOptional, true, None)
    case QualifiedName(p, i, _) =>
      var qualified := p + ":" + i;
      var diags :=
        if IsValidImportedType(p, i) then
          (if u.isArray then [Diagnostic(PERSIST_306, [qualified], t.loc)] else [])
        else [Diagnostic(PERSIST_305, [qualified + postfix], t.loc)];
      TypeVerdict(diags, qualified, u.isOptional, true, None)
    case SimpleName(name, elementLoc) =>
      if name in registry then
        TypeVerdict(if u.isOptional then [Diagnostic(PERSIST_421, [], t.loc)] else [],
                    name, u.isOptional, false, Some(RelationField(name, u.isArray, fieldLoc, entityName)))
      else
        TypeVerdict(SimpleTypeDiags(name, u.isArray, t.loc, elementLoc), name, u.isOptional, false, None)
    case _ =>
      var rendered := RenderType(u.element);
      assert rendered + "" == rendered;
      TypeVerdict([Diagnostic(PERSIST_305, [rendered], t.loc)], rendered, u.isOptional, false, None)
  }
}
