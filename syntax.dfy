/**
 * The part of the host language's syntax tree that the validator inspects:
 * the top-level members of one model-definition file, record type
 * descriptors, record fields and field type descriptors. Source locations are
 * abstract handles.
 */
module Syntax {
  import opened Wrappers

  /** An abstract source location (a node's `location()`). */
  type Loc = nat

  /**
   * A field's type descriptor. `OptionalOf` is `T?`, `ArrayOf` is `T[]`,
   * `BuiltinName` a builtin simple type keyword (`int`, `byte`, ...),
   * `QualifiedName` a `prefix:Identifier` reference into another module,
   * `SimpleName` a plain type name, and `OtherShape` any other descriptor
   * (unions, maps, nested records, ...), carried with its rendered text.
   */
  datatype TypeDesc =
    | OptionalOf(inner: TypeDesc, loc: Loc)
    | ArrayOf(member: TypeDesc, loc: Loc)
    | BuiltinName(name: string, loc: Loc)
    | QualifiedName(modulePrefix: string, identifier: string, loc: Loc)
    | SimpleName(name: string, loc: Loc)
    | OtherShape(text: string, loc: Loc)

  /**
   * A record field: a plain field (`readonly`? type name `?`? `;`), a field
   * with a default value, or a field inherited through a type reference
   * (`*T;`).
   */
  datatype FieldNode =
    | PlainField(name: string, nameLoc: Loc, isReadonly: bool, questionMark: bool, typ: TypeDesc, loc: Loc)
    | DefaultValuedField(loc: Loc)
    | InheritedField(loc: Loc)

  /**
   * A record type descriptor: whether it is closed (`{| ... |}`), the
   * location of its rest descriptor when it has one, and its fields.
   */
  datatype RecordDesc = RecordDesc(closed: bool, rest: Option<Loc>, fields: seq<FieldNode>, loc: Loc)

  /** A type definition whose descriptor is a record: a candidate entity. */
  datatype TypeDefinition = TypeDefinition(name: string, nameLoc: Loc, record: RecordDesc)

  /** A top-level member: a record type definition or anything else. */
  datatype Member = RecordDef(def: TypeDefinition) | OtherMember(loc: Loc)

  /** The two kinds of node the analysis task is invoked on. */
  datatype AnalysisNode =
    | ImportPrefix(isUnderscore: bool, loc: Loc)
    | ModulePart(members: seq<Member>)
}
