/** Explicit descriptors for the parts of Java reflection that ReflectionConfig
    consults: a class's annotations and its public fields (`getFields`), a
    field's modifiers, and the classification `VariableType.fromClass` gives
    its declared type. */
module Descriptors {

  datatype Option<+T> = None | Some(value: T)

  /** The classifications that become a BasicVariable. */
  datatype ScalarKind = BooleanKind | IntKind | DoubleKind | StringKind | EnumKind

  /** A field's declared type as VariableType.fromClass classifies it.
      `Custom` carries the type's own public fields; `Unsupported` is every
      other classification, with the type's fully qualified name. Being an
      inductive value, a descriptor is finite: a type that contains itself
      cannot be described (the source has no cycle guard). */
  datatype FieldType =
    | Basic(kind: ScalarKind)
    | Custom(fields: seq<FieldDesc>)
    | Unsupported(typeName: string)

  /** One public field. `readFails` says that reading this field's current
      value with `Field.get` throws IllegalAccessException. */
  datatype FieldDesc = FieldDesc(
    name: string,
    isStatic: bool,
    isFinal: bool,
    ftype: FieldType,
    readFails: bool)

  /** The `@Config` annotation: its `value()` and `ignoreDisabled()`. */
  datatype ConfigAnnotation = ConfigAnnotation(value: string, ignoreDisabled: bool)

  /** One class delivered by the classpath scanner. `name` is the fully
      qualified name the ignore prefixes are tested against; `config` is
      `getAnnotation(Config.class)`; `hasDisabled` is whether `@Disabled`
      is present. */
  datatype ClassDesc = ClassDesc(
    name: string,
    simpleName: string,
    config: Option<ConfigAnnotation>,
    hasDisabled: bool,
    fields: seq<FieldDesc>)
}
