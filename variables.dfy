/** The variable tree ReflectionConfig produces, as values. */
module Variables {
  import opened Descriptors

  /** The object a field is read from: `Null` for a static field of a
      configuration class, or the value read from `field` on `parent`. */
  datatype Owner = Null | ValueOf(field: FieldDesc, parent: Owner)

  /** A BasicVariable keeps its kind and the (field, parent) pair its
      FieldProvider is bound to; a CustomVariable keeps its children by name. */
  datatype Variable =
    | BasicVariable(kind: ScalarKind, field: FieldDesc, parent: Owner)
    | CustomVariable(variables: map<string, Variable>)

  /** The RuntimeException thrown for a field type with no variable kind. */
  datatype BuildError = UnsupportedFieldType(typeName: string)

  datatype Result<+T> = Ok(value: T) | Err(error: BuildError)

  const UnsupportedPrefix: string := "Unsupported field type: "

  /** The exception message: a fixed prefix followed by the type's name. */
  function Message(e: BuildError): (msg: string)
    ensures |UnsupportedPrefix| <= |msg|
    ensures msg[..|UnsupportedPrefix|] == UnsupportedPrefix
    ensures msg[|UnsupportedPrefix|..] == e.typeName
  {
    UnsupportedPrefix + e.typeName
  }

  /** CustomVariable.putVariable: the name is bound to the new variable, a
      previous binding of the same name is replaced, every other binding
      stays. */
  function PutVariable(m: map<string, Variable>, name: string, v: Variable): (r: map<string, Variable>)
    ensures r.Keys == m.Keys + {name}
    ensures r[name] == v
    ensures forall k :: k in m && k != name ==> r[k] == m[k]
  {
    m[name := v]
  }
}
