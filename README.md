# ReflectionConfig, modelled in Dafny

FtcDashboard's `ReflectionConfig` builds the dashboard's tree of tunable
configuration variables. It has three steps:

- It scans the classpath. It skips every class whose fully qualified name
  starts with an ignore prefix.
- It accepts a class as a configuration root when the class carries
  `@Config` and either lacks `@Disabled` or sets `ignoreDisabled`. The root
  is published under its `@Config` value, or under its simple name when the
  value is empty.
- Each root's subtree is built from its public static non-final fields,
  one variable per field. A `BasicVariable` is built for the scalar kinds
  (boolean, int, double, string, enum). A `CustomVariable` is built for a
  structured type, by recursing over that type's fields. Any other field
  type aborts the whole scan with "Unsupported field type".

The model replaces reflection with descriptors:

- `Descriptors.ClassDesc` stands for a class: its name, simple name,
  `@Config` annotation, `@Disabled` flag and public fields.
- `Descriptors.FieldDesc` stands for a field: its name, `static` and
  `final` modifiers, classification, and whether reading its value throws
  IllegalAccessException.
- The classpath is a `seq<ClassDesc>` in the order the scanner delivers it.

The variable tree is a value, `Variables.Variable`. A `CustomVariable` is a
`map` from child name to child. `putVariable` binds a name and replaces any
earlier binding of the same name: last write wins.

Each loop of the source is a method in `ReflectionConfig`:
`ShouldProcessClass`, `CreateVariableFromField` (recursive, with a loop),
`CreateVariableFromClass` and `ScanForClasses`. Each method is proved equal
to a specification function `FieldVariable`, `ClassVariables` or `Scan`,
except `ShouldProcessClass`, whose contract states its answer directly.
Each specification function is a left fold over the processed prefix (the
`...Prefix` helpers). `ReflectionConfigProperties` proves what the
construction promises about those functions. `ReflectionConfigExamples`
works through concrete classpaths.

Owners are symbolic. `Null` is the owner of a root-level static field, and
`ValueOf(f, p)` is the value that `f.get(p)` returns. So "bound to
`(field, parent)`" is a statement about the model's values.

Two quirks of the source are kept as written:

- The skip test in the structured branch looks at the OUTER field's `final`
  modifier, not the nested field's. Root fields are never final, so at the
  first level of nesting every field of the nested type gets an entry,
  final and instance fields included, when the root field's value can be
  read and the build does not fail. Deeper down, a final structured field
  gives an empty composite, whatever its type contains, even an unsupported
  type.
- The IllegalAccessException handler surrounds the read of the outer
  field's value. `Field.get` gives the same outcome for the same field and
  owner, so a failing read fails in every iteration. The field then stays
  in the tree as an EMPTY composite, and the scan goes on. The error is not
  fatal, and the nested fields are never built or classified.

Consequences of the code as written:

- The structured-field descent has no cycle guard. Descriptors here are
  finite inductive values, so the model assumes acyclic field types.
- A structured field whose value cannot be read is not omitted: it is put
  as an empty composite (`UnreadableCustomFieldIsEmpty`,
  `ReadFailureExample`).
- The code never looks at a nested field's own modifiers
  (`NestedFieldModifiersIgnored`).

## Model

| member | source | states |
|---|---|---|
| `Variables.PutVariable` | FtcDashboard/src/main/java/com/acmerobotics/dashboard/config/reflection/ReflectionConfig.java:60 | after a put the name is bound to the new variable, the key set grows by at most that name, and every other binding is unchanged (last write wins) |
| `Variables.Message` | FtcDashboard/src/main/java/com/acmerobotics/dashboard/config/reflection/ReflectionConfig.java:111-112 | the failure message is the fixed "Unsupported field type: " prefix followed by exactly the offending type's name |
| `ReflectionConfig.ShouldProcessClass` | FtcDashboard/src/main/java/com/acmerobotics/dashboard/config/reflection/ReflectionConfig.java:26-33 | a class name is accepted iff none of the ignore prefixes starts it, and rejected iff some single prefix starts it |
| `ReflectionConfig.ShouldProcess` | FtcDashboard/src/main/java/com/acmerobotics/dashboard/config/reflection/ReflectionConfig.java:26-33 | a name is rejected iff some ignore prefix is a prefix of it; with no prefixes every name passes, and the empty prefix rejects every name |
| `ReflectionConfigProperties.IgnoredPackageCovered` | FtcDashboard/src/main/java/com/acmerobotics/dashboard/config/reflection/ReflectionConfig.java:27-30 | a rejected name rejects every name that extends it, so a package prefix ignores the whole package |
| `ReflectionConfig.IsConfigRoot` | FtcDashboard/src/main/java/com/acmerobotics/dashboard/config/reflection/ReflectionConfig.java:47-48 | only a class carrying `@Config` is a root; an annotated class without `@Disabled` always is; a `@Disabled` root must set `ignoreDisabled` |
| `ReflectionConfig.ExposedName` | FtcDashboard/src/main/java/com/acmerobotics/dashboard/config/reflection/ReflectionConfig.java:53-57 | a root is published under its `@Config` value when that is non-empty and under its simple name otherwise, so the name is empty only when the simple name is |
| `ReflectionConfig.IsRootField` | FtcDashboard/src/main/java/com/acmerobotics/dashboard/config/reflection/ReflectionConfig.java:73-76 | final fields and instance fields are never exposed at the root; every static non-final field is |
| `ReflectionConfig.CreateVariableFromField` | FtcDashboard/src/main/java/com/acmerobotics/dashboard/config/reflection/ReflectionConfig.java:83-114 | the recursive method with its per-field loop, its skip test and the read failure it catches, returns exactly the variable or failure `FieldVariable` specifies |
| `ReflectionConfig.CreateVariableFromClass` | FtcDashboard/src/main/java/com/acmerobotics/dashboard/config/reflection/ReflectionConfig.java:69-81 | the field loop returns exactly the root composite or the failure `ClassVariables` specifies |
| `ReflectionConfig.ScanForClasses` | FtcDashboard/src/main/java/com/acmerobotics/dashboard/config/reflection/ReflectionConfig.java:21-67 | the scan loop, with the filter callback and the processClass body, returns exactly the configuration root or the failure `Scan` specifies |
| `ReflectionConfigProperties.FieldVariableDispatch` | FtcDashboard/src/main/java/com/acmerobotics/dashboard/config/reflection/ReflectionConfig.java:84-113 | a scalar field gives a basic variable of the same kind bound to (field, parent); a CUSTOM field gives a composite or a failure; any other classification fails naming the type |
| `ReflectionConfigProperties.FinalCustomFieldIsEmpty` | FtcDashboard/src/main/java/com/acmerobotics/dashboard/config/reflection/ReflectionConfig.java:95-98 | a final CUSTOM field gives an empty composite whatever its type's fields are, unsupported ones included |
| `ReflectionConfigProperties.UnreadableCustomFieldIsEmpty` | FtcDashboard/src/main/java/com/acmerobotics/dashboard/config/reflection/ReflectionConfig.java:101-106 | a CUSTOM field whose value read throws IllegalAccessException gives an empty composite, and the build does not fail |
| `ReflectionConfigProperties.NestedFieldEntries` | FtcDashboard/src/main/java/com/acmerobotics/dashboard/config/reflection/ReflectionConfig.java:93-109 | for a readable non-final CUSTOM field the build succeeds iff every field of its type builds with the read value as owner. The composite's keys are exactly the nested field names, static or not. Each key holds the last nested field of that name, built from the read value. A failure is the first failing nested field's |
| `ReflectionConfigProperties.NestedFieldModifiersIgnored` | FtcDashboard/src/main/java/com/acmerobotics/dashboard/config/reflection/ReflectionConfig.java:95-100 | every nested field, final or instance included, has an entry when the outer field is non-final and readable |
| `ReflectionConfigProperties.FieldVariableFailsIff` | FtcDashboard/src/main/java/com/acmerobotics/dashboard/config/reflection/ReflectionConfig.java:83-114 | building a field fails iff the reference predicate `Fatal` holds: an unsupported type reached through non-final, readable CUSTOM fields; so failure does not depend on the owner and is never swallowed by the IllegalAccessException handler |
| `ReflectionConfigProperties.FailureNamesReachedType` | FtcDashboard/src/main/java/com/acmerobotics/dashboard/config/reflection/ReflectionConfig.java:110-112 | the failure names an unsupported type that the build actually reaches |
| `ReflectionConfigProperties.ClassVariablesEntries` | FtcDashboard/src/main/java/com/acmerobotics/dashboard/config/reflection/ReflectionConfig.java:69-81 | the root composite's keys are exactly the names of the static non-final fields. Each key holds the last such field of that name, built with a null owner. The build fails iff one of those fields fails, with the first such field's failure |
| `ReflectionConfigProperties.ClassVariablesFailIff` | FtcDashboard/src/main/java/com/acmerobotics/dashboard/config/reflection/ReflectionConfig.java:72-78 | a class's subtree fails iff one of its static non-final fields is `Fatal`; instance and final fields can never make it fail |
| `ReflectionConfigProperties.ScanEntries` | FtcDashboard/src/main/java/com/acmerobotics/dashboard/config/reflection/ReflectionConfig.java:43-60 | the root's keys are exactly the resolved names of the accepted classes: the `@Config` value when non-empty, else the simple name. Each key holds the subtree of the last accepted class of that name in scan order. The scan fails iff an accepted class's subtree fails, with the first one's failure |
| `ReflectionConfigProperties.ScanFailsIff` | FtcDashboard/src/main/java/com/acmerobotics/dashboard/config/reflection/ReflectionConfig.java:21-67 | the scan fails iff some accepted class has a static non-final `Fatal` field |
| `ReflectionConfigProperties.ScanIgnoresUnaccepted` | FtcDashboard/src/main/java/com/acmerobotics/dashboard/config/reflection/ReflectionConfig.java:24-63 | two classpaths that differ only in classes that are not accepted give the same result |
| `ReflectionConfigProperties.IgnoredClassNeverInspected` | FtcDashboard/src/main/java/com/acmerobotics/dashboard/config/reflection/ReflectionConfig.java:26-33 | a class rejected by an ignore prefix is never looked at: any class of the same name in its place gives the same result |
| `ReflectionConfigProperties.NonRootClassAddsNothing` | FtcDashboard/src/main/java/com/acmerobotics/dashboard/config/reflection/ReflectionConfig.java:43-48 | a class that is not a configuration root contributes nothing: its fields are never built |
| `ReflectionConfigExamples.DriveExample` | FtcDashboard/src/main/java/com/acmerobotics/dashboard/config/reflection/ReflectionConfig.java:53-60 | `Drive { static double maxPower; static Pid pid }` with `Pid { double kP, kI }` gives `{Drive: {maxPower, pid: {kP, kI}}}`. The nested scalars are bound to the value of `pid` |
| `ReflectionConfigExamples.IgnoredPrefixExample` | FtcDashboard/src/main/java/com/acmerobotics/dashboard/config/reflection/ReflectionConfig.java:27-30 | a prefix of the class's qualified name removes it from the result |
| `ReflectionConfigExamples.DisabledExample` | FtcDashboard/src/main/java/com/acmerobotics/dashboard/config/reflection/ReflectionConfig.java:47-57 | `@Disabled` without `ignoreDisabled` gives an empty root; with `ignoreDisabled` and value "Tuning" the class appears under "Tuning" |
| `ReflectionConfigExamples.ReadFailureExample` | FtcDashboard/src/main/java/com/acmerobotics/dashboard/config/reflection/ReflectionConfig.java:101-106 | of two CUSTOM root fields, the unreadable one stays as an empty composite and the other is built in full |
| `ReflectionConfigExamples.UnsupportedExample` | FtcDashboard/src/main/java/com/acmerobotics/dashboard/config/reflection/ReflectionConfig.java:110-112 | an unsupported field in the second class aborts the scan with the unsupported-type failure naming `java.lang.Object`; no tree is returned, not even the earlier class's |
| `ReflectionConfigExamples.UnsupportedMessageExample` | FtcDashboard/src/main/java/com/acmerobotics/dashboard/config/reflection/ReflectionConfig.java:111-112 | the message for an unsupported `java.lang.Object` field is "Unsupported field type: java.lang.Object" |
| `ReflectionConfigExamples.CollisionExample` | FtcDashboard/src/main/java/com/acmerobotics/dashboard/config/reflection/ReflectionConfig.java:60 | two roots with the same simple name: the later class's subtree is the one kept |

## Left out

- Classpath enumeration by `ClasspathScanner` (its implementation is not part of this model). It is a given sequence of class descriptors, visited in order. The model assumes the scanner calls `processClass` only for names `shouldProcessClass` accepts, and lets exceptions from `processClass` propagate.
- Java reflection (`getFields`, `getModifiers`, `getAnnotation`, `isAnnotationPresent`, `Field.get`). Descriptor fields and the `readFails` flag replace it.
- `VariableType.fromClass` (not part of this model). Its classification is folded into `FieldType`: CUSTOM carries the type's public fields, and every other classification is `Unsupported` with the type's name.
- The internals of `FieldProvider`, `BasicVariable` and `CustomVariable`, and live get/set of field values. These are foreign runtime access; a basic variable records only its kind and its (field, owner) binding.
- The order in which a `CustomVariable` lists its entries. The implementation is not part of this model, so a composite is a map and only the last-write-wins rule is modelled.
- Object identity of `CustomVariable`s. The tree is a value, and each method builds its map in a local variable.
- The `android.util.Log` calls at lines 49 and 105. They are logging only.
- A read outcome that changes from one iteration of the nested loop to the next. `Field.get` gives the same outcome for the same field and owner, so `readFails` is per field.
- Runtime failures that depend on field values. An example is a NullPointerException from reading an instance field of a null outer value. Values are symbolic in the model.
- Self-referential field types and any cycle guard. The source has no guard, and a finite descriptor cannot describe a cycle.
- Concurrency around dashboard value edits. The build is sequential.
- DOUBLE floating point. The kind is only a tag.
- Idempotence of repeated scans as a separate property. `Scan` is a function of its inputs, so two scans of the same classpath and prefixes give equal trees.
