/** ReflectionConfig: scanning classes for `@Config` roots and building the
    tree of tunable variables from their fields.

    The functions give the result of each operation on descriptors; the
    methods are the source's loops, each proved equal to its function. */
module ReflectionConfig {
  import opened Descriptors
  import opened Variables

  // ---------------------------------------------------------------------
  // Class filter and root acceptance (scanForClasses)
  // ---------------------------------------------------------------------

  /** String.startsWith. */
  predicate StartsWith(s: string, prefix: string) {
    prefix <= s
  }

  /** The `shouldProcessClass` decision: no ignore prefix starts the name. */
  function ShouldProcess(className: string, prefixes: set<string>): (b: bool)
    ensures !b <==> exists p :: p in prefixes && p <= className
    ensures prefixes == {} ==> b
    ensures "" in prefixes ==> !b
  {
    forall p :: p in prefixes ==> !StartsWith(className, p)
  }

  /** The `@Config` annotation is present, and `@Disabled` is absent or
      `ignoreDisabled()` is set. */
  function IsConfigRoot(c: ClassDesc): (b: bool)
    ensures b ==> c.config.Some?
    ensures c.config.Some? && !c.hasDisabled ==> b
    ensures b && c.hasDisabled ==> c.config.Some? && c.config.value.ignoreDisabled
  {
    c.config.Some? && (!c.hasDisabled || c.config.value.ignoreDisabled)
  }

  /** The name a root is published under. */
  function ExposedName(c: ClassDesc): (name: string)
    requires c.config.Some?
    ensures c.config.value.value != "" ==> name == c.config.value.value
    ensures c.config.value.value == "" ==> name == c.simpleName
    ensures name == "" ==> c.simpleName == ""
  {
    if c.config.value.value != "" then c.config.value.value else c.simpleName
  }

  /** A class that passes the filter and is a configuration root. */
  predicate Accepted(c: ClassDesc, prefixes: set<string>) {
    ShouldProcess(c.name, prefixes) && IsConfigRoot(c)
  }

  // ---------------------------------------------------------------------
  // createVariableFromField
  // ---------------------------------------------------------------------

  function Width(f: FieldDesc): (w: nat) {
    if f.ftype.Custom? then |f.ftype.fields| + 1 else 0
  }

  /** The variable built for `f` read from `parent`, or the unsupported-type
      failure. */
  function FieldVariable(f: FieldDesc, parent: Owner): (r: Result<Variable>)
    decreases f, Width(f)
  {
    match f.ftype
    case Basic(kind) => Ok(BasicVariable(kind, f, parent))
    case Custom(nested) =>
      (match NestedVariables(f, parent, |nested|)
       case Ok(m) => Ok(CustomVariable(m))
       case Err(e) => Err(e))
    case Unsupported(typeName) => Err(UnsupportedFieldType(typeName))
  }

  /** The children of the CUSTOM field `f` after the first `n` fields of its
      type. The skip test looks at the outer field `f`; a failing read of
      `f`'s value skips the entry; a failure of the nested build ends it. */
  function NestedVariables(f: FieldDesc, parent: Owner, n: nat): (r: Result<map<string, Variable>>)
    requires f.ftype.Custom? && n <= |f.ftype.fields|
    decreases f, n
  {
    if n == 0 then Ok(map[])
    else
      match NestedVariables(f, parent, n - 1)
      case Err(e) => Err(e)
      case Ok(m) =>
        var nestedField := f.ftype.fields[n - 1];
        if f.isFinal then Ok(m)
        else if f.readFails then Ok(m)
        else
          match FieldVariable(nestedField, ValueOf(f, parent))
          case Err(e) => Err(e)
          case Ok(v) => Ok(PutVariable(m, nestedField.name, v))
  }

  lemma {:induction false} NestedErrorPersists(f: FieldDesc, parent: Owner, i: nat, n: nat)
    requires f.ftype.Custom? && i <= n <= |f.ftype.fields|
    requires NestedVariables(f, parent, i).Err?
    ensures NestedVariables(f, parent, n) == NestedVariables(f, parent, i)
    decreases n
  {
    if n > i {
      NestedErrorPersists(f, parent, i, n - 1);
    }
  }

  method CreateVariableFromField(f: FieldDesc, parent: Owner) returns (r: Result<Variable>)
    ensures r == FieldVariable(f, parent)
    decreases f, Width(f)
  {
    match f.ftype {
      case Basic(kind) =>
        return Ok(BasicVariable(kind, f, parent));
      case Custom(nestedFields) =>
        var customVariable: map<string, Variable> := map[];
        for i := 0 to |nestedFields|
          invariant NestedVariables(f, parent, i) == Ok(customVariable)
        {
          var nestedField := nestedFields[i];
          if !f.isFinal {
            var name := nestedField.name;
            if f.readFails {
              // IllegalAccessException: logged, this entry is not added
            } else {
              var child := CreateVariableFromField(nestedField, ValueOf(f, parent));
              if child.Err? {
                NestedErrorPersists(f, parent, i + 1, |nestedFields|);
                return Err(child.error);
              }
              customVariable := PutVariable(customVariable, name, child.value);
            }
          }
        }
        return Ok(CustomVariable(customVariable));
      case Unsupported(typeName) =>
        return Err(UnsupportedFieldType(typeName));
    }
  }

  // ---------------------------------------------------------------------
  // createVariableFromClass
  // ---------------------------------------------------------------------

  /** The fields a configuration class exposes directly. */
  function IsRootField(f: FieldDesc): (b: bool)
    ensures f.isFinal ==> !b
    ensures !f.isStatic ==> !b
    ensures f.isStatic && !f.isFinal ==> b
  {
    f.isStatic && !f.isFinal
  }

  /** The root composite's children after the first `n` of `fields`. */
  function RootVariables(fields: seq<FieldDesc>, n: nat): (r: Result<map<string, Variable>>)
    requires n <= |fields|
  {
    if n == 0 then Ok(map[])
    else
      match RootVariables(fields, n - 1)
      case Err(e) => Err(e)
      case Ok(m) =>
        var field := fields[n - 1];
        if !IsRootField(field) then Ok(m)
        else
          match FieldVariable(field, Null)
          case Err(e) => Err(e)
          case Ok(v) => Ok(PutVariable(m, field.name, v))
  }

  function ClassVariables(c: ClassDesc): (r: Result<map<string, Variable>>) {
    RootVariables(c.fields, |c.fields|)
  }

  lemma {:induction false} RootErrorPersists(fields: seq<FieldDesc>, i: nat, n: nat)
    requires i <= n <= |fields|
    requires RootVariables(fields, i).Err?
    ensures RootVariables(fields, n) == RootVariables(fields, i)
  {
    if n > i {
      RootErrorPersists(fields, i, n - 1);
    }
  }

  method CreateVariableFromClass(configClass: ClassDesc) returns (r: Result<map<string, Variable>>)
    ensures r == ClassVariables(configClass)
  {
    var customVariable: map<string, Variable> := map[];
    for i := 0 to |configClass.fields|
      invariant RootVariables(configClass.fields, i) == Ok(customVariable)
    {
      var field := configClass.fields[i];
      if field.isStatic && !field.isFinal {
        var v := CreateVariableFromField(field, Null);
        if v.Err? {
          RootErrorPersists(configClass.fields, i + 1, |configClass.fields|);
          return Err(v.error);
        }
        customVariable := PutVariable(customVariable, field.name, v.value);
      }
    }
    return Ok(customVariable);
  }

  // ---------------------------------------------------------------------
  // scanForClasses
  // ---------------------------------------------------------------------

  /** The configuration root after the scanner has delivered the first `n`
      classes. */
  function ScanPrefix(classes: seq<ClassDesc>, prefixes: set<string>, n: nat): (r: Result<map<string, Variable>>)
    requires n <= |classes|
  {
    if n == 0 then Ok(map[])
    else
      match ScanPrefix(classes, prefixes, n - 1)
      case Err(e) => Err(e)
      case Ok(root) =>
        var c := classes[n - 1];
        if !Accepted(c, prefixes) then Ok(root)
        else
          match ClassVariables(c)
          case Err(e) => Err(e)
          case Ok(m) => Ok(PutVariable(root, ExposedName(c), CustomVariable(m)))
  }

  function Scan(classes: seq<ClassDesc>, prefixes: set<string>): (r: Result<map<string, Variable>>) {
    ScanPrefix(classes, prefixes, |classes|)
  }

  lemma {:induction false} ScanErrorPersists(classes: seq<ClassDesc>, prefixes: set<string>, i: nat, n: nat)
    requires i <= n <= |classes|
    requires ScanPrefix(classes, prefixes, i).Err?
    ensures ScanPrefix(classes, prefixes, n) == ScanPrefix(classes, prefixes, i)
  {
    if n > i {
      ScanErrorPersists(classes, prefixes, i, n - 1);
    }
  }

  /** The `shouldProcessClass` callback: tries the prefixes one at a time and
      rejects the name at the first one that starts it. */
  method ShouldProcessClass(className: string, packageIgnorePrefixes: set<string>) returns (process: bool)
    ensures process <==> forall p :: p in packageIgnorePrefixes ==> !StartsWith(className, p)
    ensures !process <==> exists p :: p in packageIgnorePrefixes && StartsWith(className, p)
  {
    var remaining := packageIgnorePrefixes;
    while remaining != {}
      invariant remaining <= packageIgnorePrefixes
      invariant forall p :: p in packageIgnorePrefixes - remaining ==> !StartsWith(className, p)
      decreases |remaining|
    {
      var prefix :| prefix in remaining;
      if StartsWith(className, prefix) {
        return false;
      }
      remaining := remaining - {prefix};
    }
    return true;
  }

  /** scanForClasses over the classes the classpath scanner delivers, in its
      order. The loop body is the scanner's callback pair: the class is
      processed only when `shouldProcessClass` accepts its name, and the
      `processClass` body follows. */
  method ScanForClasses(classes: seq<ClassDesc>, packageIgnorePrefixes: set<string>)
    returns (r: Result<map<string, Variable>>)
    ensures r == Scan(classes, packageIgnorePrefixes)
  {
    var configRoot: map<string, Variable> := map[];
    for i := 0 to |classes|
      invariant ScanPrefix(classes, packageIgnorePrefixes, i) == Ok(configRoot)
    {
      var configClass := classes[i];
      var process := ShouldProcessClass(configClass.name, packageIgnorePrefixes);
      if process {
        var config := configClass.config;
        if config.Some? && (!configClass.hasDisabled || config.value.ignoreDisabled) {
          var name := configClass.simpleName;
          var altName := config.value.value;
          if altName != "" {
            name := altName;
          }
          var subtree := CreateVariableFromClass(configClass);
          if subtree.Err? {
            ScanErrorPersists(classes, packageIgnorePrefixes, i + 1, |classes|);
            return Err(subtree.error);
          }
          configRoot := PutVariable(configRoot, name, CustomVariable(subtree.value));
        }
      }
    }
    return Ok(configRoot);
  }
}
