/** What ReflectionConfig's construction promises, proved about the
    specification functions that its methods are proved equal to. */
module ReflectionConfigProperties {
  import opened Descriptors
  import opened Variables
  import opened ReflectionConfig

  // ---------------------------------------------------------------------
  // Reference definitions
  // ---------------------------------------------------------------------

  /** No later field among the first `n` has the same name as field `j`. */
  ghost predicate LastNamed(fs: seq<FieldDesc>, j: nat, n: nat)
    requires j < n <= |fs|
  {
    forall j' :: j < j' < n ==> fs[j'].name != fs[j].name
  }

  /** No later root field among the first `n` has the name of field `j`. */
  ghost predicate LastRootNamed(fs: seq<FieldDesc>, j: nat, n: nat)
    requires j < n <= |fs|
  {
    forall j' :: j < j' < n && IsRootField(fs[j']) ==> fs[j'].name != fs[j].name
  }

  /** No later accepted class among the first `n` is exposed under the name
      of class `j`. */
  ghost predicate LastExposed(classes: seq<ClassDesc>, prefixes: set<string>, j: nat, n: nat)
    requires j < n <= |classes| && classes[j].config.Some?
  {
    forall j' :: j < j' < n && Accepted(classes[j'], prefixes) ==>
      ExposedName(classes[j']) != ExposedName(classes[j])
  }

  /** Building `f` must fail: its type is unsupported, or it is a CUSTOM
      field that is not final, whose value can be read, and one of whose
      type's fields must fail. */
  ghost predicate Fatal(f: FieldDesc)
    decreases f
  {
    match f.ftype
    case Basic(_) => false
    case Unsupported(_) => true
    case Custom(nested) =>
      !f.isFinal && !f.readFails && exists j :: 0 <= j < |nested| && Fatal(nested[j])
  }

  /** `typeName` is the name of an unsupported type that building `f`
      reaches. */
  ghost predicate ReachesUnsupported(f: FieldDesc, typeName: string)
    decreases f
  {
    match f.ftype
    case Basic(_) => false
    case Unsupported(t) => t == typeName
    case Custom(nested) =>
      !f.isFinal && !f.readFails &&
      exists j :: 0 <= j < |nested| && ReachesUnsupported(nested[j], typeName)
  }

  // ---------------------------------------------------------------------
  // createVariableFromField
  // ---------------------------------------------------------------------

  /** The three arms of the dispatch on the classification. */
  lemma FieldVariableDispatch(f: FieldDesc, parent: Owner)
    ensures f.ftype.Basic? ==> FieldVariable(f, parent) == Ok(BasicVariable(f.ftype.kind, f, parent))
    ensures f.ftype.Custom? ==> FieldVariable(f, parent).Err? || FieldVariable(f, parent).value.CustomVariable?
    ensures f.ftype.Unsupported? ==> FieldVariable(f, parent) == Err(UnsupportedFieldType(f.ftype.typeName))
  {
  }

  lemma {:induction false} SkippedNestedFields(f: FieldDesc, parent: Owner, n: nat)
    requires f.ftype.Custom? && n <= |f.ftype.fields|
    requires f.isFinal || f.readFails
    ensures NestedVariables(f, parent, n) == Ok(map[])
  {
    if n > 0 {
      SkippedNestedFields(f, parent, n - 1);
    }
  }

  /** The skip test is on the outer field: a final CUSTOM field gives an
      empty composite, whatever its type's fields are, unsupported ones
      included. */
  lemma FinalCustomFieldIsEmpty(f: FieldDesc, parent: Owner)
    requires f.ftype.Custom? && f.isFinal
    ensures FieldVariable(f, parent) == Ok(CustomVariable(map[]))
  {
    SkippedNestedFields(f, parent, |f.ftype.fields|);
  }

  /** A CUSTOM field whose value cannot be read keeps its place as an empty
      composite: every entry is dropped, nothing is fatal, and no nested
      field is built (so none of them is classified). */
  lemma UnreadableCustomFieldIsEmpty(f: FieldDesc, parent: Owner)
    requires f.ftype.Custom? && !f.isFinal && f.readFails
    ensures FieldVariable(f, parent) == Ok(CustomVariable(map[]))
  {
    SkippedNestedFields(f, parent, |f.ftype.fields|);
  }

  lemma {:induction false} NestedOutcomePrefix(f: FieldDesc, parent: Owner, n: nat)
    requires f.ftype.Custom? && n <= |f.ftype.fields|
    requires !f.isFinal && !f.readFails
    ensures NestedVariables(f, parent, n).Ok? <==>
              forall j :: 0 <= j < n ==> FieldVariable(f.ftype.fields[j], ValueOf(f, parent)).Ok?
    ensures NestedVariables(f, parent, n).Err? ==>
              exists j :: 0 <= j < n &&
                FieldVariable(f.ftype.fields[j], ValueOf(f, parent)) == Err(NestedVariables(f, parent, n).error) &&
                forall j' :: 0 <= j' < j ==> FieldVariable(f.ftype.fields[j'], ValueOf(f, parent)).Ok?
    decreases n
  {
    if n > 0 {
      NestedOutcomePrefix(f, parent, n - 1);
      if NestedVariables(f, parent, n - 1).Ok? &&
         FieldVariable(f.ftype.fields[n - 1], ValueOf(f, parent)).Err? {
        assert forall j' :: 0 <= j' < n - 1 ==> FieldVariable(f.ftype.fields[j'], ValueOf(f, parent)).Ok?;
      }
    }
  }

  /** One step of the nested fold when it succeeds. */
  lemma NestedStep(f: FieldDesc, parent: Owner, n: nat)
    requires f.ftype.Custom? && 0 < n <= |f.ftype.fields|
    requires !f.isFinal && !f.readFails
    requires NestedVariables(f, parent, n).Ok?
    ensures NestedVariables(f, parent, n - 1).Ok?
    ensures FieldVariable(f.ftype.fields[n - 1], ValueOf(f, parent)).Ok?
    ensures NestedVariables(f, parent, n).value ==
              PutVariable(NestedVariables(f, parent, n - 1).value, f.ftype.fields[n - 1].name,
                          FieldVariable(f.ftype.fields[n - 1], ValueOf(f, parent)).value)
  {
  }

  lemma {:induction false} NestedKeysPrefix(f: FieldDesc, parent: Owner, n: nat)
    requires f.ftype.Custom? && n <= |f.ftype.fields|
    requires !f.isFinal && !f.readFails
    requires NestedVariables(f, parent, n).Ok?
    ensures forall k :: k in NestedVariables(f, parent, n).value <==>
              exists j :: 0 <= j < n && f.ftype.fields[j].name == k
    decreases n
  {
    if n > 0 {
      NestedStep(f, parent, n);
      NestedKeysPrefix(f, parent, n - 1);
      var fs := f.ftype.fields;
      var m' := NestedVariables(f, parent, n).value;
      forall k ensures k in m' <==> exists j :: 0 <= j < n && fs[j].name == k {
        if k == fs[n - 1].name {
          assert fs[n - 1].name == k;
        }
      }
    }
  }

  lemma {:induction false} NestedLastWinsPrefix(f: FieldDesc, parent: Owner, n: nat)
    requires f.ftype.Custom? && n <= |f.ftype.fields|
    requires !f.isFinal && !f.readFails
    requires NestedVariables(f, parent, n).Ok?
    ensures forall j :: 0 <= j < n && LastNamed(f.ftype.fields, j, n) ==>
              f.ftype.fields[j].name in NestedVariables(f, parent, n).value &&
              FieldVariable(f.ftype.fields[j], ValueOf(f, parent)) ==
                Ok(NestedVariables(f, parent, n).value[f.ftype.fields[j].name])
    decreases n
  {
    if n > 0 {
      NestedStep(f, parent, n);
      NestedLastWinsPrefix(f, parent, n - 1);
      var fs := f.ftype.fields;
      var m' := NestedVariables(f, parent, n).value;
      forall j | 0 <= j < n && LastNamed(fs, j, n)
        ensures fs[j].name in m' && FieldVariable(fs[j], ValueOf(f, parent)) == Ok(m'[fs[j].name])
      {
        if j < n - 1 {
          assert LastNamed(fs, j, n - 1);
          assert fs[n - 1].name != fs[j].name;
        }
      }
    }
  }

  /** A readable, non-final CUSTOM field: the build succeeds iff every field
      of its type builds, each read from the field's value; the composite
      then has an entry for every field of the type (static or not, final
      or not) under that field's name, the last field of a name winning. A
      failure is that of the first field whose build fails. */
  lemma NestedFieldEntries(f: FieldDesc, parent: Owner)
    requires f.ftype.Custom? && !f.isFinal && !f.readFails
    ensures FieldVariable(f, parent).Ok? <==>
              forall j :: 0 <= j < |f.ftype.fields| ==> FieldVariable(f.ftype.fields[j], ValueOf(f, parent)).Ok?
    ensures FieldVariable(f, parent).Err? ==>
              exists j :: 0 <= j < |f.ftype.fields| &&
                FieldVariable(f.ftype.fields[j], ValueOf(f, parent)) == Err(FieldVariable(f, parent).error) &&
                forall j' :: 0 <= j' < j ==> FieldVariable(f.ftype.fields[j'], ValueOf(f, parent)).Ok?
    ensures FieldVariable(f, parent).Ok? ==>
              FieldVariable(f, parent).value.CustomVariable? &&
              var m := FieldVariable(f, parent).value.variables;
              (forall k :: k in m <==> exists j :: 0 <= j < |f.ftype.fields| && f.ftype.fields[j].name == k) &&
              (forall j :: 0 <= j < |f.ftype.fields| && LastNamed(f.ftype.fields, j, |f.ftype.fields|) ==>
                 f.ftype.fields[j].name in m &&
                 FieldVariable(f.ftype.fields[j], ValueOf(f, parent)) == Ok(m[f.ftype.fields[j].name]))
  {
    NestedOutcomePrefix(f, parent, |f.ftype.fields|);
    if FieldVariable(f, parent).Ok? {
      NestedKeysPrefix(f, parent, |f.ftype.fields|);
      NestedLastWinsPrefix(f, parent, |f.ftype.fields|);
    }
  }

  /** The skip test does not look at the nested field: a final or instance
      field of a readable, non-final CUSTOM field's type still gets an
      entry. */
  lemma NestedFieldModifiersIgnored(f: FieldDesc, parent: Owner, j: nat)
    requires f.ftype.Custom? && !f.isFinal && !f.readFails
    requires j < |f.ftype.fields|
    requires FieldVariable(f, parent).Ok?
    ensures FieldVariable(f, parent).value.CustomVariable?
    ensures f.ftype.fields[j].name in FieldVariable(f, parent).value.variables
  {
    NestedFieldEntries(f, parent);
  }

  /** The build of a field fails exactly when `Fatal` says so; in
      particular whether it fails does not depend on the owner, and an
      unsupported type below a final or unreadable CUSTOM field is never
      reported. */
  lemma {:induction false} FieldVariableFailsIff(f: FieldDesc, parent: Owner)
    ensures FieldVariable(f, parent).Err? <==> Fatal(f)
    decreases f
  {
    match f.ftype
    case Basic(_) =>
    case Unsupported(_) =>
    case Custom(nested) =>
      if f.isFinal {
        FinalCustomFieldIsEmpty(f, parent);
      } else if f.readFails {
        UnreadableCustomFieldIsEmpty(f, parent);
      } else {
        NestedFieldEntries(f, parent);
        forall j | 0 <= j < |nested|
          ensures FieldVariable(nested[j], ValueOf(f, parent)).Err? <==> Fatal(nested[j])
        {
          FieldVariableFailsIff(nested[j], ValueOf(f, parent));
        }
      }
  }

  /** The failure names an unsupported type that the build reaches. */
  lemma {:induction false} FailureNamesReachedType(f: FieldDesc, parent: Owner)
    ensures FieldVariable(f, parent).Err? ==>
              ReachesUnsupported(f, FieldVariable(f, parent).error.typeName)
    decreases f
  {
    match f.ftype
    case Basic(_) =>
    case Unsupported(_) =>
    case Custom(nested) =>
      if f.isFinal {
        FinalCustomFieldIsEmpty(f, parent);
      } else if f.readFails {
        UnreadableCustomFieldIsEmpty(f, parent);
      } else if FieldVariable(f, parent).Err? {
        NestedFieldEntries(f, parent);
        var j :| 0 <= j < |nested| &&
          FieldVariable(nested[j], ValueOf(f, parent)) == Err(FieldVariable(f, parent).error);
        FailureNamesReachedType(nested[j], ValueOf(f, parent));
      }
  }

  // ---------------------------------------------------------------------
  // createVariableFromClass
  // ---------------------------------------------------------------------

  lemma {:induction false} RootOutcomePrefix(fields: seq<FieldDesc>, n: nat)
    requires n <= |fields|
    ensures RootVariables(fields, n).Ok? <==>
              forall j :: 0 <= j < n && IsRootField(fields[j]) ==> FieldVariable(fields[j], Null).Ok?
    ensures RootVariables(fields, n).Err? ==>
              exists j :: 0 <= j < n && IsRootField(fields[j]) &&
                FieldVariable(fields[j], Null) == Err(RootVariables(fields, n).error) &&
                forall j' :: 0 <= j' < j && IsRootField(fields[j']) ==> FieldVariable(fields[j'], Null).Ok?
    decreases n
  {
    if n > 0 {
      RootOutcomePrefix(fields, n - 1);
      if RootVariables(fields, n - 1).Ok? && IsRootField(fields[n - 1]) &&
         FieldVariable(fields[n - 1], Null).Err? {
        assert forall j' :: 0 <= j' < n - 1 && IsRootField(fields[j']) ==> FieldVariable(fields[j'], Null).Ok?;
      }
    }
  }

  lemma {:induction false} RootKeysPrefix(fields: seq<FieldDesc>, n: nat)
    requires n <= |fields|
    requires RootVariables(fields, n).Ok?
    ensures forall k :: k in RootVariables(fields, n).value <==>
              exists j :: 0 <= j < n && IsRootField(fields[j]) && fields[j].name == k
    decreases n
  {
    if n > 0 {
      RootKeysPrefix(fields, n - 1);
      forall k ensures k in RootVariables(fields, n).value <==>
                 exists j :: 0 <= j < n && IsRootField(fields[j]) && fields[j].name == k
      {
        if IsRootField(fields[n - 1]) && k == fields[n - 1].name {
          assert IsRootField(fields[n - 1]) && fields[n - 1].name == k;
        }
      }
    }
  }

  lemma {:induction false} RootLastWinsPrefix(fields: seq<FieldDesc>, n: nat)
    requires n <= |fields|
    requires RootVariables(fields, n).Ok?
    ensures forall j :: 0 <= j < n && IsRootField(fields[j]) && LastRootNamed(fields, j, n) ==>
              fields[j].name in RootVariables(fields, n).value &&
              FieldVariable(fields[j], Null) == Ok(RootVariables(fields, n).value[fields[j].name])
    decreases n
  {
    if n > 0 {
      RootLastWinsPrefix(fields, n - 1);
      var m := RootVariables(fields, n - 1).value;
      var m' := RootVariables(fields, n).value;
      forall j | 0 <= j < n && IsRootField(fields[j]) && LastRootNamed(fields, j, n)
        ensures fields[j].name in m' && FieldVariable(fields[j], Null) == Ok(m'[fields[j].name])
      {
        if j < n - 1 {
          assert LastRootNamed(fields, j, n - 1);
          if IsRootField(fields[n - 1]) {
            assert fields[n - 1].name != fields[j].name;
            assert m' == PutVariable(m, fields[n - 1].name, FieldVariable(fields[n - 1], Null).value);
          } else {
            assert m' == m;
          }
        }
      }
    }
  }

  /** createVariableFromClass keys exactly the static, non-final fields of
      the class by name, each built with a null owner (the last field of a
      name winning); instance and final fields never appear. It fails iff
      one of those fields fails, with the first such failure. */
  lemma ClassVariablesEntries(c: ClassDesc)
    ensures ClassVariables(c).Ok? <==>
              forall j :: 0 <= j < |c.fields| && IsRootField(c.fields[j]) ==> FieldVariable(c.fields[j], Null).Ok?
    ensures ClassVariables(c).Err? ==>
              exists j :: 0 <= j < |c.fields| && IsRootField(c.fields[j]) &&
                FieldVariable(c.fields[j], Null) == Err(ClassVariables(c).error) &&
                forall j' :: 0 <= j' < j && IsRootField(c.fields[j']) ==> FieldVariable(c.fields[j'], Null).Ok?
    ensures ClassVariables(c).Ok? ==>
              var m := ClassVariables(c).value;
              (forall k :: k in m <==>
                 exists j :: 0 <= j < |c.fields| && c.fields[j].isStatic && !c.fields[j].isFinal && c.fields[j].name == k) &&
              (forall j :: 0 <= j < |c.fields| && IsRootField(c.fields[j]) && LastRootNamed(c.fields, j, |c.fields|) ==>
                 c.fields[j].name in m && FieldVariable(c.fields[j], Null) == Ok(m[c.fields[j].name]))
  {
    RootOutcomePrefix(c.fields, |c.fields|);
    if ClassVariables(c).Ok? {
      RootKeysPrefix(c.fields, |c.fields|);
      RootLastWinsPrefix(c.fields, |c.fields|);
    }
  }

  /** The subtree of a class fails exactly when one of its static,
      non-final fields is `Fatal`. */
  lemma ClassVariablesFailIff(c: ClassDesc)
    ensures ClassVariables(c).Err? <==>
              exists j :: 0 <= j < |c.fields| && IsRootField(c.fields[j]) && Fatal(c.fields[j])
  {
    ClassVariablesEntries(c);
    forall j | 0 <= j < |c.fields|
      ensures FieldVariable(c.fields[j], Null).Err? <==> Fatal(c.fields[j])
    {
      FieldVariableFailsIff(c.fields[j], Null);
    }
  }

  // ---------------------------------------------------------------------
  // scanForClasses
  // ---------------------------------------------------------------------

  lemma {:induction false} ScanOutcomePrefix(classes: seq<ClassDesc>, prefixes: set<string>, n: nat)
    requires n <= |classes|
    ensures ScanPrefix(classes, prefixes, n).Ok? <==>
              forall j :: 0 <= j < n && Accepted(classes[j], prefixes) ==> ClassVariables(classes[j]).Ok?
    ensures ScanPrefix(classes, prefixes, n).Err? ==>
              exists j :: 0 <= j < n && Accepted(classes[j], prefixes) &&
                ClassVariables(classes[j]) == Err(ScanPrefix(classes, prefixes, n).error) &&
                forall j' :: 0 <= j' < j && Accepted(classes[j'], prefixes) ==> ClassVariables(classes[j']).Ok?
    decreases n
  {
    if n > 0 {
      ScanOutcomePrefix(classes, prefixes, n - 1);
      if ScanPrefix(classes, prefixes, n - 1).Ok? && Accepted(classes[n - 1], prefixes) &&
         ClassVariables(classes[n - 1]).Err? {
        assert forall j' :: 0 <= j' < n - 1 && Accepted(classes[j'], prefixes) ==> ClassVariables(classes[j']).Ok?;
      }
    }
  }

  lemma {:induction false} ScanKeysPrefix(classes: seq<ClassDesc>, prefixes: set<string>, n: nat)
    requires n <= |classes|
    requires ScanPrefix(classes, prefixes, n).Ok?
    ensures forall k :: k in ScanPrefix(classes, prefixes, n).value <==>
              exists j :: 0 <= j < n && Accepted(classes[j], prefixes) && ExposedName(classes[j]) == k
    decreases n
  {
    if n > 0 {
      ScanKeysPrefix(classes, prefixes, n - 1);
      var c := classes[n - 1];
      forall k ensures k in ScanPrefix(classes, prefixes, n).value <==>
                 exists j :: 0 <= j < n && Accepted(classes[j], prefixes) && ExposedName(classes[j]) == k
      {
        if Accepted(c, prefixes) && k == ExposedName(c) {
          assert Accepted(classes[n - 1], prefixes) && ExposedName(classes[n - 1]) == k;
        }
      }
    }
  }

  lemma {:induction false} ScanLastWinsPrefix(classes: seq<ClassDesc>, prefixes: set<string>, n: nat)
    requires n <= |classes|
    requires ScanPrefix(classes, prefixes, n).Ok?
    ensures forall j :: 0 <= j < n && Accepted(classes[j], prefixes) && LastExposed(classes, prefixes, j, n) ==>
              ExposedName(classes[j]) in ScanPrefix(classes, prefixes, n).value &&
              ClassVariables(classes[j]).Ok? &&
              ScanPrefix(classes, prefixes, n).value[ExposedName(classes[j])] ==
                CustomVariable(ClassVariables(classes[j]).value)
    decreases n
  {
    if n > 0 {
      ScanLastWinsPrefix(classes, prefixes, n - 1);
      var c := classes[n - 1];
      var root := ScanPrefix(classes, prefixes, n - 1).value;
      var root' := ScanPrefix(classes, prefixes, n).value;
      forall j | 0 <= j < n && Accepted(classes[j], prefixes) && LastExposed(classes, prefixes, j, n)
        ensures ExposedName(classes[j]) in root' && ClassVariables(classes[j]).Ok? &&
                root'[ExposedName(classes[j])] == CustomVariable(ClassVariables(classes[j]).value)
      {
        if j < n - 1 {
          assert LastExposed(classes, prefixes, j, n - 1);
          if Accepted(c, prefixes) {
            assert ExposedName(c) != ExposedName(classes[j]);
            assert root' == PutVariable(root, ExposedName(c), CustomVariable(ClassVariables(c).value));
          } else {
            assert root' == root;
          }
        }
      }
    }
  }

  /** The configuration root has exactly one key per accepted class (one
      that no ignore prefix starts and that is a configuration root): its
      `@Config` value when that is non-empty, its simple name otherwise.
      The key holds the subtree of the last accepted class of that name in
      scan order. The scan fails iff an accepted class's subtree fails, with
      the failure of the first such class. */
  lemma ScanEntries(classes: seq<ClassDesc>, prefixes: set<string>)
    ensures Scan(classes, prefixes).Ok? <==>
              forall j :: 0 <= j < |classes| && Accepted(classes[j], prefixes) ==> ClassVariables(classes[j]).Ok?
    ensures Scan(classes, prefixes).Err? ==>
              exists j :: 0 <= j < |classes| && Accepted(classes[j], prefixes) &&
                ClassVariables(classes[j]) == Err(Scan(classes, prefixes).error) &&
                forall j' :: 0 <= j' < j && Accepted(classes[j'], prefixes) ==> ClassVariables(classes[j']).Ok?
    ensures Scan(classes, prefixes).Ok? ==>
              var root := Scan(classes, prefixes).value;
              (forall k :: k in root <==>
                 exists j :: 0 <= j < |classes| && Accepted(classes[j], prefixes) &&
                   k == (if classes[j].config.value.value != "" then classes[j].config.value.value
                         else classes[j].simpleName)) &&
              (forall j :: (0 <= j < |classes| && Accepted(classes[j], prefixes) &&
                            LastExposed(classes, prefixes, j, |classes|)) ==>
                 ExposedName(classes[j]) in root && ClassVariables(classes[j]).Ok? &&
                 root[ExposedName(classes[j])] == CustomVariable(ClassVariables(classes[j]).value))
  {
    ScanOutcomePrefix(classes, prefixes, |classes|);
    if Scan(classes, prefixes).Ok? {
      ScanKeysPrefix(classes, prefixes, |classes|);
      ScanLastWinsPrefix(classes, prefixes, |classes|);
    }
  }

  /** The scan fails exactly when some accepted class has a static,
      non-final field that is `Fatal`: the unsupported-type failure is not
      tolerated anywhere. */
  lemma ScanFailsIff(classes: seq<ClassDesc>, prefixes: set<string>)
    ensures Scan(classes, prefixes).Err? <==>
              exists i, j :: 0 <= i < |classes| && Accepted(classes[i], prefixes) &&
                0 <= j < |classes[i].fields| && IsRootField(classes[i].fields[j]) && Fatal(classes[i].fields[j])
  {
    ScanEntries(classes, prefixes);
    forall i | 0 <= i < |classes|
      ensures ClassVariables(classes[i]).Err? <==>
                exists j :: 0 <= j < |classes[i].fields| && IsRootField(classes[i].fields[j]) && Fatal(classes[i].fields[j])
    {
      ClassVariablesFailIff(classes[i]);
    }
  }

  lemma {:induction false} ScanIgnoresUnaccepted(a: seq<ClassDesc>, b: seq<ClassDesc>, prefixes: set<string>, n: nat)
    requires |a| == |b| && n <= |a|
    requires forall i :: 0 <= i < |a| ==> a[i] == b[i] || (!Accepted(a[i], prefixes) && !Accepted(b[i], prefixes))
    ensures ScanPrefix(a, prefixes, n) == ScanPrefix(b, prefixes, n)
  {
    if n > 0 {
      ScanIgnoresUnaccepted(a, b, prefixes, n - 1);
    }
  }

  /** An ignore prefix covers a whole package: once a name is rejected,
      every name that extends it is rejected too. */
  lemma IgnoredPackageCovered(className: string, suffix: string, prefixes: set<string>)
    requires !ShouldProcess(className, prefixes)
    ensures !ShouldProcess(className + suffix, prefixes)
  {
    var p :| p in prefixes && p <= className;
    assert (className + suffix)[..|p|] == className[..|p|];
  }

  /** A class whose name an ignore prefix starts is never looked at: any
      other class of the same name in its place gives the same result. */
  lemma IgnoredClassNeverInspected(classes: seq<ClassDesc>, prefixes: set<string>, i: nat, other: ClassDesc)
    requires i < |classes|
    requires exists p :: p in prefixes && StartsWith(classes[i].name, p)
    requires other.name == classes[i].name
    ensures Scan(classes[i := other], prefixes) == Scan(classes, prefixes)
  {
    ScanIgnoresUnaccepted(classes[i := other], classes, prefixes, |classes|);
  }

  /** A class that is not a configuration root adds nothing: its fields are
      never built, and any other non-root class in its place gives the same
      result. */
  lemma NonRootClassAddsNothing(classes: seq<ClassDesc>, prefixes: set<string>, i: nat, other: ClassDesc)
    requires i < |classes|
    requires !IsConfigRoot(classes[i]) && !IsConfigRoot(other)
    ensures Scan(classes[i := other], prefixes) == Scan(classes, prefixes)
  {
    ScanIgnoresUnaccepted(classes[i := other], classes, prefixes, |classes|);
  }
}
