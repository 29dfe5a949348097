/** Concrete scans: each lemma states the whole tree (or the failure) that
    scanForClasses produces for a small classpath. */
module ReflectionConfigExamples {
  import opened Descriptors
  import opened Variables
  import opened ReflectionConfig

  // class Drive { public static double maxPower; public static Pid pid; }
  // class Pid { public double kP; public double kI; }
  const KP := FieldDesc("kP", false, false, Basic(DoubleKind), false)
  const KI := FieldDesc("kI", false, false, Basic(DoubleKind), false)
  const MaxPower := FieldDesc("maxPower", true, false, Basic(DoubleKind), false)
  const PidField := FieldDesc("pid", true, false, Custom([KP, KI]), false)
  const Drive := ClassDesc("org.team.Drive", "Drive", Some(ConfigAnnotation("", false)), false, [MaxPower, PidField])

  const PidTree := CustomVariable(map[
    "kP" := BasicVariable(DoubleKind, KP, ValueOf(PidField, Null)),
    "kI" := BasicVariable(DoubleKind, KI, ValueOf(PidField, Null))])

  lemma PidFieldTree()
    ensures FieldVariable(PidField, Null) == Ok(PidTree)
  {
    assert NestedVariables(PidField, Null, 1) == Ok(map["kP" := BasicVariable(DoubleKind, KP, ValueOf(PidField, Null))]);
    assert NestedVariables(PidField, Null, 2) == Ok(PidTree.variables);
  }

  lemma DriveTree()
    ensures ClassVariables(Drive) == Ok(map[
      "maxPower" := BasicVariable(DoubleKind, MaxPower, Null),
      "pid" := PidTree])
  {
    PidFieldTree();
    assert RootVariables(Drive.fields, 1) == Ok(map["maxPower" := BasicVariable(DoubleKind, MaxPower, Null)]);
  }

  /** One `@Config` class with a scalar and a nested field, no ignore
      prefixes: the root has the class under its simple name, the static
      scalar bound with a null owner, and the nested instance fields bound
      to the value of `pid`. */
  lemma DriveExample()
    ensures Scan([Drive], {}) == Ok(map["Drive" := CustomVariable(map[
      "maxPower" := BasicVariable(DoubleKind, MaxPower, Null),
      "pid" := PidTree])])
  {
    DriveTree();
    assert Accepted([Drive][0], {});
    assert ScanPrefix([Drive], {}, 0) == Ok(map[]);
  }

  /** An ignore prefix that starts the class's name removes it. */
  lemma IgnoredPrefixExample()
    ensures Scan([Drive], {"org.team."}) == Ok(map[])
  {
    assert "org.team." <= Drive.name;
    assert !Accepted([Drive][0], {"org.team."});
    assert ScanPrefix([Drive], {"org.team."}, 0) == Ok(map[]);
  }

  /** `@Disabled` hides the class unless `ignoreDisabled` is set; an
      explicit `@Config` value renames it. */
  lemma DisabledExample()
    ensures Scan([Drive.(hasDisabled := true)], {}) == Ok(map[])
    ensures Scan([Drive.(hasDisabled := true, config := Some(ConfigAnnotation("Tuning", true)))], {}) ==
            Ok(map["Tuning" := CustomVariable(map[
              "maxPower" := BasicVariable(DoubleKind, MaxPower, Null),
              "pid" := PidTree])])
  {
    var disabled := Drive.(hasDisabled := true);
    assert !Accepted([disabled][0], {});
    assert ScanPrefix([disabled], {}, 0) == Ok(map[]);
    var renamed := Drive.(hasDisabled := true, config := Some(ConfigAnnotation("Tuning", true)));
    assert renamed.fields == Drive.fields;
    DriveTree();
    assert Accepted([renamed][0], {});
    assert ExposedName(renamed) == "Tuning";
    assert ScanPrefix([renamed], {}, 0) == Ok(map[]);
  }

  // class Arm { public static Pid pid; public static Pid hidden; }, where
  // reading `hidden` throws IllegalAccessException.
  const HiddenField := FieldDesc("hidden", true, false, Custom([KP, KI]), true)
  const Arm := ClassDesc("org.team.Arm", "Arm", Some(ConfigAnnotation("", false)), false, [PidField, HiddenField])

  /** A failed read keeps the field as an empty composite; the sibling is
      built in full and the scan succeeds. */
  lemma ReadFailureExample()
    ensures Scan([Arm], {}) == Ok(map["Arm" := CustomVariable(map[
      "pid" := PidTree,
      "hidden" := CustomVariable(map[])])])
  {
    PidFieldTree();
    assert NestedVariables(HiddenField, Null, 1) == Ok(map[]);
    assert NestedVariables(HiddenField, Null, 2) == Ok(map[]);
    assert RootVariables(Arm.fields, 1) == Ok(map["pid" := PidTree]);
    assert ClassVariables(Arm) == Ok(map["pid" := PidTree, "hidden" := CustomVariable(map[])]);
    assert Accepted([Arm][0], {});
    assert ScanPrefix([Arm], {}, 0) == Ok(map[]);
  }

  // class Lift { public static Object target; }, Object classified as
  // neither scalar nor CUSTOM.
  const Target := FieldDesc("target", true, false, Unsupported("java.lang.Object"), false)
  const Lift := ClassDesc("org.team.Lift", "Lift", Some(ConfigAnnotation("", false)), false, [Target])

  lemma LiftFails()
    ensures ClassVariables(Lift) == Err(UnsupportedFieldType("java.lang.Object"))
  {
    assert RootVariables(Lift.fields, 0) == Ok(map[]);
  }

  /** An unsupported field type anywhere in an accepted class aborts the
      whole scan, naming the type; the classes before it are lost too. */
  lemma UnsupportedExample()
    ensures Scan([Drive, Lift], {}) == Err(UnsupportedFieldType("java.lang.Object"))
  {
    var classes := [Drive, Lift];
    assert ScanPrefix(classes, {}, 1).Ok? by {
      DriveTree();
      assert Accepted(classes[0], {});
      assert ScanPrefix(classes, {}, 0) == Ok(map[]);
    }
    LiftFails();
    assert Accepted(classes[1], {});
    assert Scan(classes, {}) == Err(UnsupportedFieldType("java.lang.Object"));
  }

  /** The message of that failure. */
  lemma UnsupportedMessageExample()
    ensures Message(UnsupportedFieldType("java.lang.Object")) == "Unsupported field type: java.lang.Object"
  {
  }

  /** Two roots exposed under the same name: the one scanned last wins. */
  lemma CollisionExample()
    ensures Scan([Drive, Arm.(simpleName := "Drive")], {}) ==
            Ok(map["Drive" := CustomVariable(map[
              "pid" := PidTree,
              "hidden" := CustomVariable(map[])])])
  {
    DriveTree();
    var arm := Arm.(simpleName := "Drive");
    PidFieldTree();
    assert NestedVariables(HiddenField, Null, 1) == Ok(map[]);
    assert NestedVariables(HiddenField, Null, 2) == Ok(map[]);
    assert RootVariables(arm.fields, 1) == Ok(map["pid" := PidTree]);
    assert ClassVariables(arm) == Ok(map["pid" := PidTree, "hidden" := CustomVariable(map[])]);
    var classes := [Drive, arm];
    assert Accepted(classes[0], {}) && Accepted(classes[1], {});
    assert ScanPrefix(classes, {}, 0) == Ok(map[]);
    assert ScanPrefix(classes, {}, 1).Ok?;
    assert ExposedName(classes[1]) == "Drive";
    var before := ScanPrefix(classes, {}, 1).value;
    assert ScanPrefix(classes, {}, 2) ==
           Ok(PutVariable(before, "Drive", CustomVariable(map["pid" := PidTree, "hidden" := CustomVariable(map[])])));
    assert before == map["Drive" := CustomVariable(map[
      "maxPower" := BasicVariable(DoubleKind, MaxPower, Null),
      "pid" := PidTree])];
    var after := PutVariable(before, "Drive", CustomVariable(map["pid" := PidTree, "hidden" := CustomVariable(map[])]));
    var armTree := CustomVariable(map["pid" := PidTree, "hidden" := CustomVariable(map[])]);
    assert after.Keys == {"Drive"} && after["Drive"] == armTree;
    assert after == map["Drive" := armTree];
    assert ScanPrefix(classes, {}, 2) ==
           Ok(map["Drive" := CustomVariable(map["pid" := PidTree, "hidden" := CustomVariable(map[])])]);
  }
}
