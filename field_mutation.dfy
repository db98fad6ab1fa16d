/**
 * `setFieldValue`: assign a value to the first field, in walk order, whose name
 * equals the requested one ignoring case, overriding the access check for the
 * single assignment and restoring the field's accessible flag afterwards.
 */
module FieldMutation {
  import opened Types
  import opened CaseFolding
  import opened FieldSearch

  /** An instance stores one value per declared field, keyed by declaring class and name. */
  datatype FieldKey = FieldKey(declaringClass: Name, name: string)

  function KeyOf(f: Field): FieldKey {
    FieldKey(f.declaringClass, f.name)
  }

  /**
   * What the host allows: the fields whose access check the security policy
   * refuses to override, and the fields whose assignment throws (a final field,
   * a value of the wrong type).
   */
  datatype Host = Host(overrideDenied: set<Field>, assignmentRejected: set<Field>)

  /** The accessible flags of the field objects: the fields whose flag is set. */
  class AccessFlags {
    var accessible: set<Field>

    constructor (initial: set<Field>)
      ensures accessible == initial
    {
      accessible := initial;
    }

    /** `Field.setAccessible`: the security policy refuses it for some fields, whichever flag is asked for. */
    method SetAccessible(f: Field, flag: bool, host: Host) returns (ok: bool)
      modifies this
      ensures ok == (f !in host.overrideDenied)
      ensures accessible == if !ok then old(accessible)
                            else if flag then old(accessible) + {f}
                            else old(accessible) - {f}
    {
      ok := f !in host.overrideDenied;
      if ok {
        accessible := if flag then accessible + {f} else accessible - {f};
      }
    }
  }

  /** The object whose fields are assigned. */
  class Instance<V> {
    const runtimeClass: Class
    var values: map<FieldKey, V>

    constructor (runtimeClass: Class, values: map<FieldKey, V>)
      ensures this.runtimeClass == runtimeClass && this.values == values
    {
      this.runtimeClass := runtimeClass;
      this.values := values;
    }

    /** `Field.set`: succeeds only on an accessible field that the host does not reject. */
    method Set(f: Field, v: V, flags: AccessFlags, host: Host) returns (ok: bool)
      modifies this
      ensures ok == (f in flags.accessible && f !in host.assignmentRejected)
      ensures values == if ok then old(values)[KeyOf(f) := v] else old(values)
    {
      ok := f in flags.accessible && f !in host.assignmentRejected;
      if ok {
        values := values[KeyOf(f) := v];
      }
    }
  }

  /**
   * The guarded assignment of `setFieldValue`: save the accessible flag, open the
   * field, assign, and restore the saved flag on every path (the `finally`).
   * Any failure becomes the wrapping error naming the requested field and the
   * instance's class.
   */
  method AssignOverridingAccess<V>(instance: Instance<V>, field: Field, fieldValue: V, fieldName: string,
                                   flags: AccessFlags, host: Host) returns (r: Result<()>)
    modifies instance, flags
    ensures flags.accessible == old(flags.accessible)
    ensures if field in host.overrideDenied then
              r == Err(FieldSetFailed(fieldName, instance.runtimeClass.name, AccessDenied)) &&
              instance.values == old(instance.values)
            else if field in host.assignmentRejected then
              r == Err(FieldSetFailed(fieldName, instance.runtimeClass.name, AssignmentRejected)) &&
              instance.values == old(instance.values)
            else
              r == Ok(()) && instance.values == old(instance.values)[KeyOf(field) := fieldValue]
  {
    var isAccessible := field in flags.accessible;
    var granted := flags.SetAccessible(field, true, host);
    var stored := false;
    if granted {
      stored := instance.Set(field, fieldValue, flags, host);
    }
    var restored := flags.SetAccessible(field, isAccessible, host);
    if !granted || !restored {
      return Err(FieldSetFailed(fieldName, instance.runtimeClass.name, AccessDenied));
    }
    if !stored {
      return Err(FieldSetFailed(fieldName, instance.runtimeClass.name, AssignmentRejected));
    }
    return Ok(());
  }

  /**
   * `setFieldValue`: walk the chain of the instance's class, each class's fields
   * in declaration order, and assign the first field whose name equals
   * `fieldName` ignoring case. A name nothing matches leaves the instance
   * unchanged and is no error; every accessible flag ends as it started.
   */
  method SetFieldValue<V>(instance: Instance<V>, fieldName: string, fieldValue: V, flags: AccessFlags, host: Host)
    returns (r: Result<()>)
    modifies instance, flags
    ensures flags.accessible == old(flags.accessible)
    ensures match Search(ChainOf(Some(instance.runtimeClass)), IgnoringCase(fieldName))
      case NotFound =>
        r == Ok(()) && instance.values == old(instance.values)
      case Unreadable(_, missing) =>
        r == Err(ClassDefNotFound(missing)) && instance.values == old(instance.values)
      case Found(f) =>
        if f in host.overrideDenied then
          r == Err(FieldSetFailed(fieldName, instance.runtimeClass.name, AccessDenied)) &&
          instance.values == old(instance.values)
        else if f in host.assignmentRejected then
          r == Err(FieldSetFailed(fieldName, instance.runtimeClass.name, AssignmentRejected)) &&
          instance.values == old(instance.values)
        else
          r == Ok(()) && instance.values == old(instance.values)[KeyOf(f) := fieldValue]
  {
    ghost var m := IgnoringCase(fieldName);
    ghost var chain := ChainOf(Some(instance.runtimeClass));
    var target := Some(instance.runtimeClass);
    while target.Some?
      invariant Search(chain, m) == Search(ChainOf(target), m)
      invariant instance.values == old(instance.values) && flags.accessible == old(flags.accessible)
      decreases target
    {
      var c := target.value;
      assert ChainOf(target) == [c] + ChainOf(c.superclass);
      if c.declaredFields.Unresolvable? {
        return Err(ClassDefNotFound(c.declaredFields.missingClass));
      }
      var fs := c.declaredFields.fields;
      for j := 0 to |fs|
        invariant forall i :: 0 <= i < j ==> !Matches(m, fs[i].name)
        invariant instance.values == old(instance.values) && flags.accessible == old(flags.accessible)
      {
        var field := fs[j];
        if EqualsIgnoreCase(field.name, fieldName) {
          assert IndexOf(fs, m) == j;
          r := AssignOverridingAccess(instance, field, fieldValue, fieldName, flags, host);
          return;
        }
      }
      target := c.superclass;
    }
    return Ok(());
  }

  /** Java's `String.equalsIgnoreCase` accepts a request whose case differs from the declaration. */
  lemma MixedCaseRequestMatches()
    ensures Matches(IgnoringCase("MYFIELD"), "myField")
    ensures !Matches(Exact("MYFIELD"), "myField")
  {
    var s, t := "myField", "MYFIELD";
    forall i | 0 <= i < |s| ensures CharEqualsIgnoreCase(s[i], t[i]) {
      assert ToUpperAscii(s[i]) == t[i];
    }
    assert s[0] != t[0];
  }

  /**
   * The lookups differ on case: for a class declaring only `myField`, the exact
   * search of `getField` finds nothing for `MYFIELD` while the case-insensitive
   * search of `setFieldValue` finds `myField`.
   */
  lemma LookupsDifferOnCase(c: Class, f: Field)
    requires f.name == "myField" && c.declaredFields == Resolved([f]) && c.superclass.None?
    ensures Search(ChainOf(Some(c)), Exact("MYFIELD")) == NotFound
    ensures Search(ChainOf(Some(c)), IgnoringCase("MYFIELD")) == Found(f)
  {
    MixedCaseRequestMatches();
    assert ChainOf(Some(c)) == [c];
    assert IndexOf([f], IgnoringCase("MYFIELD")) == 0;
    assert IndexOf([f], Exact("MYFIELD")) == 1;
  }
}
