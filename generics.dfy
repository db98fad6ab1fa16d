/**
 * Extracting classes and type arguments from generic type references: the main
 * class of a type, the last type argument of a field's type, and the last type
 * argument of the generic interface a class directly implements.
 */
module Generics {
  import opened Types

  /**
   * The subtype relation of the host, taken as given: `(to, from)` is in it when
   * `to.isAssignableFrom(from)` holds. It is not assumed to be reflexive.
   */
  type Assignability = set<(Name, Name)>

  predicate IsAssignableFrom(assignable: Assignability, to: Name, from: Name) {
    (to, from) in assignable
  }

  function Last<T>(s: seq<T>): T
    requires |s| > 0
  {
    s[|s| - 1]
  }

  /**
   * `getTypeClass`: the class of a plain class reference, the raw class of a
   * parameterized type, and nothing for any other kind of type or for no type.
   */
  function GetTypeClass(t: Option<Type>): (r: Option<Name>)
    ensures r.None? <==> t.None? || t.value.OtherType?
    ensures t.Some? && t.value.ClassType? ==> r == Some(t.value.name)
    ensures t.Some? && t.value.ParameterizedType? ==> r == Some(t.value.raw)
  {
    match t
    case Some(ClassType(c)) => Some(c)
    case Some(ParameterizedType(raw, _)) => Some(raw)
    case _ => None
  }

  /**
   * `getLastTypeGenericArgument`: the final actual type argument of a
   * parameterized type; nothing for no type, a type that is not parameterized
   * or one without arguments.
   */
  function GetLastTypeGenericArgument(t: Option<Type>): (r: Option<Type>)
    ensures r.Some? <==> t.Some? && t.value.ParameterizedType? && |t.value.arguments| > 0
    ensures r.Some? ==> r.value == Last(t.value.arguments)
  {
    match t
    case Some(ParameterizedType(_, arguments)) =>
      if |arguments| > 0 then Some(arguments[|arguments| - 1]) else None
    case _ => None
  }

  /** `getLastFieldGenericArgument`: the final type argument of the field's declared type. */
  function GetLastFieldGenericArgument(field: Field): (r: Option<Type>)
    ensures r.Some? <==> field.genericType.ParameterizedType? && |field.genericType.arguments| > 0
    ensures r.Some? ==> r.value == Last(field.genericType.arguments)
  {
    GetLastTypeGenericArgument(Some(field.genericType))
  }

  /**
   * `getLastGenericFieldType`: the main class of the final type argument of the
   * field's declared type; nothing when that argument is missing.
   */
  function GetLastGenericFieldType(field: Field): (r: Option<Name>)
    ensures r.Some? <==> (field.genericType.ParameterizedType? && |field.genericType.arguments| > 0 &&
                          !Last(field.genericType.arguments).OtherType?)
    ensures r.Some? ==> var a := Last(field.genericType.arguments);
      (a.ClassType? && a.name == r.value) || (a.ParameterizedType? && a.raw == r.value)
  {
    GetTypeClass(GetLastFieldGenericArgument(field))
  }

  /** A field declared `Map<K, V>` yields `V`, in both forms. */
  lemma LastArgumentOfTwoArgumentType(field: Field, raw: Name, k: Type, v: Name)
    requires field.genericType == ParameterizedType(raw, [k, ClassType(v)])
    ensures GetLastFieldGenericArgument(field) == Some(ClassType(v))
    ensures GetLastGenericFieldType(field) == Some(v)
  {
  }

  /**
   * A generic interface the filter class selects: the filter class itself, or a
   * parameterized type whose raw class is assignable to the filter class.
   */
  predicate Selects(t: Type, filter: Name, assignable: Assignability) {
    t == ClassType(filter) || (t.ParameterizedType? && IsAssignableFrom(assignable, filter, t.raw))
  }

  /** `i` is the position of the first interface of `ts` that the filter selects. */
  predicate FirstSelectedAt(ts: seq<Type>, filter: Name, assignable: Assignability, i: int) {
    && 0 <= i < |ts|
    && Selects(ts[i], filter, assignable)
    && forall j :: 0 <= j < i ==> !Selects(ts[j], filter, assignable)
  }

  /** The loop of `getGenericClassType`: the first interface of `ts` that the filter selects. */
  function FirstSelected(ts: seq<Type>, filter: Name, assignable: Assignability): (r: Option<Type>)
    ensures r.None? <==> forall i :: 0 <= i < |ts| ==> !Selects(ts[i], filter, assignable)
    ensures r.Some? ==> exists i :: FirstSelectedAt(ts, filter, assignable, i) && ts[i] == r.value
  {
    if ts == [] then None
    else if Selects(ts[0], filter, assignable) then
      assert FirstSelectedAt(ts, filter, assignable, 0);
      Some(ts[0])
    else
      var r := FirstSelected(ts[1..], filter, assignable);
      assert forall i :: 1 <= i < |ts| ==> ts[i] == ts[1..][i - 1];
      assert r.Some? ==> exists i :: FirstSelectedAt(ts, filter, assignable, i) && ts[i] == r.value by {
        if r.Some? {
          var i :| FirstSelectedAt(ts[1..], filter, assignable, i) && ts[1..][i] == r.value;
          assert FirstSelectedAt(ts, filter, assignable, i + 1);
        }
      }
      r
  }

  /**
   * `getGenericClassType`: among the generic interfaces the class itself
   * declares (not those of its superclasses), the first one the filter selects.
   */
  function GetGenericClassType(clazz: Class, filter: Name, assignable: Assignability): (r: Option<Type>)
    ensures r.None? <==> forall i :: 0 <= i < |clazz.genericInterfaces| ==> !Selects(clazz.genericInterfaces[i], filter, assignable)
    ensures r.Some? ==> exists i :: FirstSelectedAt(clazz.genericInterfaces, filter, assignable, i) && clazz.genericInterfaces[i] == r.value
  {
    FirstSelected(clazz.genericInterfaces, filter, assignable)
  }

  /** The last argument of an interface when it is parameterized and that argument is a plain class. */
  predicate HasLastClassArgument(t: Type, c: Name) {
    t.ParameterizedType? && |t.arguments| > 0 && Last(t.arguments) == ClassType(c)
  }

  /**
   * `getLastGenericClassType`: the last type argument of the interface
   * `getGenericClassType` selects, when that interface is parameterized, its raw
   * class is assignable to the filter, and the argument is a plain class.
   */
  function GetLastGenericClassType(clazz: Class, filter: Name, assignable: Assignability): (r: Option<Name>)
    ensures r.Some? ==> exists i :: (FirstSelectedAt(clazz.genericInterfaces, filter, assignable, i) &&
                                     HasLastClassArgument(clazz.genericInterfaces[i], r.value))
    ensures forall i, c :: (FirstSelectedAt(clazz.genericInterfaces, filter, assignable, i) &&
                            HasLastClassArgument(clazz.genericInterfaces[i], c)) ==> r == Some(c)
  {
    match GetGenericClassType(clazz, filter, assignable)
    case Some(ParameterizedType(raw, arguments)) =>
      if IsAssignableFrom(assignable, filter, raw) && |arguments| > 0 && arguments[|arguments| - 1].ClassType? then
        Some(arguments[|arguments| - 1].name)
      else
        None
    case _ => None
  }

  /** Only the class's own interfaces are scanned: the superclass plays no part. */
  lemma GenericClassTypeIgnoresSuperclass(clazz: Class, filter: Name, assignable: Assignability, super: Option<Class>)
    ensures GetGenericClassType(clazz.(superclass := super), filter, assignable) == GetGenericClassType(clazz, filter, assignable)
    ensures GetLastGenericClassType(clazz.(superclass := super), filter, assignable) == GetLastGenericClassType(clazz, filter, assignable)
  {
  }

  /**
   * A class implementing `Comparator<Foo>` directly yields `Foo` for the filter
   * `Comparator`; a subclass that declares no interface of its own yields nothing.
   */
  lemma ComparatorArgument(fooComparator: Class, subclass: Class)
    requires fooComparator.genericInterfaces == [ParameterizedType("Comparator", [ClassType("Foo")])]
    requires subclass.superclass == Some(fooComparator) && subclass.genericInterfaces == []
    ensures GetLastGenericClassType(fooComparator, "Comparator", {("Comparator", "Comparator")}) == Some("Foo")
    ensures GetLastGenericClassType(subclass, "Comparator", {("Comparator", "Comparator")}) == None
  {
    assert FirstSelectedAt(fooComparator.genericInterfaces, "Comparator", {("Comparator", "Comparator")}, 0);
  }
}
