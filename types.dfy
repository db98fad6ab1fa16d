/**
 * The abstract type system the reflection helpers work on: classes with their
 * declared fields, superclass and generic interfaces, generic type references,
 * and the errors the helpers raise.
 */
module Types {

  datatype Option<+T> = None | Some(value: T)

  /** A class is identified by its (fully qualified) name. */
  type Name = string

  /**
   * A generic type reference: a plain class, a parameterized type with its raw
   * class and ordered actual type arguments, or any other kind of type
   * (type variable, wildcard, generic array type).
   */
  datatype Type =
    | ClassType(name: Name)
    | ParameterizedType(raw: Name, arguments: seq<Type>)
    | OtherType

  /** A declared field: its declaring class, its name and its declared generic type. */
  datatype Field = Field(declaringClass: Name, name: string, genericType: Type)

  /**
   * The outcome of asking a class for its declared fields: the fields in
   * declaration order, or the name of a class the class loader could not find
   * while resolving them.
   */
  datatype DeclaredFields =
    | Resolved(fields: seq<Field>)
    | Unresolvable(missingClass: Name)

  /**
   * A class. The superclass link is a value, so every superclass chain is finite
   * and acyclic by construction.
   */
  datatype Class = Class(
    name: Name,
    declaredFields: DeclaredFields,
    superclass: Option<Class>,
    genericInterfaces: seq<Type>)

  /** Why a field could not be assigned. */
  datatype SetFailure =
    | AccessDenied        // the security policy refused to override the access check
    | AssignmentRejected  // the assignment itself threw (final field, incompatible value)

  datatype Error =
    /** Declared fields of `targetClass` could not be read because `missingClass` is not loadable. */
    | FieldsUnavailable(targetClass: Name, missingClass: Name)
    /** The class loader error itself, propagated without being wrapped. */
    | ClassDefNotFound(missingClass: Name)
    /** No class in the chain starting at `className` declares `fieldName`. */
    | NoSuchField(fieldName: string, className: Name)
    /** Assigning `fieldName` in an instance of `instanceClass` failed. */
    | FieldSetFailed(fieldName: string, instanceClass: Name, cause: SetFailure)

  datatype Result<+T> = Ok(value: T) | Err(error: Error)

  predicate Readable(c: Class) {
    c.declaredFields.Resolved?
  }

  /** The declared fields of a readable class; nothing for an unreadable one. */
  function Declared(c: Class): seq<Field> {
    match c.declaredFields
    case Resolved(fs) => fs
    case Unresolvable(_) => []
  }

  /**
   * The classes visited by walking `getSuperclass` from `start` until there is
   * no superclass, most-derived first.
   */
  function ChainOf(start: Option<Class>): seq<Class>
    decreases start
  {
    match start
    case None => []
    case Some(c) => [c] + ChainOf(c.superclass)
  }

  /**
   * The walk is the superclass chain: it starts at `start`, each class is
   * followed by its superclass, and it ends at a class without a superclass.
   */
  lemma {:induction false} ChainOfIsSuperclassChain(start: Option<Class>)
    ensures start.None? <==> ChainOf(start) == []
    ensures start.Some? ==> ChainOf(start)[0] == start.value
    ensures forall i {:trigger ChainOf(start)[i].superclass} :: 0 <= i < |ChainOf(start)| - 1 ==>
      ChainOf(start)[i].superclass == Some(ChainOf(start)[i + 1])
    ensures ChainOf(start) != [] ==> ChainOf(start)[|ChainOf(start)| - 1].superclass.None?
    decreases start
  {
    if start.Some? {
      var c := start.value;
      var rest := ChainOf(c.superclass);
      ChainOfIsSuperclassChain(c.superclass);
      assert ChainOf(start) == [c] + rest;
      assert forall i :: 1 <= i < |ChainOf(start)| ==> ChainOf(start)[i] == rest[i - 1];
    }
  }
}
