# ReflectionUtils of the XWiki component framework, modelled in Dafny

The component framework of xwiki-commons injects dependencies into component
instances through a small set of reflection helpers in `ReflectionUtils`:

- a **hierarchy walker** (`getAllFields`) that collects the fields a class and
  its superclasses declare, one field per name, the most-derived declaration
  winning, in declaration order most-derived class first;
- a **field locator** (`getField`) that finds one field by its exact name up the
  superclass chain, failing when no class declares it;
- a **generic type resolver** (`getTypeClass`, `getLastTypeGenericArgument`,
  `getLastFieldGenericArgument`, `getLastGenericFieldType`,
  `getGenericClassType`, `getLastGenericClassType`) that reads the main class
  and the last type argument out of generic type references and out of the
  interfaces a class directly implements;
- a **field mutator** (`setFieldValue`) that finds a field by case-insensitive
  name and assigns it, overriding the access check for that one assignment and
  restoring the field's accessible flag afterwards; a name that matches nothing
  is silently ignored.

The model works on an abstract type system (`types.dfy`): a class is a value
with a name, its declared fields (or the name of the class whose absence makes
them unreadable, the class loader's `NoClassDefFoundError`), an optional
superclass and its generic interfaces. Because the superclass link is a value,
every chain is finite and acyclic. A generic type reference is a plain class, a
parameterized type (raw class and argument list) or any other kind of type.

The walker, the locator and the mutator are loops in the source and are methods here
(`Hierarchy.GetAllFields`, `Hierarchy.GetField`, `FieldMutation.SetFieldValue`),
each proved against a specification function of the superclass chain
(`Hierarchy.AllFields`, `FieldSearch.Search`), whose properties are lemmas.
The insertion-ordered `LinkedHashMap` of `getAllFields` is a sequence of keys
plus a map. The mutator's state lives in two classes, `Instance` (the field
values of the object) and `AccessFlags` (the fields whose accessible flag is
set); what the host security policy permits is a parameter (`Host`). The
generic type resolver is pure and is written as functions.

Files: `types.dfy` (data model), `case_folding.dfy` (`String.equalsIgnoreCase`),
`field_search.dfy` (name lookup along the chain), `hierarchy.dfy` (`getAllFields`,
`getField`), `generics.dfy` (the generic type resolver), `field_mutation.dfy`
(`setFieldValue`).

## Model

| member | source | states |
|---|---|---|
| Types.ChainOfIsSuperclassChain | xwiki-commons-core/xwiki-commons-component/xwiki-commons-component-api/src/main/java/org/xwiki/component/util/ReflectionUtils.java:56-77 | the walk starts at the given class, follows `getSuperclass` from each class to the next, ends at a class with no superclass, and is empty exactly for a null start |
| CaseFolding.EqualsIgnoreCase | xwiki-commons-core/xwiki-commons-component/xwiki-commons-component-api/src/main/java/org/xwiki/component/util/ReflectionUtils.java:144 | `String.equalsIgnoreCase` with ASCII case mapping: equal lengths and each pair of characters equal, equal upper-cased, or equal lower-cased after upper-casing |
| CaseFolding.CharEqualsIgnoreCaseIsLowerEquality | xwiki-commons-core/xwiki-commons-component/xwiki-commons-component-api/src/main/java/org/xwiki/component/util/ReflectionUtils.java:144 | two characters are equal ignoring case (equal, equal upper-cased, or equal lower-cased after upper-casing) exactly when their lower-case forms are equal |
| CaseFolding.EqualsIgnoreCaseIsLowerEquality | xwiki-commons-core/xwiki-commons-component/xwiki-commons-component-api/src/main/java/org/xwiki/component/util/ReflectionUtils.java:144 | two names are equal ignoring case exactly when their lower-cased forms are equal |
| CaseFolding.EqualsIgnoreCaseIsEquivalence | xwiki-commons-core/xwiki-commons-component/xwiki-commons-component-api/src/main/java/org/xwiki/component/util/ReflectionUtils.java:144 | equality ignoring case is reflexive, symmetric and transitive |
| FieldSearch.IndexOf | xwiki-commons-core/xwiki-commons-component/xwiki-commons-component-api/src/main/java/org/xwiki/component/util/ReflectionUtils.java:94 | the position of the first field, in declaration order, whose name matches; the field count exactly when none matches |
| FieldSearch.LookupIn | xwiki-commons-core/xwiki-commons-component/xwiki-commons-component-api/src/main/java/org/xwiki/component/util/ReflectionUtils.java:93-99 | one class's lookup: unreadable exactly when its fields cannot be loaded (naming the class and the missing class); not found exactly when no declared field matches; otherwise the first matching declared field |
| FieldSearch.SearchSkips | xwiki-commons-core/xwiki-commons-component/xwiki-commons-component-api/src/main/java/org/xwiki/component/util/ReflectionUtils.java:96-99 | readable classes that declare no match are passed over without changing the answer |
| FieldSearch.SearchStopsAtFirstDeclaring | xwiki-commons-core/xwiki-commons-component/xwiki-commons-component-api/src/main/java/org/xwiki/component/util/ReflectionUtils.java:92-100 | the search answers with the first class that declares a match or cannot be read, ignoring every later class |
| FieldSearch.SearchNotFound | xwiki-commons-core/xwiki-commons-component/xwiki-commons-component-api/src/main/java/org/xwiki/component/util/ReflectionUtils.java:92-105 | the search finds nothing if and only if every class of the chain is readable and declares no match |
| FieldSearch.SearchAnswerOrigin | xwiki-commons-core/xwiki-commons-component/xwiki-commons-component-api/src/main/java/org/xwiki/component/util/ReflectionUtils.java:92-100 | every answer other than not-found comes from a class preceded only by classes the walk passed over |
| FieldSearch.Search | xwiki-commons-core/xwiki-commons-component/xwiki-commons-component-api/src/main/java/org/xwiki/component/util/ReflectionUtils.java:92-100 | the walk of `getField` and of `setFieldValue` (:142-166) from the most-derived class: the answer of the first class that declares a match or cannot be read; a found field matches the request |
| FieldSearch.ExactMatchIgnoresCase | xwiki-commons-core/xwiki-commons-component/xwiki-commons-component-api/src/main/java/org/xwiki/component/util/ReflectionUtils.java:94 | a name equal to the request also matches it ignoring case |
| FieldSearch.ExactFoundImpliesIgnoringCaseFound | xwiki-commons-core/xwiki-commons-component/xwiki-commons-component-api/src/main/java/org/xwiki/component/util/ReflectionUtils.java:143-144 | whenever the exact lookup of `getField` finds a field, the case-insensitive lookup of `setFieldValue` finds one as well |
| Hierarchy.AllFields | xwiki-commons-core/xwiki-commons-component/xwiki-commons-component-api/src/main/java/org/xwiki/component/util/ReflectionUtils.java:52-80 | what `getAllFields` returns: success exactly when every class of the chain is readable; otherwise the error names an unreadable class of the chain and the class that could not be found; the fields returned on success are characterised by the lemmas below |
| Hierarchy.FirstUnreadable | xwiki-commons-core/xwiki-commons-component/xwiki-commons-component-api/src/main/java/org/xwiki/component/util/ReflectionUtils.java:57-66 | the index of the first class whose fields cannot be read; every class before it is readable |
| Hierarchy.Flatten | xwiki-commons-core/xwiki-commons-component/xwiki-commons-component-api/src/main/java/org/xwiki/component/util/ReflectionUtils.java:57-77 | every declared field of the chain, class by class in walk order, each class's fields in declaration order |
| Hierarchy.KeepFirst | xwiki-commons-core/xwiki-commons-component/xwiki-commons-component-api/src/main/java/org/xwiki/component/util/ReflectionUtils.java:68-76 | the fields that are the first of their name, in input order: what put-unless-present into a `LinkedHashMap` keeps |
| Hierarchy.KeepFirstNames | xwiki-commons-core/xwiki-commons-component/xwiki-commons-component-api/src/main/java/org/xwiki/component/util/ReflectionUtils.java:68-76 | keeping the first field per name loses no name and adds none |
| Hierarchy.KeepFirstDistinct | xwiki-commons-core/xwiki-commons-component/xwiki-commons-component-api/src/main/java/org/xwiki/component/util/ReflectionUtils.java:73-74 | no two kept fields share a name |
| Hierarchy.KeepFirstWins | xwiki-commons-core/xwiki-commons-component/xwiki-commons-component-api/src/main/java/org/xwiki/component/util/ReflectionUtils.java:69-74 | each kept field is the first field of its name in the input |
| Hierarchy.KeepFirstOrdered | xwiki-commons-core/xwiki-commons-component/xwiki-commons-component-api/src/main/java/org/xwiki/component/util/ReflectionUtils.java:54-55 | kept fields are in the order in which their names first occur |
| Hierarchy.KeepFirstPrefix | xwiki-commons-core/xwiki-commons-component/xwiki-commons-component-api/src/main/java/org/xwiki/component/util/ReflectionUtils.java:54-55 | what is kept from a prefix is a prefix of what is kept from the whole |
| Hierarchy.KeepFirstOfDistinct | xwiki-commons-core/xwiki-commons-component/xwiki-commons-component-api/src/main/java/org/xwiki/component/util/ReflectionUtils.java:73-74 | fields whose names are already distinct are all kept, in order |
| Hierarchy.SearchIsFlatSearch | xwiki-commons-core/xwiki-commons-component/xwiki-commons-component-api/src/main/java/org/xwiki/component/util/ReflectionUtils.java:57-78 | over a chain whose classes are all readable, searching class by class is searching the concatenated declared fields |
| Hierarchy.SearchUpToUnreadable | xwiki-commons-core/xwiki-commons-component/xwiki-commons-component-api/src/main/java/org/xwiki/component/util/ReflectionUtils.java:92-100 | over any chain, the class-by-class search gives the first match in the concatenated fields of the classes before the first unreadable one; failing that, the failure of that unreadable class; failing that, nothing |
| Hierarchy.AllFieldsAgreeWithSearch | xwiki-commons-core/xwiki-commons-component/xwiki-commons-component-api/src/main/java/org/xwiki/component/util/ReflectionUtils.java:69-74 | every field `getAllFields` returns is the field `getField`'s search finds for its name; every field that search finds is returned; a name is absent from the result exactly when the search finds nothing |
| Hierarchy.AllFieldsOnePerName | xwiki-commons-core/xwiki-commons-component/xwiki-commons-component-api/src/main/java/org/xwiki/component/util/ReflectionUtils.java:69-75 | the result holds one field for each name declared anywhere in the chain and no name twice |
| Hierarchy.AllFieldsOrder | xwiki-commons-core/xwiki-commons-component/xwiki-commons-component-api/src/main/java/org/xwiki/component/util/ReflectionUtils.java:54-55 | the result begins with what the first k classes contribute, and with the starting class's own fields in declaration order when their names are distinct |
| Hierarchy.AllFieldsFailsOnUnreadable | xwiki-commons-core/xwiki-commons-component/xwiki-commons-component-api/src/main/java/org/xwiki/component/util/ReflectionUtils.java:59-66 | an unreadable class anywhere in the chain makes `getAllFields` fail, naming the first unreadable class and the class that could not be found |
| Hierarchy.PutAbsent | xwiki-commons-core/xwiki-commons-component/xwiki-commons-component-api/src/main/java/org/xwiki/component/util/ReflectionUtils.java:68-76 | putting each field into the insertion-ordered map unless its name is a key yields the map of the first field per name, in first-seen order |
| Hierarchy.WalkStep | xwiki-commons-core/xwiki-commons-component/xwiki-commons-component-api/src/main/java/org/xwiki/component/util/ReflectionUtils.java:57-77 | one step of the walk: an unreadable class ends `getAllFields` with the wrapping error; a readable one extends the collected fields by its declared fields |
| Hierarchy.WalkDone | xwiki-commons-core/xwiki-commons-component/xwiki-commons-component-api/src/main/java/org/xwiki/component/util/ReflectionUtils.java:78-79 | a walk that reached the top with every class readable returns the first field per name of all declared fields |
| Hierarchy.GetAllFields | xwiki-commons-core/xwiki-commons-component/xwiki-commons-component-api/src/main/java/org/xwiki/component/util/ReflectionUtils.java:52-80 | the method returns exactly `AllFields` of the chain from the class (empty for null) |
| Hierarchy.GetField | xwiki-commons-core/xwiki-commons-component/xwiki-commons-component-api/src/main/java/org/xwiki/component/util/ReflectionUtils.java:88-108 | the method returns the field found by the exact-name search, fails with the missing-field error naming the field and the starting class when nothing is found, and propagates the class loader's error unwrapped; a returned field has the requested name |
| Generics.GetTypeClass | xwiki-commons-core/xwiki-commons-component/xwiki-commons-component-api/src/main/java/org/xwiki/component/util/ReflectionUtils.java:117-129 | a plain class yields itself, a parameterized type its raw class, any other type and no type at all yield nothing |
| Generics.GetLastTypeGenericArgument | xwiki-commons-core/xwiki-commons-component/xwiki-commons-component-api/src/main/java/org/xwiki/component/util/ReflectionUtils.java:202-213 | a result exists exactly for a present parameterized type with at least one argument, and it is the last argument; no type yields nothing |
| Generics.GetLastFieldGenericArgument | xwiki-commons-core/xwiki-commons-component/xwiki-commons-component-api/src/main/java/org/xwiki/component/util/ReflectionUtils.java:189-192 | the last argument of the field's declared generic type, present exactly when that type is parameterized with an argument |
| Generics.GetLastGenericFieldType | xwiki-commons-core/xwiki-commons-component/xwiki-commons-component-api/src/main/java/org/xwiki/component/util/ReflectionUtils.java:176-179 | a class exists exactly when the field's type is parameterized and its last argument is a class or parameterized type, and it is that argument's main class |
| Generics.LastArgumentOfTwoArgumentType | xwiki-commons-core/xwiki-commons-component/xwiki-commons-component-api/src/main/java/org/xwiki/component/util/ReflectionUtils.java:170-171 | a field declared with two type arguments yields the second one |
| Generics.FirstSelected | xwiki-commons-core/xwiki-commons-component/xwiki-commons-component-api/src/main/java/org/xwiki/component/util/ReflectionUtils.java:253-262 | nothing exactly when no interface is the filter class or a parameterized type whose raw class the filter accepts; otherwise the first such interface |
| Generics.GetGenericClassType | xwiki-commons-core/xwiki-commons-component/xwiki-commons-component-api/src/main/java/org/xwiki/component/util/ReflectionUtils.java:250-265 | the first directly implemented generic interface that is the filter class or a parameterized type assignable to it; nothing exactly when there is none |
| Generics.GetLastGenericClassType | xwiki-commons-core/xwiki-commons-component/xwiki-commons-component-api/src/main/java/org/xwiki/component/util/ReflectionUtils.java:223-238 | a class is returned if and only if the interface `getGenericClassType` selects is parameterized with a last argument that is a plain class, and it is that argument |
| Generics.GenericClassTypeIgnoresSuperclass | xwiki-commons-core/xwiki-commons-component/xwiki-commons-component-api/src/main/java/org/xwiki/component/util/ReflectionUtils.java:253 | only the class's own interfaces are scanned: changing its superclass changes neither result |
| Generics.ComparatorArgument | xwiki-commons-core/xwiki-commons-component/xwiki-commons-component-api/src/main/java/org/xwiki/component/util/ReflectionUtils.java:216-217 | a class implementing `Comparator<Foo>` yields `Foo`; a subclass with no interface of its own yields nothing |
| FieldMutation.AccessFlags.SetAccessible | xwiki-commons-core/xwiki-commons-component/xwiki-commons-component-api/src/main/java/org/xwiki/component/util/ReflectionUtils.java:148 | changing an accessible flag succeeds exactly when the policy allows overriding that field, and then sets or clears its flag; a refusal changes nothing |
| FieldMutation.Instance.Set | xwiki-commons-core/xwiki-commons-component/xwiki-commons-component-api/src/main/java/org/xwiki/component/util/ReflectionUtils.java:149 | the assignment succeeds exactly when the field is accessible and the host does not reject it, and then updates only that field's value |
| FieldMutation.AssignOverridingAccess | xwiki-commons-core/xwiki-commons-component/xwiki-commons-component-api/src/main/java/org/xwiki/component/util/ReflectionUtils.java:145-161 | the accessible flag ends as it started on every path; a refused override or a rejected assignment fails with the wrapping error naming the requested field and the instance's class and leaves the instance unchanged; otherwise only the field is assigned |
| FieldMutation.SetFieldValue | xwiki-commons-core/xwiki-commons-component/xwiki-commons-component-api/src/main/java/org/xwiki/component/util/ReflectionUtils.java:138-167 | the first field in walk order whose name equals the request ignoring case is assigned as above; no match leaves the instance unchanged without error; an unreadable class reached before a match propagates the class loader's error; all accessible flags end as they started |
| FieldMutation.MixedCaseRequestMatches | xwiki-commons-core/xwiki-commons-component/xwiki-commons-component-api/src/main/java/org/xwiki/component/util/ReflectionUtils.java:144 | the request `MYFIELD` matches a field `myField` ignoring case but not exactly |
| FieldMutation.LookupsDifferOnCase | xwiki-commons-core/xwiki-commons-component/xwiki-commons-component-api/src/main/java/org/xwiki/component/util/ReflectionUtils.java:144 | for a class declaring only `myField`, the exact search for `MYFIELD` finds nothing while the case-insensitive one finds `myField` |

## Left out

- Reflection itself (the JVM's class metadata, `Field` objects, the security manager) is replaced by the class values and by the `Host` policy parameter, which says which fields refuse an access override and which assignments throw.
- The text of the error messages is not modelled; each error carries the names the message mentions (field, class, missing class) and, for `setFieldValue`, the kind of cause.
- `isAssignableFrom` is a given relation on class names, not derived from a subtype hierarchy.
- `Class.getDeclaredFields` leaves the order of fields unspecified; the model takes the order stored in the class value as the declaration order.
- CaseFolding.EqualsIgnoreCase: compares with ASCII case mapping only; the Unicode case mappings of `Character.toUpperCase`/`toLowerCase` outside ASCII are not modelled.
- Class values are not checked for well-formedness: nothing ties a declared field's `declaringClass` to the class declaring it or makes names distinct within one class. A class table that breaks this, which Java cannot produce, would let two declarations share one value slot and one accessible flag in `setFieldValue`.
- Java returns a fresh `Field` copy from each `getDeclaredFields` call; the model keeps one accessible flag per field value.
- FieldMutation.Instance.Set: assignment always requires the accessible flag, also for public fields, and static fields are not distinguished; type and finality checks of `Field.set` are folded into the host's rejected set.
- A null class passed to `getField` or a null instance passed to `setFieldValue` (a `NullPointerException` in the source) cannot be expressed: those parameters are non-null here. A null class passed to `getAllFields` is modelled and yields no fields.
- A null argument elsewhere is not expressible: `getTypeClass` and `getLastTypeGenericArgument` take an optional type and map no type to no result, as the source does, but `getLastFieldGenericArgument`, `getLastGenericFieldType`, `getGenericClassType` and `getLastGenericClassType` take a field or class that is present. A field name is never null here; in the source a null `fieldName` makes `getField` throw a `NullPointerException` from `getDeclaredField`, while `setFieldValue` matches nothing (`equalsIgnoreCase(null)` is false) and does nothing.
- Concurrency and thread visibility of the accessible flags are not modelled.
- Idempotence of the read-only helpers holds because each is modelled as a function of its inputs; there is no separate lemma.
- Only `getAllFields` wraps the class loader's `NoClassDefFoundError` in an error naming the class being read; `getField` and `setFieldValue` let it through unwrapped, and `setFieldValue` wraps any `Exception` of the assignment, not only a security refusal. The model keeps these three behaviours apart.
