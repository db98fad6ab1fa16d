/**
 * Searching the superclass chain for a field by name. `getField` searches by
 * exact name, `setFieldValue` ignoring case; both stop at the first class that
 * declares a matching field, and earlier classes in declaration order.
 */
module FieldSearch {
  import opened Types
  import opened CaseFolding

  /** How a field name is compared with the requested one. */
  datatype Matcher = Exact(name: string) | IgnoringCase(name: string)

  predicate Matches(m: Matcher, fieldName: string) {
    match m
    case Exact(n) => fieldName == n
    case IgnoringCase(n) => EqualsIgnoreCase(fieldName, n)
  }

  /** `i` is the position of the first field of `fs` that `m` matches. */
  predicate FirstMatchAt(fs: seq<Field>, m: Matcher, i: int) {
    && 0 <= i < |fs|
    && Matches(m, fs[i].name)
    && forall j :: 0 <= j < i ==> !Matches(m, fs[j].name)
  }

  /** The position of the first field that `m` matches, or `|fs|` when there is none. */
  function IndexOf(fs: seq<Field>, m: Matcher): (i: nat)
    ensures i <= |fs|
    ensures i < |fs| ==> FirstMatchAt(fs, m, i)
    ensures i == |fs| ==> forall j :: 0 <= j < |fs| ==> !Matches(m, fs[j].name)
  {
    if fs == [] then 0
    else if Matches(m, fs[0].name) then 0
    else
      var k := IndexOf(fs[1..], m);
      assert forall j :: 1 <= j < |fs| ==> fs[j] == fs[1..][j - 1];
      1 + k
  }

  /** What looking for a field in one class, or in a chain of classes, yields. */
  datatype Lookup =
    | Found(field: Field)
    | NotFound
    | Unreadable(className: Name, missingClass: Name)

  /**
   * Looking up a field in the declared fields of a single class (what
   * `getDeclaredField` does for an exact name, and the inner loop of
   * `setFieldValue` for a case-insensitive one).
   */
  function LookupIn(c: Class, m: Matcher): (r: Lookup)
    ensures r.Unreadable? <==> !Readable(c)
    ensures r.Unreadable? ==> r == Unreadable(c.name, c.declaredFields.missingClass)
    ensures r.NotFound? <==> Readable(c) && forall j :: 0 <= j < |Declared(c)| ==> !Matches(m, Declared(c)[j].name)
    ensures r.Found? ==> exists i :: FirstMatchAt(Declared(c), m, i) && Declared(c)[i] == r.field
  {
    match c.declaredFields
    case Unresolvable(missing) => Unreadable(c.name, missing)
    case Resolved(fs) =>
      var i := IndexOf(fs, m);
      if i < |fs| then
        assert Declared(c) == fs && Matches(m, Declared(c)[i].name);
        Found(fs[i])
      else NotFound
  }

  /** Walk the chain most-derived first and stop at the first class that does not yield `NotFound`. */
  function Search(chain: seq<Class>, m: Matcher): (r: Lookup)
    ensures r.Found? ==> Matches(m, r.field.name)
  {
    if chain == [] then NotFound
    else
      var here := LookupIn(chain[0], m);
      if here.NotFound? then
        Search(chain[1..], m)
      else
        here
  }

  /** None of the first `k` classes of the chain is unreadable or declares a matching field. */
  predicate NoMatchBefore(chain: seq<Class>, k: int, m: Matcher) {
    && 0 <= k <= |chain|
    && forall j :: 0 <= j < k ==> LookupIn(chain[j], m).NotFound?
  }

  /** Classes skipped by the walk do not change the outcome. */
  lemma {:induction false} SearchSkips(chain: seq<Class>, m: Matcher, k: int)
    requires NoMatchBefore(chain, k, m)
    ensures Search(chain, m) == Search(chain[k..], m)
  {
    if k > 0 {
      assert LookupIn(chain[0], m).NotFound?;
      assert NoMatchBefore(chain[1..], k - 1, m) by {
        forall j | 0 <= j < k - 1 ensures LookupIn(chain[1..][j], m).NotFound? {
          assert chain[1..][j] == chain[j + 1];
        }
      }
      SearchSkips(chain[1..], m, k - 1);
      assert chain[1..][k - 1..] == chain[k..];
    }
  }

  /**
   * The search answers with the first class that is unreadable or declares a
   * matching field: its first matching field in declaration order, or the
   * class-loading failure.
   */
  lemma SearchStopsAtFirstDeclaring(chain: seq<Class>, m: Matcher, k: int)
    requires NoMatchBefore(chain, k, m) && k < |chain|
    requires !LookupIn(chain[k], m).NotFound?
    ensures Search(chain, m) == LookupIn(chain[k], m)
  {
    SearchSkips(chain, m, k);
  }

  /** The search fails to find a field iff every class is readable and none declares a match. */
  lemma {:induction false} SearchNotFound(chain: seq<Class>, m: Matcher)
    ensures Search(chain, m) == NotFound <==> NoMatchBefore(chain, |chain|, m)
  {
    if NoMatchBefore(chain, |chain|, m) {
      SearchSkips(chain, m, |chain|);
    } else if chain != [] && LookupIn(chain[0], m).NotFound? {
      var j :| 0 <= j < |chain| && !LookupIn(chain[j], m).NotFound?;
      assert chain[1..][j - 1] == chain[j];
      SearchNotFound(chain[1..], m);
    }
  }

  /** Any answer other than `NotFound` comes from a class that every earlier class let the walk pass. */
  lemma {:induction false} SearchAnswerOrigin(chain: seq<Class>, m: Matcher) returns (k: int)
    requires Search(chain, m) != NotFound
    ensures NoMatchBefore(chain, k, m) && k < |chain|
    ensures Search(chain, m) == LookupIn(chain[k], m)
  {
    if LookupIn(chain[0], m).NotFound? {
      var k' := SearchAnswerOrigin(chain[1..], m);
      k := k' + 1;
      forall j | 0 <= j < k ensures LookupIn(chain[j], m).NotFound? {
        if j > 0 { assert chain[j] == chain[1..][j - 1]; }
      }
    } else {
      k := 0;
    }
  }

  lemma ExactMatchIgnoresCase(n: string, fieldName: string)
    ensures Matches(Exact(n), fieldName) ==> Matches(IgnoringCase(n), fieldName)
  {
    EqualsIgnoreCaseIsEquivalence(n, n, n);
  }

  /**
   * Whenever the exact search finds a field, the case-insensitive search finds
   * one too, in the same class or in a more derived one (it may be a different
   * field whose name differs only in case).
   */
  lemma {:induction false} ExactFoundImpliesIgnoringCaseFound(chain: seq<Class>, n: string)
    requires Search(chain, Exact(n)).Found?
    ensures Search(chain, IgnoringCase(n)).Found?
  {
    var c := chain[0];
    match LookupIn(c, Exact(n))
    case Found(f) =>
      var fs := Declared(c);
      var i := IndexOf(fs, Exact(n));
      ExactMatchIgnoresCase(n, fs[i].name);
      assert !LookupIn(c, IgnoringCase(n)).NotFound?;
    case NotFound =>
      if LookupIn(c, IgnoringCase(n)).NotFound? {
        ExactFoundImpliesIgnoringCaseFound(chain[1..], n);
      }
  }
}
