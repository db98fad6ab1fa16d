/**
 * Walking the superclass chain: `getAllFields` collects every field once per
 * name, most-derived declaration first, and `getField` finds one field by its
 * exact name.
 */
module Hierarchy {
  import opened Types
  import opened FieldSearch

  /* ---------- Specification of getAllFields ---------- */

  /** The names of the fields of `fs`. */
  function Names(fs: seq<Field>): set<string> {
    set f | f in fs :: f.name
  }

  /** Index of the first class in the chain whose declared fields cannot be read, or `|chain|`. */
  function FirstUnreadable(chain: seq<Class>): (i: nat)
    ensures i <= |chain|
    ensures forall j :: 0 <= j < i ==> Readable(chain[j])
    ensures i < |chain| ==> !Readable(chain[i])
  {
    if chain == [] then 0
    else if !Readable(chain[0]) then 0
    else
      var k := FirstUnreadable(chain[1..]);
      assert forall j :: 1 <= j < |chain| ==> chain[j] == chain[1..][j - 1];
      1 + k
  }

  /** Every declared field of the chain, class by class, each class in declaration order. */
  function Flatten(chain: seq<Class>): seq<Field> {
    if chain == [] then [] else Declared(chain[0]) + Flatten(chain[1..])
  }

  /**
   * The fields of `fs` that are the first of their name, in order: what repeated
   * "put unless the name is already a key" builds in an insertion-ordered map.
   */
  function KeepFirst(fs: seq<Field>): seq<Field> {
    if fs == [] then []
    else
      var kept := KeepFirst(fs[..|fs| - 1]);
      var f := fs[|fs| - 1];
      if f.name in Names(kept) then kept else kept + [f]
  }

  /**
   * What `getAllFields` returns for a chain: the error naming the first class
   * whose fields cannot be read, or one field per name in first-seen order.
   */
  function AllFields(chain: seq<Class>): (r: Result<seq<Field>>)
    ensures r.Ok? <==> forall k :: 0 <= k < |chain| ==> Readable(chain[k])
    ensures r.Err? ==> exists k :: (0 <= k < |chain| && !Readable(chain[k]) &&
                                    r.error == FieldsUnavailable(chain[k].name, chain[k].declaredFields.missingClass))
  {
    var i := FirstUnreadable(chain);
    if i < |chain| then Err(FieldsUnavailable(chain[i].name, chain[i].declaredFields.missingClass))
    else Ok(KeepFirst(Flatten(chain)))
  }

  /* ---------- Helper lemmas ---------- */

  lemma NamesAppend(fs: seq<Field>, f: Field)
    ensures Names(fs + [f]) == Names(fs) + {f.name}
  {
    assert forall g :: g in fs + [f] <==> g in fs || g == f;
  }

  lemma NamesIndexOf(fs: seq<Field>, n: string)
    ensures n in Names(fs) <==> IndexOf(fs, Exact(n)) < |fs|
  {
    var i := IndexOf(fs, Exact(n));
    if n in Names(fs) {
      var g :| g in fs && g.name == n;
      var j :| 0 <= j < |fs| && fs[j] == g;
      assert Matches(Exact(n), fs[j].name);
    }
    if i < |fs| {
      assert fs[i] in fs;
    }
  }

  lemma {:induction false} IndexOfAppend(a: seq<Field>, b: seq<Field>, m: Matcher)
    ensures IndexOf(a + b, m) == if IndexOf(a, m) < |a| then IndexOf(a, m) else |a| + IndexOf(b, m)
  {
    if a != [] {
      assert (a + b)[0] == a[0];
      assert (a + b)[1..] == a[1..] + b;
      IndexOfAppend(a[1..], b, m);
    } else {
      assert a + b == b;
    }
  }

  lemma {:induction false} FlattenAppend(a: seq<Class>, b: seq<Class>)
    ensures Flatten(a + b) == Flatten(a) + Flatten(b)
  {
    if a == [] {
      assert a + b == b;
    } else {
      assert (a + b)[0] == a[0];
      assert (a + b)[1..] == a[1..] + b;
      FlattenAppend(a[1..], b);
    }
  }

  lemma {:induction false} FirstUnreadableAppend(a: seq<Class>, b: seq<Class>)
    requires FirstUnreadable(a) == |a|
    ensures FirstUnreadable(a + b) == |a| + FirstUnreadable(b)
  {
    if a == [] {
      assert a + b == b;
    } else {
      assert (a + b)[0] == a[0];
      assert (a + b)[1..] == a[1..] + b;
      FirstUnreadableAppend(a[1..], b);
    }
  }

  /* ---------- Properties of KeepFirst ---------- */

  /** Exactly the names of the input survive. */
  lemma {:induction false} KeepFirstNames(fs: seq<Field>)
    ensures Names(KeepFirst(fs)) == Names(fs)
  {
    if fs != [] {
      var init := fs[..|fs| - 1];
      var f := fs[|fs| - 1];
      assert fs == init + [f];
      KeepFirstNames(init);
      NamesAppend(init, f);
      NamesAppend(KeepFirst(init), f);
    }
  }

  /** At most one field per name. */
  lemma {:induction false} KeepFirstDistinct(fs: seq<Field>)
    ensures forall i, j :: 0 <= i < j < |KeepFirst(fs)| ==> KeepFirst(fs)[i].name != KeepFirst(fs)[j].name
  {
    if fs != [] {
      var init := fs[..|fs| - 1];
      var f := fs[|fs| - 1];
      var kept := KeepFirst(init);
      KeepFirstDistinct(init);
      if f.name !in Names(kept) {
        forall i | 0 <= i < |kept| ensures kept[i].name != f.name {
          assert kept[i] in kept;
        }
      }
    }
  }

  /** Every kept field is the first field of its name in the input. */
  lemma {:induction false} KeepFirstWins(fs: seq<Field>)
    ensures forall k :: 0 <= k < |KeepFirst(fs)| ==>
      IndexOf(fs, Exact(KeepFirst(fs)[k].name)) < |fs| && fs[IndexOf(fs, Exact(KeepFirst(fs)[k].name))] == KeepFirst(fs)[k]
  {
    if fs != [] {
      var init := fs[..|fs| - 1];
      var f := fs[|fs| - 1];
      var kept := KeepFirst(init);
      assert fs == init + [f];
      KeepFirstWins(init);
      KeepFirstNames(init);
      forall k | 0 <= k < |KeepFirst(fs)|
        ensures IndexOf(fs, Exact(KeepFirst(fs)[k].name)) < |fs|
        ensures fs[IndexOf(fs, Exact(KeepFirst(fs)[k].name))] == KeepFirst(fs)[k]
      {
        var n := KeepFirst(fs)[k].name;
        IndexOfAppend(init, [f], Exact(n));
        if k < |kept| {
          assert KeepFirst(fs)[k] == kept[k];
          assert kept[k] in kept;
          NamesIndexOf(init, n);
        } else {
          assert KeepFirst(fs)[k] == f && f.name !in Names(init);
          NamesIndexOf(init, n);
        }
      }
    }
  }

  /** Kept fields are in the order in which their names first appear. */
  lemma {:induction false} KeepFirstOrdered(fs: seq<Field>)
    ensures forall k1, k2 :: 0 <= k1 < k2 < |KeepFirst(fs)| ==>
      IndexOf(fs, Exact(KeepFirst(fs)[k1].name)) < IndexOf(fs, Exact(KeepFirst(fs)[k2].name))
  {
    if fs != [] {
      var init := fs[..|fs| - 1];
      var f := fs[|fs| - 1];
      var kept := KeepFirst(init);
      assert fs == init + [f];
      KeepFirstOrdered(init);
      KeepFirstNames(init);
      forall k | 0 <= k < |KeepFirst(fs)|
        ensures IndexOf(fs, Exact(KeepFirst(fs)[k].name)) ==
          if k < |kept| then IndexOf(init, Exact(kept[k].name)) else |init|
        ensures k < |kept| ==> IndexOf(init, Exact(kept[k].name)) < |init|
      {
        var n := KeepFirst(fs)[k].name;
        IndexOfAppend(init, [f], Exact(n));
        NamesIndexOf(init, n);
        if k < |kept| {
          assert KeepFirst(fs)[k] == kept[k];
          assert kept[k] in kept;
        }
      }
    }
  }

  /** What is kept from a prefix is a prefix of what is kept from the whole. */
  lemma {:induction false} KeepFirstPrefix(a: seq<Field>, b: seq<Field>)
    ensures KeepFirst(a) <= KeepFirst(a + b)
    decreases |b|
  {
    if b == [] {
      assert a + b == a;
    } else {
      var b' := b[..|b| - 1];
      assert (a + b)[..|a + b| - 1] == a + b';
      KeepFirstPrefix(a, b');
    }
  }

  /** No two fields of `fs` share a name. */
  predicate DistinctNames(fs: seq<Field>) {
    forall i, j :: 0 <= i < j < |fs| ==> fs[i].name != fs[j].name
  }

  /** Dropping the last field keeps the names distinct, and its name is not among the others. */
  lemma DistinctNamesInit(fs: seq<Field>)
    requires DistinctNames(fs) && fs != []
    ensures DistinctNames(fs[..|fs| - 1])
    ensures fs[|fs| - 1].name !in Names(fs[..|fs| - 1])
  {
    var init := fs[..|fs| - 1];
    forall g | g in init ensures g.name != fs[|fs| - 1].name {
      var j :| 0 <= j < |init| && init[j] == g;
      assert fs[j] == g;
    }
  }

  /** A sequence whose names are already distinct is kept whole. */
  lemma {:induction false} KeepFirstOfDistinct(fs: seq<Field>)
    requires DistinctNames(fs)
    ensures KeepFirst(fs) == fs
  {
    if fs != [] {
      var init := fs[..|fs| - 1];
      DistinctNamesInit(fs);
      KeepFirstOfDistinct(init);
      assert init + [fs[|fs| - 1]] == fs;
    }
  }

  /* ---------- Properties of getAllFields ---------- */

  /** Searching the flattened field sequence directly. */
  function FlatSearch(all: seq<Field>, m: Matcher): Lookup {
    var i := IndexOf(all, m);
    if i < |all| then Found(all[i]) else NotFound
  }

  lemma FlatSearchAppend(a: seq<Field>, b: seq<Field>, m: Matcher)
    ensures FlatSearch(a + b, m) == if IndexOf(a, m) < |a| then Found(a[IndexOf(a, m)]) else FlatSearch(b, m)
  {
    IndexOfAppend(a, b, m);
    var i := IndexOf(a, m);
    if i < |a| {
      assert (a + b)[i] == a[i];
    } else {
      var k := IndexOf(b, m);
      if k < |b| {
        assert (a + b)[|a| + k] == b[k];
      }
    }
  }

  /** Over a readable chain, the class-by-class walk finds what a search of the flattened fields finds. */
  lemma {:induction false} SearchIsFlatSearch(chain: seq<Class>, m: Matcher)
    requires FirstUnreadable(chain) == |chain|
    ensures Search(chain, m) == FlatSearch(Flatten(chain), m)
  {
    if chain != [] {
      var c := chain[0];
      assert Readable(c);
      SearchIsFlatSearch(chain[1..], m);
      FlatSearchAppend(Declared(c), Flatten(chain[1..]), m);
    }
  }

  /** Taking the first `1 + u` classes of a chain flattens to the first class's fields before the rest. */
  lemma FlattenTakeCons(chain: seq<Class>, u: nat)
    requires u < |chain|
    ensures Flatten(chain[..1 + u]) == Declared(chain[0]) + Flatten(chain[1..][..u])
  {
    assert chain[..1 + u] == [chain[0]] + chain[1..][..u];
    assert ([chain[0]] + chain[1..][..u])[1..] == chain[1..][..u];
  }

  /**
   * The class-by-class walk over any chain: a field found in the flattened
   * fields of the readable classes before the first unreadable one, otherwise
   * the failure of that unreadable class, otherwise nothing.
   */
  lemma {:induction false} SearchUpToUnreadable(chain: seq<Class>, m: Matcher)
    ensures var u := FirstUnreadable(chain);
      var flat := FlatSearch(Flatten(chain[..u]), m);
      Search(chain, m) == if flat.Found? then flat else if u < |chain| then LookupIn(chain[u], m) else NotFound
  {
    if chain != [] {
      var c, rest := chain[0], chain[1..];
      if Readable(c) {
        SearchUpToUnreadable(rest, m);
        var u' := FirstUnreadable(rest);
        assert FirstUnreadable(chain) == 1 + u';
        FlattenTakeCons(chain, u');
        FlatSearchAppend(Declared(c), Flatten(rest[..u']), m);
        if u' < |rest| {
          assert chain[1 + u'] == rest[u'];
        }
      } else {
        assert chain[..0] == [];
      }
    }
  }

  /**
   * `getAllFields` and `getField` agree: every collected field is what the
   * exact-name search returns for its name, and every field that search finds
   * is collected. So for each name the collected field is the one declared by
   * the most-derived class declaring that name.
   */
  lemma AllFieldsAgreeWithSearch(chain: seq<Class>, n: string)
    requires AllFields(chain).Ok?
    ensures forall f :: f in AllFields(chain).value ==> Search(chain, Exact(f.name)) == Found(f)
    ensures Search(chain, Exact(n)).Found? ==> Search(chain, Exact(n)).field in AllFields(chain).value
    ensures Search(chain, Exact(n)) == NotFound <==> n !in Names(AllFields(chain).value)
  {
    var all := Flatten(chain);
    var kept := KeepFirst(all);
    KeepFirstWins(all);
    KeepFirstNames(all);
    forall f | f in kept ensures Search(chain, Exact(f.name)) == Found(f) {
      var k :| 0 <= k < |kept| && kept[k] == f;
      SearchIsFlatSearch(chain, Exact(f.name));
      NamesIndexOf(all, f.name);
    }
    SearchIsFlatSearch(chain, Exact(n));
    NamesIndexOf(all, n);
    if n in Names(all) {
      var g :| g in kept && g.name == n;
    }
  }

  /** One entry per distinct name declared anywhere in the chain. */
  lemma AllFieldsOnePerName(chain: seq<Class>)
    requires AllFields(chain).Ok?
    ensures Names(AllFields(chain).value) == Names(Flatten(chain))
    ensures forall i, j :: 0 <= i < j < |AllFields(chain).value| ==>
      AllFields(chain).value[i].name != AllFields(chain).value[j].name
  {
    KeepFirstNames(Flatten(chain));
    KeepFirstDistinct(Flatten(chain));
  }

  /**
   * The fields of the first `k` classes come first: the result begins with what
   * the walk has collected after `k` classes, and, when the starting class has
   * distinct field names, with exactly that class's fields in declaration order.
   */
  lemma AllFieldsOrder(chain: seq<Class>, k: nat)
    requires AllFields(chain).Ok? && k <= |chain|
    ensures KeepFirst(Flatten(chain[..k])) <= AllFields(chain).value
    ensures 0 < |chain| && (forall i, j :: 0 <= i < j < |Declared(chain[0])| ==>
        Declared(chain[0])[i].name != Declared(chain[0])[j].name) ==>
      Declared(chain[0]) <= AllFields(chain).value
  {
    assert chain == chain[..k] + chain[k..];
    FlattenAppend(chain[..k], chain[k..]);
    KeepFirstPrefix(Flatten(chain[..k]), Flatten(chain[k..]));
    if 0 < |chain| {
      assert Flatten(chain) == Declared(chain[0]) + Flatten(chain[1..]);
      KeepFirstPrefix(Declared(chain[0]), Flatten(chain[1..]));
      if forall i, j :: 0 <= i < j < |Declared(chain[0])| ==> Declared(chain[0])[i].name != Declared(chain[0])[j].name {
        KeepFirstOfDistinct(Declared(chain[0]));
      }
    }
  }

  /**
   * An unreadable class anywhere in the chain makes `getAllFields` fail, and the
   * error names an unreadable class at or before it, every class before which is
   * readable.
   */
  lemma AllFieldsFailsOnUnreadable(chain: seq<Class>, k: nat)
    requires k < |chain| && !Readable(chain[k])
    ensures AllFields(chain).Err?
    ensures exists j :: (0 <= j <= k && !Readable(chain[j]) && (forall i :: 0 <= i < j ==> Readable(chain[i])) &&
      AllFields(chain).error == FieldsUnavailable(chain[j].name, chain[j].declaredFields.missingClass))
  {
    var j := FirstUnreadable(chain);
    assert j <= k;
  }

  /* ---------- The operations ---------- */

  /** The insertion-ordered map `order`/`entries` holds exactly `values`, in order. */
  ghost predicate OrderedMapOf(order: seq<string>, entries: map<string, Field>, values: seq<Field>) {
    && |order| == |values|
    && (forall i :: 0 <= i < |order| ==> order[i] == values[i].name && order[i] in entries && entries[order[i]] == values[i])
    && entries.Keys == Names(values)
  }

  /**
   * The inner loop of `getAllFields`: put each of `fs`, in order, into the
   * insertion-ordered map unless its name is already a key.
   */
  method PutAbsent(order: seq<string>, entries: map<string, Field>, fs: seq<Field>, ghost seen: seq<Field>)
    returns (order': seq<string>, entries': map<string, Field>)
    requires OrderedMapOf(order, entries, KeepFirst(seen))
    ensures OrderedMapOf(order', entries', KeepFirst(seen + fs))
  {
    order', entries' := order, entries;
    assert seen + fs[..0] == seen;
    for j := 0 to |fs|
      invariant OrderedMapOf(order', entries', KeepFirst(seen + fs[..j]))
    {
      var field := fs[j];
      ghost var before := KeepFirst(seen + fs[..j]);
      assert (seen + fs[..j + 1])[..|seen + fs[..j + 1]| - 1] == seen + fs[..j];
      if field.name !in entries' {
        NamesAppend(before, field);
        order' := order' + [field.name];
        entries' := entries'[field.name := field];
      }
    }
    assert fs[..|fs|] == fs;
  }

  /** The values of the insertion-ordered map, in insertion order. */
  lemma OrderedMapValues(order: seq<string>, entries: map<string, Field>, values: seq<Field>)
    requires OrderedMapOf(order, entries, values)
    ensures seq(|order|, i requires 0 <= i < |order| => entries[order[i]]) == values
  {
  }

  /** One step of the walk over a chain whose classes so far were all readable. */
  lemma WalkStep(done: seq<Class>, c: Class, chain: seq<Class>)
    requires FirstUnreadable(done) == |done| && done + ChainOf(Some(c)) == chain
    ensures !Readable(c) ==> AllFields(chain) == Err(FieldsUnavailable(c.name, c.declaredFields.missingClass))
    ensures Readable(c) ==> FirstUnreadable(done + [c]) == |done + [c]|
    ensures Readable(c) ==> Flatten(done + [c]) == Flatten(done) + c.declaredFields.fields
    ensures (done + [c]) + ChainOf(c.superclass) == chain
  {
    var rest := ChainOf(c.superclass);
    assert ChainOf(Some(c)) == [c] + rest;
    assert (done + [c]) + rest == done + ([c] + rest);
    FirstUnreadableAppend(done, ChainOf(Some(c)));
    assert chain[|done|] == c;
    FirstUnreadableAppend(done, [c]);
    FlattenAppend(done, [c]);
    assert Flatten([c]) == Declared(c) + Flatten([]);
  }

  /** The end of a walk over a chain whose classes were all readable. */
  lemma WalkDone(done: seq<Class>, chain: seq<Class>)
    requires FirstUnreadable(done) == |done| && done + ChainOf(None) == chain
    ensures AllFields(chain) == Ok(KeepFirst(Flatten(done)))
  {
    assert done == chain;
  }

  /**
   * `getAllFields`: walk from `clazz` up the superclass chain, adding each
   * declared field unless a field of the same name is already present.
   */
  method GetAllFields(clazz: Option<Class>) returns (r: Result<seq<Field>>)
    ensures r == AllFields(ChainOf(clazz))
  {
    ghost var chain := ChainOf(clazz);
    ghost var done: seq<Class> := [];
    var order: seq<string> := [];
    var entries: map<string, Field> := map[];
    var target := clazz;
    while target.Some?
      invariant done + ChainOf(target) == chain
      invariant FirstUnreadable(done) == |done|
      invariant OrderedMapOf(order, entries, KeepFirst(Flatten(done)))
      decreases target
    {
      var c := target.value;
      WalkStep(done, c, chain);
      if c.declaredFields.Unresolvable? {
        return Err(FieldsUnavailable(c.name, c.declaredFields.missingClass));
      }
      order, entries := PutAbsent(order, entries, c.declaredFields.fields, Flatten(done));
      done := done + [c];
      target := c.superclass;
    }
    WalkDone(done, chain);
    OrderedMapValues(order, entries, KeepFirst(Flatten(done)));
    r := Ok(seq(|order|, i requires 0 <= i < |order| => entries[order[i]]));
  }

  /**
   * `getField`: return the field named exactly `fieldName` declared by the first
   * class of the chain from `clazz` that declares one; a class whose fields cannot
   * be read fails the lookup with the class loader's own error.
   */
  method GetField(clazz: Class, fieldName: string) returns (r: Result<Field>)
    ensures match Search(ChainOf(Some(clazz)), Exact(fieldName))
      case Found(f) => r == Ok(f)
      case NotFound => r == Err(NoSuchField(fieldName, clazz.name))
      case Unreadable(_, missing) => r == Err(ClassDefNotFound(missing))
    ensures r.Ok? ==> r.value.name == fieldName
  {
    ghost var chain := ChainOf(Some(clazz));
    var resultField: Option<Field> := None;
    var target := Some(clazz);
    while target.Some?
      invariant resultField.None?
      invariant Search(chain, Exact(fieldName)) == Search(ChainOf(target), Exact(fieldName))
      decreases target
    {
      var c := target.value;
      assert ChainOf(target) == [c] + ChainOf(c.superclass);
      match LookupIn(c, Exact(fieldName)) {
        case Found(f) =>
          resultField := Some(f);
          break;
        case NotFound =>
          target := c.superclass;
        case Unreadable(_, missing) =>
          return Err(ClassDefNotFound(missing));
      }
    }
    if resultField.None? {
      return Err(NoSuchField(fieldName, clazz.name));
    }
    r := Ok(resultField.value);
  }
}
