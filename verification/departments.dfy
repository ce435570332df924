/** The department registry of `loadPeopleFromCsv`: the `LinkedHashMap`
    `departmentsByKey` from a department key to its `Department`, together
    with the `nextDepartmentId` counter. The first sight of a key creates
    `Department(nextId++, rawName)`; every later sight of the same key gets
    that same department back.

    The loader's key is `normalizeDepartmentName` (`Text.Normalize`); the
    registry works, and everything here is proved, for any key function
    `key`, which the loader instantiates with `Normalize`. */
module Departments {

  /** `Main.Department`. */
  datatype Department = Department(id: int, name: string)

  /** `departmentsByKey` (a map plus its insertion order) and `nextDepartmentId`. */
  datatype Registry = Registry(byKey: map<string, Department>, order: seq<string>, nextId: int)

  /** The registry at the start of every load. */
  const EmptyRegistry: Registry := Registry(map[], [], 1)

  /** What the loader keeps true of its registry: the keys in insertion order
      are distinct and exactly the map's keys, the department under the i-th
      key has id i + 1, the counter is one past the last id, and every key is
      the key of its department's name. */
  ghost predicate Valid(key: string -> string, reg: Registry) {
    && reg.nextId == |reg.order| + 1
    && (forall i, j :: 0 <= i < j < |reg.order| ==> reg.order[i] != reg.order[j])
    && (forall k :: k in reg.byKey <==> k in reg.order)
    && (forall i :: 0 <= i < |reg.order| ==> reg.order[i] in reg.byKey && reg.byKey[reg.order[i]].id == i + 1)
    && (forall k :: k in reg.byKey ==> key(reg.byKey[k].name) == k)
  }

  /** The department-lookup block of the loader loop: look the key of the
      raw name up and, on a miss, register a new department under it. */
  function Resolve(key: string -> string, reg: Registry, raw: string): (res: (Registry, Department))
    ensures key(raw) in res.0.byKey && res.0.byKey[key(raw)] == res.1
    ensures forall k :: k in reg.byKey ==> k in res.0.byKey && res.0.byKey[k] == reg.byKey[k]
    ensures res.0.byKey.Keys == reg.byKey.Keys + {key(raw)}
    ensures key(raw) in reg.byKey ==> res.0 == reg
    ensures key(raw) !in reg.byKey ==> res.1.id == reg.nextId && res.1.name == raw
    ensures Valid(key, reg) ==> Valid(key, res.0)
    ensures Valid(key, reg) && key(raw) !in reg.byKey ==> |res.0.order| == |reg.order| + 1
  {
    var k := key(raw);
    if k in reg.byKey then (reg, reg.byKey[k])
    else
      var dep := Department(reg.nextId, raw);
      var reg' := Registry(reg.byKey[k := dep], reg.order + [k], reg.nextId + 1);
      assert Valid(key, reg) ==> Valid(key, reg') by {
        if Valid(key, reg) {
          assert reg'.order[|reg.order|] == k;
        }
      }
      (reg', dep)
  }

  /** Resolving a whole column of department names, one after another, from
      the empty registry: the final registry and the department each row got. */
  function ResolveAll(key: string -> string, names: seq<string>): (res: (Registry, seq<Department>))
    ensures |res.1| == |names|
  {
    if names == [] then (EmptyRegistry, [])
    else
      var prev := ResolveAll(key, names[..|names| - 1]);
      var next := Resolve(key, prev.0, names[|names| - 1]);
      (next.0, prev.1 + [next.1])
  }

  /** Resolving one more name continues from the registry the earlier names left. */
  lemma ResolveAllAppend(key: string -> string, names: seq<string>, x: string)
    ensures ResolveAll(key, names + [x]).0 == Resolve(key, ResolveAll(key, names).0, x).0
    ensures ResolveAll(key, names + [x]).1 == ResolveAll(key, names).1 + [Resolve(key, ResolveAll(key, names).0, x).1]
  {
    assert (names + [x])[..|names|] == names;
  }

  /** The registry after any column of names is valid. */
  lemma {:induction false} ResolveAllValid(key: string -> string, names: seq<string>)
    ensures Valid(key, ResolveAll(key, names).0)
    decreases |names|
  {
    if names != [] {
      ResolveAllValid(key, names[..|names| - 1]);
    }
  }

  /** The distinct keys among `names`. */
  function KeySet(key: string -> string, names: seq<string>): set<string> {
    set i | 0 <= i < |names| :: key(names[i])
  }

  /** The first row from `l` on whose key is that of row `i`. */
  function FirstFrom(key: string -> string, names: seq<string>, i: int, l: int): (f: nat)
    requires 0 <= l <= i < |names|
    ensures l <= f <= i && key(names[f]) == key(names[i])
    ensures forall m :: l <= m < f ==> key(names[m]) != key(names[i])
    decreases i - l
  {
    if key(names[l]) == key(names[i]) then l else FirstFrom(key, names, i, l + 1)
  }

  /** Where the key of row `i` first occurs among the rows. */
  function FirstOccurrence(key: string -> string, names: seq<string>, i: int): (f: nat)
    requires 0 <= i < |names|
    ensures f <= i && key(names[f]) == key(names[i])
    ensures forall l :: 0 <= l < f ==> key(names[l]) != key(names[i])
  {
    FirstFrom(key, names, i, 0)
  }

  /** The department row `i` must get: the one made at its key's first
      occurrence, numbered after the distinct keys met before that. */
  function FirstSeenDepartment(key: string -> string, names: seq<string>, i: int): Department
    requires 0 <= i < |names|
  {
    var f := FirstOccurrence(key, names, i);
    Department(|KeySet(key, names[..f])| + 1, names[f])
  }

  /** The facts `ResolveAllSpec` carries from one row to the next. */
  ghost predicate Resolved(key: string -> string, names: seq<string>, reg: Registry, ds: seq<Department>) {
    && |ds| == |names|
    && reg.byKey.Keys == KeySet(key, names)
    && |reg.order| == |KeySet(key, names)|
    && (forall i {:trigger ds[i]} :: 0 <= i < |names| ==>
          key(names[i]) in reg.byKey && ds[i] == reg.byKey[key(names[i])])
    && (forall i {:trigger ds[i]} :: 0 <= i < |names| ==> ds[i] == FirstSeenDepartment(key, names, i))
  }

  lemma KeySetAppend(key: string -> string, names: seq<string>, x: string)
    ensures KeySet(key, names + [x]) == KeySet(key, names) + {key(x)}
  {
    var s := names + [x];
    assert forall i :: 0 <= i < |names| ==> s[i] == names[i];
    assert s[|names|] == x;
  }

  /** A row's first occurrence is the first index with its key. */
  lemma FirstOccurrenceIs(key: string -> string, names: seq<string>, i: int, f: int)
    requires 0 <= f <= i < |names| && key(names[f]) == key(names[i])
    requires forall l :: 0 <= l < f ==> key(names[l]) != key(names[i])
    ensures FirstOccurrence(key, names, i) == f
  {
  }

  lemma FirstOccurrenceAppend(key: string -> string, names: seq<string>, x: string, i: int)
    requires 0 <= i < |names|
    ensures FirstOccurrence(key, names + [x], i) == FirstOccurrence(key, names, i)
    ensures FirstSeenDepartment(key, names + [x], i) == FirstSeenDepartment(key, names, i)
  {
    var s := names + [x];
    var f := FirstOccurrence(key, names, i);
    assert forall l :: 0 <= l <= i ==> s[l] == names[l];
    FirstOccurrenceIs(key, s, i, f);
    assert s[..f] == names[..f];
  }

  lemma ResolveNewKey(key: string -> string, names: seq<string>, x: string, reg: Registry, ds: seq<Department>)
    requires Valid(key, reg) && Resolved(key, names, reg, ds)
    requires key(x) !in reg.byKey
    ensures FirstSeenDepartment(key, names + [x], |names|) == Resolve(key, reg, x).1
  {
    var s := names + [x];
    assert forall l :: 0 <= l < |names| ==> s[l] == names[l];
    assert forall l :: 0 <= l < |names| ==> key(s[l]) != key(x) by {
      forall l | 0 <= l < |names| ensures key(s[l]) != key(x) {
        assert key(names[l]) in KeySet(key, names);
      }
    }
    FirstOccurrenceIs(key, s, |names|, |names|);
    assert s[..|names|] == names;
  }

  lemma ResolveOldKey(key: string -> string, names: seq<string>, x: string, reg: Registry, ds: seq<Department>)
    requires Resolved(key, names, reg, ds)
    requires key(x) in reg.byKey
    ensures FirstSeenDepartment(key, names + [x], |names|) == Resolve(key, reg, x).1
  {
    var s := names + [x];
    assert key(x) in KeySet(key, names);
    var l :| 0 <= l < |names| && key(names[l]) == key(x);
    var f := FirstOccurrence(key, names, l);
    assert forall m :: 0 <= m < |names| ==> s[m] == names[m];
    FirstOccurrenceIs(key, s, |names|, f);
    FirstOccurrenceAppend(key, names, x, l);
    assert FirstSeenDepartment(key, s, |names|) == FirstSeenDepartment(key, s, l);
    assert ds[l] == reg.byKey[key(x)];
  }

  /** One more row keeps `Resolved`. */
  lemma ResolveStep(key: string -> string, names: seq<string>, x: string, reg: Registry, ds: seq<Department>)
    requires Valid(key, reg) && Resolved(key, names, reg, ds)
    ensures Resolved(key, names + [x], Resolve(key, reg, x).0, ds + [Resolve(key, reg, x).1])
  {
    KeySetAppend(key, names, x);
    ResolveStepCount(key, names, x, reg, ds);
    ResolveStepRows(key, names, x, reg, ds);
  }

  lemma ResolveStepCount(key: string -> string, names: seq<string>, x: string, reg: Registry, ds: seq<Department>)
    requires Valid(key, reg) && Resolved(key, names, reg, ds)
    requires KeySet(key, names + [x]) == KeySet(key, names) + {key(x)}
    ensures |Resolve(key, reg, x).0.order| == |KeySet(key, names + [x])|
  {
    if key(x) !in reg.byKey {
      assert |KeySet(key, names + [x])| == |KeySet(key, names)| + 1;
    }
  }

  lemma ResolveStepRows(key: string -> string, names: seq<string>, x: string, reg: Registry, ds: seq<Department>)
    requires Valid(key, reg) && Resolved(key, names, reg, ds)
    ensures forall i {:trigger (ds + [Resolve(key, reg, x).1])[i]} :: 0 <= i < |names| + 1 ==>
      && key((names + [x])[i]) in Resolve(key, reg, x).0.byKey
      && (ds + [Resolve(key, reg, x).1])[i] == Resolve(key, reg, x).0.byKey[key((names + [x])[i])]
      && (ds + [Resolve(key, reg, x).1])[i] == FirstSeenDepartment(key, names + [x], i)
  {
    forall i | 0 <= i < |names| + 1
      ensures key((names + [x])[i]) in Resolve(key, reg, x).0.byKey
      ensures (ds + [Resolve(key, reg, x).1])[i] == Resolve(key, reg, x).0.byKey[key((names + [x])[i])]
      ensures (ds + [Resolve(key, reg, x).1])[i] == FirstSeenDepartment(key, names + [x], i)
    {
      ResolveStepRow(key, names, x, reg, ds, i);
    }
  }

  lemma ResolveStepRow(key: string -> string, names: seq<string>, x: string, reg: Registry, ds: seq<Department>, i: int)
    requires Valid(key, reg) && Resolved(key, names, reg, ds) && 0 <= i <= |names|
    ensures key((names + [x])[i]) in Resolve(key, reg, x).0.byKey
    ensures (ds + [Resolve(key, reg, x).1])[i] == Resolve(key, reg, x).0.byKey[key((names + [x])[i])]
    ensures (ds + [Resolve(key, reg, x).1])[i] == FirstSeenDepartment(key, names + [x], i)
  {
    if i < |names| {
      ResolveStepOld(key, names, x, reg, ds, i);
    } else {
      ResolveStepLast(key, names, x, reg, ds);
    }
  }

  /** The added row gets the department of its key's first occurrence. */
  lemma ResolveStepLast(key: string -> string, names: seq<string>, x: string, reg: Registry, ds: seq<Department>)
    requires Valid(key, reg) && Resolved(key, names, reg, ds)
    ensures key((names + [x])[|names|]) in Resolve(key, reg, x).0.byKey
    ensures (ds + [Resolve(key, reg, x).1])[|names|] == Resolve(key, reg, x).0.byKey[key((names + [x])[|names|])]
    ensures (ds + [Resolve(key, reg, x).1])[|names|] == FirstSeenDepartment(key, names + [x], |names|)
  {
    assert (names + [x])[|names|] == x;
    assert (ds + [Resolve(key, reg, x).1])[|names|] == Resolve(key, reg, x).1;
    if key(x) in reg.byKey {
      ResolveOldKey(key, names, x, reg, ds);
    } else {
      ResolveNewKey(key, names, x, reg, ds);
    }
  }

  /** An earlier row keeps its department when a row is added. */
  lemma ResolveStepOld(key: string -> string, names: seq<string>, x: string, reg: Registry, ds: seq<Department>, i: int)
    requires Resolved(key, names, reg, ds) && 0 <= i < |names|
    ensures key((names + [x])[i]) in Resolve(key, reg, x).0.byKey
    ensures (ds + [Resolve(key, reg, x).1])[i] == Resolve(key, reg, x).0.byKey[key((names + [x])[i])]
    ensures (ds + [Resolve(key, reg, x).1])[i] == FirstSeenDepartment(key, names + [x], i)
  {
    assert (names + [x])[i] == names[i];
    assert (ds + [Resolve(key, reg, x).1])[i] == ds[i];
    FirstOccurrenceAppend(key, names, x, i);
  }

  /** The registry's keys are the distinct keys seen, it holds one department
      per key, each row got the department stored under its key, and that
      department was made at the key's first occurrence: its id is one more
      than the number of distinct keys before it, its name the raw name seen
      there. */
  lemma {:induction false} ResolveAllSpec(key: string -> string, names: seq<string>)
    ensures Resolved(key, names, ResolveAll(key, names).0, ResolveAll(key, names).1)
    decreases |names|
  {
    if names == [] {
      assert KeySet(key, names) == {};
    } else {
      var prefix := names[..|names| - 1];
      var x := names[|names| - 1];
      assert names == prefix + [x];
      ResolveAllSpec(key, prefix);
      ResolveAllValid(key, prefix);
      ResolveStep(key, prefix, x, ResolveAll(key, prefix).0, ResolveAll(key, prefix).1);
    }
  }

  /** The ids a registry hands out. */
  function Ids(reg: Registry): set<int> {
    set k | k in reg.byKey :: reg.byKey[k].id
  }

  /** In a valid registry the ids are exactly 1..n for n departments, one per key. */
  lemma ValidIds(key: string -> string, reg: Registry)
    requires Valid(key, reg)
    ensures forall n :: n in Ids(reg) <==> 1 <= n <= |reg.order|
    ensures forall k1, k2 :: k1 in reg.byKey && k2 in reg.byKey && reg.byKey[k1].id == reg.byKey[k2].id ==> k1 == k2
  {
    forall n | 1 <= n <= |reg.order| ensures n in Ids(reg) {
      var k := reg.order[n - 1];
      assert reg.byKey[k].id == n;
    }
    forall n | n in Ids(reg) ensures 1 <= n <= |reg.order| {
      var k :| k in reg.byKey && reg.byKey[k].id == n;
      var i :| 0 <= i < |reg.order| && reg.order[i] == k;
    }
    forall k1, k2 | k1 in reg.byKey && k2 in reg.byKey && reg.byKey[k1].id == reg.byKey[k2].id
      ensures k1 == k2
    {
      var i :| 0 <= i < |reg.order| && reg.order[i] == k1;
      var j :| 0 <= j < |reg.order| && reg.order[j] == k2;
    }
  }

  /** After a column of names the ids are exactly 1..d for the d distinct keys seen. */
  lemma ResolveAllIds(key: string -> string, names: seq<string>)
    ensures forall n :: n in Ids(ResolveAll(key, names).0) <==> 1 <= n <= |KeySet(key, names)|
  {
    ResolveAllSpec(key, names);
    ResolveAllValid(key, names);
    ValidIds(key, ResolveAll(key, names).0);
  }

  /** The ids of the departments the rows got. */
  function RowIds(ds: seq<Department>): set<int> {
    set j | 0 <= j < |ds| :: ds[j].id
  }

  /** The rows use every id the registry handed out and no other: exactly
      1..d for the d distinct keys seen. */
  lemma ResolveAllRowIds(key: string -> string, names: seq<string>)
    ensures forall n :: n in RowIds(ResolveAll(key, names).1) <==> 1 <= n <= |KeySet(key, names)|
  {
    var res := ResolveAll(key, names);
    ResolveAllSpec(key, names);
    ResolveAllIds(key, names);
    forall n | n in RowIds(res.1) ensures n in Ids(res.0) {
      var j :| 0 <= j < |res.1| && res.1[j].id == n;
      assert res.1[j] == res.0.byKey[key(names[j])];
    }
    forall n | n in Ids(res.0) ensures n in RowIds(res.1) {
      var k :| k in res.0.byKey && res.0.byKey[k].id == n;
      assert k in KeySet(key, names);
      var j :| 0 <= j < |names| && key(names[j]) == k;
      assert res.1[j] == res.0.byKey[k];
    }
  }

  /** Two rows get the same department exactly when their department names
      have the same key. */
  lemma SameDepartmentIffSameKey(key: string -> string, names: seq<string>, i: int, j: int)
    requires 0 <= i < |names| && 0 <= j < |names|
    ensures ResolveAll(key, names).1[i] == ResolveAll(key, names).1[j] <==> key(names[i]) == key(names[j])
  {
    ResolveAllSpec(key, names);
    ResolveAllValid(key, names);
    ValidIds(key, ResolveAll(key, names).0);
  }

  /** The keys of a prefix are among the keys of a longer prefix, and a row
      that is its key's first occurrence brings a key the shorter prefix lacks. */
  lemma KeySetPrefix(key: string -> string, names: seq<string>, i: int, j: int)
    requires 0 <= i < j <= |names|
    requires FirstOccurrence(key, names, i) == i
    ensures KeySet(key, names[..i]) <= KeySet(key, names[..j])
    ensures key(names[i]) in KeySet(key, names[..j]) && key(names[i]) !in KeySet(key, names[..i])
  {
    var a := KeySet(key, names[..i]);
    var b := KeySet(key, names[..j]);
    forall k | k in a ensures k in b {
      var l :| 0 <= l < i && key(names[..i][l]) == k;
      assert names[..j][l] == names[..i][l];
    }
    assert names[..j][i] == names[i];
    assert key(names[i]) in b;
    assert key(names[i]) !in a;
  }

  lemma ProperSubsetSmaller<T>(a: set<T>, b: set<T>, x: T)
    requires a <= b && x in b && x !in a
    ensures |a| < |b|
  {
    var c := b - {x};
    assert |c| == |b| - 1;
    assert c == a + (c - a);
  }

  /** Ids follow first-seen order: a key first met earlier has a smaller id. */
  lemma FirstSeenOrder(key: string -> string, names: seq<string>, i: int, j: int)
    requires 0 <= i < j < |names|
    requires FirstOccurrence(key, names, i) == i && FirstOccurrence(key, names, j) == j
    ensures ResolveAll(key, names).1[i].id < ResolveAll(key, names).1[j].id
  {
    ResolveAllSpec(key, names);
    KeySetPrefix(key, names, i, j);
    ProperSubsetSmaller(KeySet(key, names[..i]), KeySet(key, names[..j]), key(names[i]));
  }
}
