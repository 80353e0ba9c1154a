/** Discovery mode: the column names a record flattens to (`get_names`) and
    the running, duplicate-free column set they are merged into
    (`merge_vecs`). */
module Schema {
  import opened Basics
  import opened Json

  /** The prefix `get_names` recurses with for a nested object at `key`:
      `key.` at the top, `pfx.key.` below it. Since every non-empty prefix
      already ends in a dot, the second form puts two dots in a row. */
  function ChildPrefix(pfx: string, key: string): string
  {
    if pfx == "" then key + "." else pfx + "." + key + "."
  }

  /** The names of an array leaf at base `base` (= prefix + key) with `n`
      elements: `base_0`, ..., `base_(n-1)`. */
  function ArrayNames(base: string, n: nat): seq<string>
  {
    seq(n, i requires 0 <= i < n => base + "_" + NatToString(i))
  }

  /** The names a value contributes under prefix `pfx`: nothing unless it is
      an object, whose entries contribute in order. */
  function Names(pfx: string, v: Value): seq<string>
    decreases v, 1, 0
  {
    if v.Object? then NamesUpTo(pfx, v, |v.entries|) else []
  }

  /** The names of the first `n` entries of object `obj`. */
  function NamesUpTo(pfx: string, obj: Value, n: nat): seq<string>
    requires obj.Object? && n <= |obj.entries|
    decreases obj, 0, n
  {
    if n == 0 then []
    else
      var (key, val) := obj.entries[n - 1];
      NamesUpTo(pfx, obj, n - 1) +
        if val.Array? then ArrayNames(pfx + key, |val.items|)
        else if val.Object? then Names(ChildPrefix(pfx, key), val)
        else [pfx + key]
  }

  /** `get_names`: the loop over the entries pushes one name per scalar, one
      per array element (never looking inside the elements), and appends the
      names of a nested object found by recursion. */
  method GetNames(pfx: string, obj: Value) returns (ret: seq<string>)
    ensures ret == Names(pfx, obj)
    decreases obj
  {
    ret := [];
    if !obj.Object? {
      return;
    }
    var n := 0;
    while n < |obj.entries|
      invariant 0 <= n <= |obj.entries|
      invariant ret == NamesUpTo(pfx, obj, n)
    {
      var (key, val) := obj.entries[n];
      if val.Array? {
        var x := 0;
        while x < |val.items|
          invariant 0 <= x <= |val.items|
          invariant ret == NamesUpTo(pfx, obj, n) + ArrayNames(pfx + key, x)
        {
          ret := ret + [pfx + key + "_" + NatToString(x)];
          x := x + 1;
        }
        n := n + 1;
        continue;
      }
      if val.Object? {
        var p := if pfx == "" then key + "." else pfx + "." + key + ".";
        var vals := GetNames(p, val);
        ret := ret + vals;
        n := n + 1;
        continue;
      }
      ret := ret + [pfx + key];
      n := n + 1;
    }
  }

  /** The names of the first `n` entries depend on those entries only. */
  lemma {:induction false} NamesUpToDependsOnPrefix(pfx: string, o1: Value, o2: Value, n: nat)
    requires o1.Object? && o2.Object? && n <= |o1.entries| && n <= |o2.entries|
    requires o1.entries[..n] == o2.entries[..n]
    ensures NamesUpTo(pfx, o1, n) == NamesUpTo(pfx, o2, n)
  {
    if n > 0 {
      assert o1.entries[..n - 1] == o1.entries[..n][..n - 1];
      assert o2.entries[..n - 1] == o2.entries[..n][..n - 1];
      assert o1.entries[n - 1] == o1.entries[..n][n - 1];
      assert o2.entries[n - 1] == o2.entries[..n][n - 1];
      NamesUpToDependsOnPrefix(pfx, o1, o2, n - 1);
    }
  }

  /** Entry order: the names of an object are the names of its first entries
      followed by the names of the rest. */
  lemma {:induction false} NamesConcat(pfx: string, es1: seq<(string, Value)>, es2: seq<(string, Value)>)
    ensures Names(pfx, Object(es1 + es2)) == Names(pfx, Object(es1)) + Names(pfx, Object(es2))
  {
    NamesConcatUpTo(pfx, es1, es2, |es2|);
  }

  lemma {:induction false} NamesConcatUpTo(pfx: string, es1: seq<(string, Value)>, es2: seq<(string, Value)>, m: nat)
    requires m <= |es2|
    ensures NamesUpTo(pfx, Object(es1 + es2), |es1| + m)
         == Names(pfx, Object(es1)) + NamesUpTo(pfx, Object(es2), m)
  {
    if m == 0 {
      assert (es1 + es2)[..|es1|] == es1[..|es1|];
      NamesUpToDependsOnPrefix(pfx, Object(es1 + es2), Object(es1), |es1|);
    } else {
      NamesConcatUpTo(pfx, es1, es2, m - 1);
      assert (es1 + es2)[|es1| + m - 1] == es2[m - 1];
    }
  }

  /** A scalar at `key` contributes exactly the one name `pfx + key`. */
  lemma ScalarNames(pfx: string, key: string, v: Value)
    requires IsScalar(v)
    ensures Names(pfx, Object([(key, v)])) == [pfx + key]
  {
    assert NamesUpTo(pfx, Object([(key, v)]), 0) == [];
  }

  /** An array of length N at `key` contributes exactly N names
      `pfx + key + "_" + i`, for i = 0 .. N-1 in increasing order, whatever
      the elements are. */
  lemma ArrayEntryNames(pfx: string, key: string, items: seq<Value>)
    ensures |Names(pfx, Object([(key, Array(items))]))| == |items|
    ensures forall i :: 0 <= i < |items| ==>
              Names(pfx, Object([(key, Array(items))]))[i] == pfx + key + "_" + NatToString(i)
  {
    assert NamesUpTo(pfx, Object([(key, Array(items))]), 0) == [];
  }

  /** A nested object contributes the names of its own entries under prefix
      `key.` at the top level and `pfx.key.` below it. */
  lemma NestedNames(pfx: string, key: string, inner: seq<(string, Value)>)
    ensures Names(pfx, Object([(key, Object(inner))])) == Names(ChildPrefix(pfx, key), Object(inner))
  {
    assert NamesUpTo(pfx, Object([(key, Object(inner))]), 0) == [];
  }

  /** Two levels down the prefix carries a double dot: the names of
      `{a: {b: {...}}}` are those of the innermost object under `a..b.`. */
  lemma DoubleDotAtDepthTwo(a: string, b: string, inner: seq<(string, Value)>)
    ensures Names("", Object([(a, Object([(b, Object(inner))]))]))
         == Names(a + ".." + b + ".", Object(inner))
  {
    NestedNames("", a, [(b, Object(inner))]);
    NestedNames(a + ".", b, inner);
    assert ChildPrefix(a + ".", b) == a + ".." + b + ".";
  }

  /** The naming `construct_obj` looks names up with, which is evidently
      the intended one: a nested object at `key` under `pfx` always recurses
      with `pfx + key + "."`, so paths have single dots at every depth. */
  function CorrectedNames(pfx: string, v: Value): seq<string>
    decreases v, 1, 0
  {
    if v.Object? then CorrectedNamesUpTo(pfx, v, |v.entries|) else []
  }

  function CorrectedNamesUpTo(pfx: string, obj: Value, n: nat): seq<string>
    requires obj.Object? && n <= |obj.entries|
    decreases obj, 0, n
  {
    if n == 0 then []
    else
      var (key, val) := obj.entries[n - 1];
      CorrectedNamesUpTo(pfx, obj, n - 1) +
        if val.Array? then ArrayNames(pfx + key, |val.items|)
        else if val.Object? then CorrectedNames(pfx + key + ".", val)
        else [pfx + key]
  }

  /** An object none of whose entries is an object. */
  predicate Flat(v: Value)
  {
    v.Object? ==> forall i :: 0 <= i < |v.entries| ==> !v.entries[i].1.Object?
  }

  /** A record with no object inside a nested object: objects occur at most
      one level below the top. */
  predicate Shallow(rec: Value)
  {
    rec.Object? ==> forall i :: 0 <= i < |rec.entries| ==> Flat(rec.entries[i].1)
  }

  lemma {:induction false} FlatNamesAgree(pfx: string, obj: Value, n: nat)
    requires obj.Object? && n <= |obj.entries| && Flat(obj)
    ensures NamesUpTo(pfx, obj, n) == CorrectedNamesUpTo(pfx, obj, n)
  {
    if n > 0 {
      FlatNamesAgree(pfx, obj, n - 1);
    }
  }

  lemma {:induction false} ShallowNamesAgreeUpTo(rec: Value, n: nat)
    requires rec.Object? && n <= |rec.entries| && Shallow(rec)
    ensures NamesUpTo("", rec, n) == CorrectedNamesUpTo("", rec, n)
  {
    if n > 0 {
      ShallowNamesAgreeUpTo(rec, n - 1);
      var (key, val) := rec.entries[n - 1];
      assert "" + key == key;
      if val.Object? {
        assert Flat(rec.entries[n - 1].1);
        FlatNamesAgree(key + ".", val, |val.entries|);
      }
    }
  }

  /** As long as no object sits inside a nested object, `get_names` and the
      intended naming agree, so the double dot never shows. */
  lemma ShallowNamesAgree(rec: Value)
    requires Shallow(rec)
    ensures Names("", rec) == CorrectedNames("", rec)
  {
    if rec.Object? {
      ShallowNamesAgreeUpTo(rec, |rec.entries|);
    }
  }

  // ---------------------------------------------------------------------
  // merge_vecs

  /** The column set after merging `v2` into `v1`: each name of `v2` not yet
      present is appended, in the order `v2` lists them. */
  function Merge(v1: seq<string>, v2: seq<string>): seq<string>
    decreases |v2|
  {
    if v2 == [] then v1
    else
      var m := Merge(v1, v2[..|v2| - 1]);
      var x := v2[|v2| - 1];
      if x in m then m else m + [x]
  }

  /** `merge_vecs`: starts from `vec1` and pushes each element of `vec2` that
      the growing result does not contain yet. */
  method MergeVecs(vec1: seq<string>, vec2: seq<string>) returns (ret: seq<string>)
    ensures ret == Merge(vec1, vec2)
  {
    ret := vec1;
    for k := 0 to |vec2|
      invariant ret == Merge(vec1, vec2[..k])
    {
      assert vec2[..k + 1][..k] == vec2[..k];
      var x := vec2[k];
      if x !in ret {
        ret := ret + [x];
      }
    }
    assert vec2[..|vec2|] == vec2;
  }

  /** `vec1` is an unchanged prefix of the result; at most |vec2| names are
      added; every added name comes from `vec2` and was not in `vec1`. */
  lemma {:induction false} MergeExtends(v1: seq<string>, v2: seq<string>)
    ensures |v1| <= |Merge(v1, v2)| <= |v1| + |v2|
    ensures Merge(v1, v2)[..|v1|] == v1
    ensures forall i :: |v1| <= i < |Merge(v1, v2)| ==> Merge(v1, v2)[i] in v2 && Merge(v1, v2)[i] !in v1
  {
    if v2 != [] {
      var v2' := v2[..|v2| - 1];
      MergeExtends(v1, v2');
      var m := Merge(v1, v2');
      if v2[|v2| - 1] !in m {
        var mx := m + [v2[|v2| - 1]];
        assert mx[..|v1|] == m[..|v1|];
        forall i | |v1| <= i < |mx|
          ensures mx[i] in v2
        {
          if i < |m| {
            assert m[i] in v2';
          }
        }
        assert m[..|v1|] == v1;
        assert v2[|v2| - 1] !in v1 by {
          forall y | y in v1 ensures y in m {
            var j :| 0 <= j < |v1| && v1[j] == y;
            assert m[j] == y;
          }
        }
      } else {
        forall i | |v1| <= i < |m| ensures m[i] in v2 {
          assert m[i] in v2';
        }
      }
    }
  }

  /** The result holds exactly the names of `v1` and of `v2`. */
  lemma {:induction false} MergeMembers(v1: seq<string>, v2: seq<string>, x: string)
    ensures x in Merge(v1, v2) <==> x in v1 || x in v2
  {
    if v2 != [] {
      var v2' := v2[..|v2| - 1];
      MergeMembers(v1, v2', x);
      assert v2 == v2' + [v2[|v2| - 1]];
    }
  }

  /** A duplicate-free column set stays duplicate-free. */
  lemma {:induction false} MergeNoDup(v1: seq<string>, v2: seq<string>)
    requires NoDup(v1)
    ensures NoDup(Merge(v1, v2))
  {
    if v2 != [] {
      MergeNoDup(v1, v2[..|v2| - 1]);
    }
  }

  /** Merging names that are all present already changes nothing; in
      particular merging a set into itself, or merging the same names twice,
      is a no-op. */
  lemma {:induction false} MergeAbsorbs(v1: seq<string>, v2: seq<string>)
    requires forall x :: x in v2 ==> x in v1
    ensures Merge(v1, v2) == v1
  {
    if v2 != [] {
      var v2' := v2[..|v2| - 1];
      forall x | x in v2' ensures x in v1 {
        assert x in v2;
      }
      MergeAbsorbs(v1, v2');
      assert v2[|v2| - 1] in v2;
    }
  }

  lemma MergeIdempotent(v1: seq<string>, v2: seq<string>)
    ensures Merge(v1, v1) == v1
    ensures Merge(Merge(v1, v2), v2) == Merge(v1, v2)
  {
    MergeAbsorbs(v1, v1);
    forall x | x in v2 ensures x in Merge(v1, v2) {
      MergeMembers(v1, v2, x);
    }
    MergeAbsorbs(Merge(v1, v2), v2);
  }

  /** Merging in two batches is merging their concatenation: the order in
      which names are offered is all that matters, not how they are grouped. */
  lemma {:induction false} MergeAppend(v: seq<string>, a: seq<string>, b: seq<string>)
    ensures Merge(Merge(v, a), b) == Merge(v, a + b)
    decreases |b|
  {
    if b == [] {
      assert a + b == a;
    } else {
      var b' := b[..|b| - 1];
      MergeAppend(v, a, b');
      assert (a + b)[..|a + b| - 1] == a + b';
      assert (a + b)[|a + b| - 1] == b[|b| - 1];
    }
  }

  /** First-seen order: the names appended to `v1` appear in the order of
      their first occurrence in `v2`. */
  lemma {:induction false} MergeFirstSeenOrder(v1: seq<string>, v2: seq<string>, i: nat, j: nat)
    requires |v1| <= i < j < |Merge(v1, v2)|
    ensures Position(v2, Merge(v1, v2)[i]).Some? && Position(v2, Merge(v1, v2)[j]).Some?
    ensures Position(v2, Merge(v1, v2)[i]).value < Position(v2, Merge(v1, v2)[j]).value
  {
    MergeExtends(v1, v2);
    var v2' := v2[..|v2| - 1];
    var m := Merge(v1, v2');
    var x := v2[|v2| - 1];
    MergeExtends(v1, v2');
    assert v2 == v2' + [x];
    if x in m {
      MergeFirstSeenOrder(v1, v2', i, j);
      PositionInPrefix(v2', x, m[i]);
      PositionInPrefix(v2', x, m[j]);
    } else if j < |m| {
      MergeFirstSeenOrder(v1, v2', i, j);
      PositionInPrefix(v2', x, m[i]);
      PositionInPrefix(v2', x, m[j]);
    } else {
      assert m[i] in v2';
      PositionInPrefix(v2', x, m[i]);
      assert x !in v2' by {
        if x in v2' {
          MergeMembers(v1, v2', x);
        }
      }
      PositionUnique(v2, x, |v2'|);
    }
  }

  lemma PositionInPrefix(s: seq<string>, x: string, y: string)
    requires y in s
    ensures Position(s + [x], y) == Position(s, y)
  {
    var k := Position(s, y).value;
    assert (s + [x])[..k] == s[..k];
    PositionUnique(s + [x], y, k);
  }
}
