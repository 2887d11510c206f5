/** `permission.normalize`: a list of permission keys is copied, sorted, and compacted in place. */
module KeyLists {
  import opened Foundation

  /** The byte order that `sort.Strings` sorts by. */
  predicate LessEq(x: Bytes, y: Bytes) {
    x == [] || (y != [] && (x[0] < y[0] || (x[0] == y[0] && LessEq(x[1..], y[1..]))))
  }

  /** The texts agree before position `k`, where the first has the smaller byte. */
  predicate SmallerAt(x: Bytes, y: Bytes, k: nat) {
    k < |x| && k < |y| && x[k] < y[k] && x[..k] == y[..k]
  }

  /** One text comes before another if it is a prefix of it or has the smaller byte where they first differ. */
  lemma {:induction false} ByteOrder(x: Bytes, y: Bytes)
    ensures LessEq(x, y) <==> x <= y || exists k: nat :: SmallerAt(x, y, k)
  {
    if x != [] && y != [] {
      if x[0] == y[0] {
        ByteOrder(x[1..], y[1..]);
        assert x == [x[0]] + x[1..] && y == [y[0]] + y[1..];
        assert x <= y <==> x[1..] <= y[1..];
        forall k: nat
          ensures SmallerAt(x[1..], y[1..], k) <==> SmallerAt(x, y, k + 1)
        {
          SmallerLater(x, y, k);
        }
        if k: nat :| SmallerAt(x, y, k) {
          assert k > 0 && SmallerAt(x[1..], y[1..], k - 1);
        }
      } else if x[0] < y[0] {
        assert SmallerAt(x, y, 0);
      } else {
        forall k: nat | 0 < k < |x| && k < |y|
          ensures x[..k] != y[..k]
        {
          assert x[..k][0] == x[0] && y[..k][0] == y[0];
        }
      }
    }
  }

  lemma {:induction false} SmallerLater(x: Bytes, y: Bytes, k: nat)
    requires x != [] && y != [] && x[0] == y[0]
    ensures SmallerAt(x[1..], y[1..], k) <==> SmallerAt(x, y, k + 1)
  {
    if k + 1 < |x| && k + 1 < |y| {
      assert x[..k + 1] == [x[0]] + x[1..][..k] && y[..k + 1] == [y[0]] + y[1..][..k];
    }
  }

  lemma {:induction false} Antisymmetric(x: Bytes, y: Bytes)
    requires LessEq(x, y) && LessEq(y, x)
    ensures x == y
  {
    if x != [] {
      Antisymmetric(x[1..], y[1..]);
      assert x == [x[0]] + x[1..] && y == [y[0]] + y[1..];
    }
  }

  lemma {:induction false} Total(x: Bytes, y: Bytes)
    ensures LessEq(x, y) || LessEq(y, x)
  {
    if x != [] && y != [] && x[0] == y[0] {
      Total(x[1..], y[1..]);
    }
  }

  lemma {:induction false} Transitive(x: Bytes, y: Bytes, z: Bytes)
    requires LessEq(x, y) && LessEq(y, z)
    ensures LessEq(x, z)
  {
    if x != [] && x[0] == y[0] == z[0] {
      Transitive(x[1..], y[1..], z[1..]);
    }
  }

  predicate Sorted(s: seq<Bytes>) {
    forall i, j :: 0 <= i < j < |s| ==> LessEq(s[i], s[j])
  }

  /** Sorted without repetition. */
  predicate StrictlySorted(s: seq<Bytes>) {
    forall i, j :: 0 <= i < j < |s| ==> LessEq(s[i], s[j]) && s[i] != s[j]
  }

  // ---- Sorting, which the source leaves to its library ----

  function Insert(x: Bytes, s: seq<Bytes>): (r: seq<Bytes>) {
    if s == [] || LessEq(x, s[0]) then [x] + s else [s[0]] + Insert(x, s[1..])
  }

  function Sort(s: seq<Bytes>): (r: seq<Bytes>) {
    if s == [] then [] else Insert(s[0], Sort(s[1..]))
  }

  lemma {:induction false} InsertMembers(x: Bytes, s: seq<Bytes>)
    ensures multiset(Insert(x, s)) == multiset([x]) + multiset(s)
  {
    if s != [] {
      assert s == [s[0]] + s[1..];
      InsertMembers(x, s[1..]);
    }
  }

  lemma {:induction false} SortedCons(x: Bytes, s: seq<Bytes>)
    requires Sorted(s) && forall y :: y in s ==> LessEq(x, y)
    ensures Sorted([x] + s)
  {
    forall i, j | 0 <= i < j < |[x] + s|
      ensures LessEq(([x] + s)[i], ([x] + s)[j])
    {
      assert s[j - 1] in s;
    }
  }

  lemma {:induction false} InsertSorted(x: Bytes, s: seq<Bytes>)
    requires Sorted(s)
    ensures Sorted(Insert(x, s))
  {
    if s != [] {
      forall y | y in s
        ensures LessEq(s[0], y)
      {
        Total(y, y);
      }
      if LessEq(x, s[0]) {
        forall y | y in s
          ensures LessEq(x, y)
        {
          Transitive(x, s[0], y);
        }
        SortedCons(x, s);
      } else {
        Total(x, s[0]);
        InsertSorted(x, s[1..]);
        InsertMembers(x, s[1..]);
        forall y | y in Insert(x, s[1..])
          ensures LessEq(s[0], y)
        {
          assert y in multiset(Insert(x, s[1..]));
          assert y == x || y in s[1..];
        }
        SortedCons(s[0], Insert(x, s[1..]));
      }
    }
  }

  lemma {:induction false} SortSorts(s: seq<Bytes>)
    ensures Sorted(Sort(s)) && multiset(Sort(s)) == multiset(s)
  {
    if s != [] {
      SortSorts(s[1..]);
      InsertSorted(s[0], Sort(s[1..]));
      InsertMembers(s[0], Sort(s[1..]));
      assert s == [s[0]] + s[1..];
    }
  }

  // ---- Normal form ----

  /** The non-empty keys of the list, once each, in order; a list in this form is left as it is. */
  method Normalize(keys: seq<Bytes>) returns (result: seq<Bytes>)
    ensures StrictlySorted(result)
    ensures forall key :: key in result <==> key in keys && key != []
    ensures StrictlySorted(keys) && [] !in keys ==> result == keys
  {
    var sorted := Sort(keys);
    SortSorts(keys);
    var copy := new Bytes[|sorted|](i requires 0 <= i < |sorted| => sorted[i]);
    assert copy[..] == sorted;
    var write := Compact(copy);
    result := copy[..write];
    assert forall key :: key in sorted <==> key in multiset(sorted);
    assert forall key :: key in keys <==> key in multiset(keys);
    if StrictlySorted(keys) && [] !in keys {
      NormalFormUnique(result, keys);
    }
  }

  /** The compaction loop: it overwrites the list it is still reading, always behind the reading position. */
  method Compact(a: array<Bytes>) returns (write: nat)
    requires Sorted(a[..])
    modifies a
    ensures write <= a.Length && StrictlySorted(a[..write])
    ensures forall key :: key in a[..write] <==> key in old(a[..]) && key != []
  {
    write := 0;
    ghost var input := a[..];
    for i := 0 to a.Length
      invariant write <= i
      invariant forall j :: i <= j < a.Length ==> a[j] == input[j]
      invariant StrictlySorted(a[..write])
      invariant forall key :: key in a[..write] <==> key in input[..i] && key != []
    {
      var key := a[i];
      assert input[..i + 1] == input[..i] + [key];
      if key == [] || (write > 0 && a[write - 1] == key) {
        assert key != [] ==> a[..write][write - 1] == key;
      } else {
        ghost var before := a[..write];
        StaysSorted(before, input, i);
        a[write] := key;
        write := write + 1;
        assert a[..write] == before + [key];
      }
    }
    assert input[..a.Length] == input;
  }

  lemma {:induction false} StaysSorted(kept: seq<Bytes>, input: seq<Bytes>, i: nat)
    requires i < |input| && Sorted(input) && StrictlySorted(kept)
    requires forall key :: key in kept ==> key in input[..i]
    requires kept == [] || kept[|kept| - 1] != input[i]
    ensures StrictlySorted(kept + [input[i]])
  {
    forall j | 0 <= j < |kept|
      ensures LessEq(kept[j], input[i]) && kept[j] != input[i]
    {
      var last := kept[|kept| - 1];
      assert kept[j] in kept && last in kept;
      var k :| 0 <= k < i && input[k] == kept[j];
      var m :| 0 <= m < i && input[m] == last;
      assert LessEq(last, input[i]);
      if kept[j] == input[i] {
        assert j == |kept| - 1 || LessEq(kept[j], last);
        Antisymmetric(last, input[i]);
      }
    }
  }

  /** A normalized list is determined by its keys, so a fresh list and a cached one of the same keys are the same. */
  lemma {:induction false} NormalFormUnique(s: seq<Bytes>, t: seq<Bytes>)
    requires StrictlySorted(s) && StrictlySorted(t) && forall key :: key in s <==> key in t
    ensures s == t
  {
    assert s != [] ==> s[0] in s;
    assert t != [] ==> t[0] in t;
    if s != [] && t != [] {
      var m, n := |s| - 1, |t| - 1;
      SameLast(s, t);
      assert forall key :: key in s[..m] <==> key in s && key != s[m];
      assert forall key :: key in t[..n] <==> key in t && key != t[n];
      NormalFormUnique(s[..m], t[..n]);
      assert s == s[..m] + [s[m]] && t == t[..n] + [t[n]];
    }
  }

  lemma {:induction false} SameLast(s: seq<Bytes>, t: seq<Bytes>)
    requires s != [] && t != [] && StrictlySorted(s) && StrictlySorted(t)
    requires forall key :: key in s <==> key in t
    ensures s[|s| - 1] == t[|t| - 1]
  {
    var x, y := s[|s| - 1], t[|t| - 1];
    assert x in t && y in s;
    var i :| 0 <= i < |t| && t[i] == x;
    var j :| 0 <= j < |s| && s[j] == y;
    if x != y {
      assert LessEq(x, y) && LessEq(y, x);
      Antisymmetric(x, y);
    }
  }
}
