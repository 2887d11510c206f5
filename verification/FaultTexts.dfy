/** What the collected text of a rejected tree says about where its faults are, and when it says it all. */
module FaultTexts {
  import opened Foundation
  import opened Messages
  import opened Violations
  import opened TreeValidation
  import opened Rendering
  import T = Tokens

  type Path = seq<nat>

  // ---- The text as a function of the faults ----

  /** How many steps two paths share from the root. */
  function Common(p: Path, q: Path): (n: nat)
    ensures n <= |p| && n <= |q|
  {
    if p == [] || q == [] || p[0] != q[0] then 0 else 1 + Common(p[1..], q[1..])
  }

  /** The text goes from fault to fault: it names the steps down to the next one, but not the steps up before them. */
  function Spelling(from: Path, faults: seq<Path>): (tokens: seq<T.Token>)
    decreases faults
  {
    if faults == [] then []
    else StepsTo(faults[0][Common(from, faults[0])..]) + Spelling(faults[0], faults[1..])
  }

  lemma {:induction false} SpellingConcat(from: Path, xs: seq<Path>, ys: seq<Path>)
    ensures Spelling(from, xs + ys) == Spelling(from, xs) + Spelling(if xs == [] then from else xs[|xs| - 1], ys)
    decreases xs
  {
    if xs == [] {
      assert xs + ys == ys;
    } else {
      assert (xs + ys)[1..] == xs[1..] + ys;
      SpellingConcat(xs[0], xs[1..], ys);
    }
  }

  lemma {:induction false} SpellingPrefixed(c: nat, from: Path, inner: seq<Path>)
    ensures Spelling([c] + from, Prefixed(c, inner)) == Spelling(from, inner)
    decreases inner
  {
    if inner != [] {
      var head := [c] + inner[0];
      assert Prefixed(c, inner)[0] == head && Prefixed(c, inner)[1..] == Prefixed(c, inner[1..]);
      assert ([c] + from)[1..] == from && head[1..] == inner[0];
      assert head[Common([c] + from, head)..] == inner[0][Common(from, inner[0])..];
      SpellingPrefixed(c, inner[0], inner[1..]);
    }
  }

  lemma {:induction false} SpellingFirst(faults: seq<Path>)
    requires faults != []
    ensures Spelling([], faults) == StepsTo(faults[0]) + Spelling(faults[0], faults[1..])
  {
    assert faults[0][0..] == faults[0];
  }

  lemma {:induction false} StepsInto(c: nat, path: Path)
    ensures StepsTo([c] + path) == [T.Enter(c)] + StepsTo(path)
  {
    assert ([c] + path)[1..] == path;
  }

  lemma {:induction false} SpellingIn(c: nat, inner: seq<Path>)
    requires inner != []
    ensures Spelling([], Prefixed(c, inner)) == [T.Enter(c)] + Spelling([], inner)
  {
    SpellingFirst(Prefixed(c, inner));
    SpellingFirst(inner);
    StepsInto(c, inner[0]);
    assert Prefixed(c, inner)[1..] == Prefixed(c, inner[1..]);
    SpellingPrefixed(c, inner[0], inner[1..]);
  }

  /** Faults to the right of child `c` are spelled as if from the root. */
  lemma {:induction false} SpellingRight(c: nat, p: Path, rest: seq<Path>)
    requires StartFrom(rest, c + 1)
    ensures Spelling([c] + p, rest) == Spelling([], rest)
  {
    if rest != [] {
      assert Common([c] + p, rest[0]) == 0 == Common([], rest[0]);
    }
  }

  lemma {:induction false} SpellingStep(c: nat, inner: seq<Path>, rest: seq<Path>)
    requires StartFrom(rest, c + 1)
    ensures Spelling([], Prefixed(c, inner) + rest)
         == (if Spelling([], inner) == [] then [] else [T.Enter(c)] + Spelling([], inner)) + Spelling([], rest)
  {
    var head := Prefixed(c, inner);
    SpellingConcat([], head, rest);
    if inner != [] {
      SpellingIn(c, inner);
      assert head[|head| - 1] == [c] + inner[|head| - 1];
      SpellingRight(c, inner[|head| - 1], rest);
      assert StepsTo(inner[0][0..]) != [];
    }
  }

  /** The tokens of a tree, and so its text, depend only on its faults. */
  lemma {:induction false} TokensAreSpelling(m: TreeNode)
    ensures Tokens(m) == Spelling([], TypedNils(m))
    decreases m, 0
  {
    SpellingBelow(m.children, 0);
    var below := TypedNilsBelow(m.children, 0);
    if TypedNilAt(m, []) {
      assert TypedNils(m)[0] == [] && TypedNils(m)[1..] == below;
      assert StepsTo([]) == [T.Fault];
    } else {
      assert TypedNils(m) == below;
    }
  }

  lemma {:induction false} SpellingInside(m: Option<TreeNode>)
    ensures TokensIn(m) == Spelling([], TypedNilsIn(m))
    decreases m, 0
  {
    if m.Some? {
      TokensAreSpelling(m.value);
    }
  }

  lemma {:induction false} SpellingBelow(ms: seq<Option<TreeNode>>, from: nat)
    ensures TokensBelow(ms, from) == Spelling([], TypedNilsBelow(ms, from))
    decreases ms, 0
  {
    if ms != [] {
      SpellingInside(ms[0]);
      SpellingBelow(ms[1..], from + 1);
      TypedNilsBelowOrdered(ms[1..], from + 1);
      SpellingStep(from, TypedNilsIn(ms[0]), TypedNilsBelow(ms[1..], from + 1));
    }
  }

  // ---- Pre-order, step by step ----

  lemma {:induction false} PreOrderSplit(p: Path, q: Path)
    requires PreOrder(p, q)
    ensures var n := Common(p, q); n < |q| && p[..n] == q[..n] && (n == |p| || p[n] < q[n])
  {
    if p != [] && p[0] == q[0] {
      PreOrderSplit(p[1..], q[1..]);
      var n := Common(p, q);
      assert p[..n] == [p[0]] + p[1..][..n - 1] && q[..n] == [q[0]] + q[1..][..n - 1];
    }
  }

  lemma {:induction false} PreOrderJoin(p: Path, n: nat, t: Path)
    requires n <= |p| && t != [] && (n == |p| || p[n] < t[0])
    ensures PreOrder(p, p[..n] + t) && Common(p, p[..n] + t) == n
    decreases n
  {
    if n > 0 {
      PreOrderJoin(p[1..], n - 1, t);
      assert (p[..n] + t)[1..] == p[1..][..n - 1] + t;
    } else {
      assert p[..n] + t == t;
    }
  }

  lemma {:induction false} PreOrderTransitive(p: Path, q: Path, r: Path)
    requires PreOrder(p, q) && PreOrder(q, r)
    ensures PreOrder(p, r)
  {
    if p != [] && p[0] == q[0] == r[0] {
      PreOrderTransitive(p[1..], q[1..], r[1..]);
    }
  }

  /** Each path comes after the one before it, the first after `from`. */
  predicate Ascends(from: Path, paths: seq<Path>)
    decreases paths
  {
    paths == [] || (PreOrder(from, paths[0]) && Ascends(paths[0], paths[1..]))
  }

  lemma {:induction false} OrderedAscends(from: Path, paths: seq<Path>)
    requires InPreOrder([from] + paths)
    ensures Ascends(from, paths)
    decreases paths
  {
    if paths != [] {
      var all := [from] + paths;
      assert PreOrder(all[0], all[1]);
      assert [paths[0]] + paths[1..] == all[1..];
      OrderedAscends(paths[0], paths[1..]);
    }
  }

  lemma {:induction false} AscendsOrdered(from: Path, paths: seq<Path>)
    requires Ascends(from, paths)
    ensures InPreOrder([from] + paths)
    decreases paths
  {
    if paths != [] {
      AscendsOrdered(paths[0], paths[1..]);
      var all := [from] + paths;
      assert [paths[0]] + paths[1..] == all[1..];
      forall i, j | 0 <= i < j < |all|
        ensures PreOrder(all[i], all[j])
      {
        if i > 0 {
          assert PreOrder(all[1..][i - 1], all[1..][j - 1]);
        } else if j > 1 {
          assert PreOrder(all[1..][0], all[1..][j - 1]);
          PreOrderTransitive(all[0], all[1], all[j]);
        }
      }
    }
  }

  // ---- Faults the text cannot mistake ----

  /** `q` is below `p`, and its first step from there leads no further right than any step on the way to `p`. */
  predicate OnlyBelow(p: Path, q: Path) {
    p < q && forall x :: x in p ==> q[|p|] <= x
  }

  predicate Unmistakable(faults: seq<Path>) {
    forall i :: 0 <= i < |faults| - 1 ==> OnlyBelow(faults[i], faults[i + 1])
  }

  lemma {:induction false} StepsThenRest(p: Path, q: Path, s: seq<T.Token>, t: seq<T.Token>)
    requires StepsTo(p) + s == StepsTo(q) + t
    ensures p == q && s == t
  {
    var all := StepsTo(p) + s;
    assert all[0] == StepsTo(p)[0] == StepsTo(q)[0];
    if p == [] || q == [] {
      assert s == all[1..] == t;
    } else {
      assert all[1..] == StepsTo(p[1..]) + s == StepsTo(q[1..]) + t;
      StepsThenRest(p[1..], q[1..], s, t);
      assert p == [p[0]] + p[1..] && q == [q[0]] + q[1..];
    }
  }

  lemma {:induction false} NextIsForced(p: Path, q: Path, r: Path)
    requires OnlyBelow(p, q) && PreOrder(p, r) && q[Common(p, q)..] == r[Common(p, r)..]
    ensures q == r
  {
    assert q[..|p|] == p;
    PreOrderJoin(p, |p|, q[|p|..]);
    assert p[..|p|] + q[|p|..] == q;
    PreOrderSplit(p, r);
    var n := Common(p, r);
    assert r[n] == r[n..][0] == q[|p|..][0] == q[|p|];
    assert forall k :: 0 <= k < |p| ==> p[k] in p;
    assert r == r[..n] + r[n..] && q == q[..|p|] + q[|p|..];
  }

  /** Starting from the same place, only one list of faults spells what an unmistakable one does. */
  lemma {:induction false} RestIsForced(from: Path, a: seq<Path>, b: seq<Path>)
    requires Ascends(from, b) && Unmistakable([from] + a) && Spelling(from, a) == Spelling(from, b)
    ensures a == b
    decreases a
  {
    if a != [] && b != [] {
      var all := [from] + a;
      assert OnlyBelow(all[0], all[1]);
      StepsThenRest(a[0][Common(from, a[0])..], b[0][Common(from, b[0])..],
                    Spelling(a[0], a[1..]), Spelling(b[0], b[1..]));
      NextIsForced(from, a[0], b[0]);
      forall i | 0 <= i < |a| - 1
        ensures OnlyBelow(a[i], a[i + 1])
      {
        assert OnlyBelow(all[i + 1], all[i + 2]);
      }
      assert [a[0]] + a[1..] == a;
      RestIsForced(a[0], a[1..], b[1..]);
      assert a == [a[0]] + a[1..] && b == [b[0]] + b[1..];
    }
  }

  lemma {:induction false} SpellingForced(a: seq<Path>, b: seq<Path>)
    requires a != [] && b != [] && InPreOrder(b) && Unmistakable(a) && Spelling([], a) == Spelling([], b)
    ensures a == b
  {
    StepsThenRest(a[0][0..], b[0][0..], Spelling(a[0], a[1..]), Spelling(b[0], b[1..]));
    assert a[0][0..] == a[0] && b[0][0..] == b[0];
    assert a == [a[0]] + a[1..] && b == [b[0]] + b[1..];
    OrderedAscends(b[0], b[1..]);
    RestIsForced(a[0], a[1..], b[1..]);
  }

  // ---- Faults the text does mistake ----

  /** The same steps, but never going up: each fault below the last, starting from `at` instead of `from`. */
  function Straighten(at: Path, from: Path, faults: seq<Path>): (r: seq<Path>)
    decreases faults
  {
    if faults == [] then []
    else
      var next := at + faults[0][Common(from, faults[0])..];
      [next] + Straighten(next, faults[0], faults[1..])
  }

  lemma {:induction false} StraightenSpells(at: Path, from: Path, faults: seq<Path>)
    requires Ascends(from, faults)
    ensures Ascends(at, Straighten(at, from, faults))
    ensures Spelling(at, Straighten(at, from, faults)) == Spelling(from, faults)
    decreases faults
  {
    if faults != [] {
      PreOrderSplit(from, faults[0]);
      var steps := faults[0][Common(from, faults[0])..];
      PreOrderJoin(at, |at|, steps);
      assert at[..|at|] == at;
      StraightenSpells(at + steps, faults[0], faults[1..]);
      assert (at + steps)[|at|..] == steps;
    }
  }

  /** Another place the next fault could be, for the same steps: below `p`, or right of a step on the way to it. */
  lemma {:induction false} OtherNext(p: Path, q: Path) returns (r: Path)
    requires PreOrder(p, q) && !OnlyBelow(p, q)
    ensures r != q && PreOrder(p, r) && r[Common(p, r)..] == q[Common(p, q)..]
  {
    PreOrderSplit(p, q);
    var n := Common(p, q);
    var steps := q[n..];
    var k := |p|;
    if p < q {
      assert q == p + q[|p|..];
      PreOrderJoin(p, |p|, q[|p|..]);
      assert p[..|p|] == p;
      var x :| x in p && x < q[|p|];
      k :| 0 <= k < |p| && p[k] == x;
    }
    PreOrderJoin(p, k, steps);
    r := p[..k] + steps;
    assert r[k..] == steps;
  }

  /** Other faults after `p` for the same steps, if the first of them can be mistaken. */
  lemma {:induction false} OtherRest(p: Path, faults: seq<Path>) returns (other: seq<Path>)
    requires faults != [] && Ascends(p, faults) && !OnlyBelow(p, faults[0])
    ensures other != [] && other[0] != faults[0] && Ascends(p, other) && Spelling(p, other) == Spelling(p, faults)
  {
    var r := OtherNext(p, faults[0]);
    var tail := Straighten(r, faults[0], faults[1..]);
    StraightenSpells(r, faults[0], faults[1..]);
    other := [r] + tail;
    assert other[1..] == tail;
  }

  lemma {:induction false} SuffixAscends(faults: seq<Path>, i: nat)
    requires i < |faults| && InPreOrder(faults)
    ensures Ascends(faults[i], faults[i + 1..])
  {
    var all := [faults[i]] + faults[i + 1..];
    assert forall j :: 0 <= j < |all| ==> all[j] == faults[i + j];
    OrderedAscends(faults[i], faults[i + 1..]);
  }

  /** If some step is not unmistakable, other faults are spelled the same. */
  lemma {:induction false} OtherFaults(faults: seq<Path>, i: nat) returns (other: seq<Path>)
    requires InPreOrder(faults) && i + 1 < |faults| && !OnlyBelow(faults[i], faults[i + 1])
    ensures InPreOrder(other) && other != [] && other != faults && Spelling([], other) == Spelling([], faults)
  {
    var before, after := faults[..i + 1], faults[i + 1..];
    assert faults == before + after && before[|before| - 1] == faults[i] && after[0] == faults[i + 1];
    SuffixAscends(faults, i);
    var rest := OtherRest(faults[i], after);
    SpellingConcat([], before, after);
    SpellingConcat([], before, rest);
    other := before + rest;
    assert other[i + 1] == rest[0];
    JoinOrdered(before, rest);
  }

  lemma {:induction false} JoinOrdered(before: seq<Path>, after: seq<Path>)
    requires before != [] && InPreOrder(before) && Ascends(before[|before| - 1], after)
    ensures InPreOrder(before + after)
  {
    var last := |before| - 1;
    var all := before + after;
    AscendsOrdered(before[last], after);
    var tail := [before[last]] + after;
    forall i, j | 0 <= i < j < |all|
      ensures PreOrder(all[i], all[j])
    {
      if i >= last {
        assert all[i] == tail[i - last] && all[j] == tail[j - last];
      } else if j > last {
        assert PreOrder(before[i], before[last]) && PreOrder(tail[0], tail[j - last]);
        PreOrderTransitive(all[i], all[last], all[j]);
      }
    }
  }

  // ---- A tree for any faults ----

  function Below(faults: set<Path>, c: nat): (r: set<Path>) {
    set p | p in faults && p != [] && p[0] == c :: p[1..]
  }

  predicate Fits(faults: set<Path>, depth: nat, width: nat) {
    forall p :: p in faults ==> |p| <= depth && forall x :: x in p ==> x < width
  }

  function TreeWith(faults: set<Path>, depth: nat, width: nat): (m: TreeNode)
    decreases depth
  {
    TreeNode(
      if [] in faults then FAULTY else None,
      if depth == 0 then []
      else seq(width, c requires 0 <= c < width => Some(TreeWith(Below(faults, c), depth - 1, width))))
  }

  lemma {:induction false} BelowMember(faults: set<Path>, path: Path)
    requires path != []
    ensures path in faults <==> path[1..] in Below(faults, path[0])
  {
    if path[1..] in Below(faults, path[0]) {
      var p :| p in faults && p != [] && p[0] == path[0] && p[1..] == path[1..];
      assert p == [p[0]] + p[1..] == path;
    }
  }

  lemma {:induction false} BelowFits(faults: set<Path>, depth: nat, width: nat, c: nat)
    requires depth > 0 && Fits(faults, depth, width)
    ensures Fits(Below(faults, c), depth - 1, width)
  {
    forall p | p in Below(faults, c)
      ensures |p| <= depth - 1 && forall x :: x in p ==> x < width
    {
      var longer :| longer in faults && longer != [] && longer[0] == c && longer[1..] == p;
      assert forall x :: x in p ==> x in longer;
    }
  }

  lemma {:induction false} TreeChildren(faults: set<Path>, depth: nat, width: nat)
    requires depth > 0
    ensures var children := TreeWith(faults, depth, width).children;
            && |children| == width
            && forall c: nat :: c < width ==> children[c] == Some(TreeWith(Below(faults, c), depth - 1, width))
  {
  }

  lemma {:induction false} TreeHasFaults(faults: set<Path>, depth: nat, width: nat, path: Path)
    requires Fits(faults, depth, width)
    ensures TypedNilAt(TreeWith(faults, depth, width), path) <==> path in faults
    decreases depth
  {
    if path != [] && depth > 0 {
      BelowMember(faults, path);
      assert path in faults ==> path[0] in path;
      TreeChildren(faults, depth, width);
      if path[0] < width {
        BelowFits(faults, depth, width, path[0]);
        TreeHasFaults(Below(faults, path[0]), depth - 1, width, path[1..]);
      }
    }
  }

  /** Bounds that any list of paths fits in. */
  lemma {:induction false} SomeFit(paths: seq<Path>) returns (depth: nat, width: nat)
    ensures Fits(Members(paths), depth, width)
  {
    depth, width := 0, 0;
    if paths != [] {
      depth, width := SomeFit(paths[1..]);
      var bound := Widest(paths[0]);
      assert forall p :: p in paths ==> p == paths[0] || p in paths[1..];
      assert forall p :: p in paths[1..] ==> p in Members(paths[1..]);
      depth := if |paths[0]| > depth then |paths[0]| else depth;
      width := if bound > width then bound else width;
    }
  }

  lemma {:induction false} Widest(path: Path) returns (width: nat)
    ensures forall x :: x in path ==> x < width
  {
    width := 0;
    if path != [] {
      width := Widest(path[1..]);
      assert forall x :: x in path ==> x == path[0] || x in path[1..];
      width := if path[0] >= width then path[0] + 1 else width;
    }
  }

  /** Two lists in pre-order with the same paths are the same list. */
  lemma {:induction false} SamePathsSameList(a: seq<Path>, b: seq<Path>)
    requires InPreOrder(a) && InPreOrder(b) && forall p :: p in a <==> p in b
    ensures a == b
  {
    assert a != [] ==> a[0] in a;
    assert b != [] ==> b[0] in b;
    if a != [] && b != [] {
      if a[0] != b[0] {
        var i :| 0 <= i < |b| && b[i] == a[0];
        var j :| 0 <= j < |a| && a[j] == b[0];
        PreOrderAsymmetric(a[0], b[0]);
      }
      RestHasOthers(a);
      RestHasOthers(b);
      SamePathsSameList(a[1..], b[1..]);
      assert a == [a[0]] + a[1..] && b == [b[0]] + b[1..];
    }
  }

  lemma {:induction false} RestHasOthers(a: seq<Path>)
    requires a != [] && InPreOrder(a)
    ensures forall p :: p in a[1..] <==> p in a && p != a[0]
  {
    forall p | p in a[1..]
      ensures p != a[0]
    {
      var i :| 1 <= i < |a| && a[i] == p;
      PreOrderIrreflexive(p);
    }
  }

  /** Any list of paths in pre-order is the list of faults of some tree. */
  lemma {:induction false} Realized(faults: seq<Path>) returns (m: TreeNode)
    requires InPreOrder(faults)
    ensures TypedNils(m) == faults
  {
    var depth, width := SomeFit(faults);
    var paths := Members(faults);
    m := TreeWith(paths, depth, width);
    forall p
      ensures p in TypedNils(m) <==> p in faults
    {
      TypedNilsComplete(m, p);
      TreeHasFaults(paths, depth, width, p);
    }
    TypedNilsOrdered(m);
    SamePathsSameList(TypedNils(m), faults);
  }

  // ---- When the collected text identifies the faults ----

  lemma {:induction false} RejectedHasFaults(m: TreeNode)
    ensures NodeErrors(m) != [] <==> TypedNils(m) != []
  {
    TextIsTokens(m);
    TokensAreSpelling(m);
    assert TypedNils(m) != [] ==> StepsTo(TypedNils(m)[0][0..]) != [];
  }

  lemma {:induction false} SameTextIffSameSpelling(m: TreeNode, n: TreeNode)
    requires NodeErrors(m) != [] && NodeErrors(n) != []
    ensures CollectedText(m) == CollectedText(n) <==> Spelling([], TypedNils(m)) == Spelling([], TypedNils(n))
  {
    SameTextIffSameTokens(m, n);
    TokensAreSpelling(m);
    TokensAreSpelling(n);
  }

  lemma {:induction false} UnmistakableIsIdentified(m: TreeNode, n: TreeNode)
    requires NodeErrors(m) != [] && NodeErrors(n) != [] && CollectedText(n) == CollectedText(m)
    requires Unmistakable(TypedNils(m))
    ensures TypedNils(n) == TypedNils(m)
  {
    SameTextIffSameSpelling(m, n);
    RejectedHasFaults(m);
    RejectedHasFaults(n);
    TypedNilsOrdered(n);
    SpellingForced(TypedNils(m), TypedNils(n));
  }

  lemma {:induction false} OthersAreMistaken(m: TreeNode) returns (n: TreeNode)
    requires NodeErrors(m) != [] && !Unmistakable(TypedNils(m))
    ensures NodeErrors(n) != [] && CollectedText(n) == CollectedText(m) && TypedNils(n) != TypedNils(m)
  {
    var faults := TypedNils(m);
    TypedNilsOrdered(m);
    var i :| 0 <= i < |faults| - 1 && !OnlyBelow(faults[i], faults[i + 1]);
    var other := OtherFaults(faults, i);
    n := Realized(other);
    RejectedHasFaults(n);
    SameTextIffSameSpelling(m, n);
  }

  ghost predicate TextIdentifiesFaults(m: TreeNode)
    requires NodeErrors(m) != []
  {
    forall n :: NodeErrors(n) != [] && CollectedText(n) == CollectedText(m) ==> TypedNils(n) == TypedNils(m)
  }

  /**
   * The collected text of a tree tells where all its faults are exactly when each fault is below the one before it and
   * its first step from there leads no further right than any step taken before.
   */
  lemma {:induction false} TextIdentifiesFaultsIff(m: TreeNode)
    requires NodeErrors(m) != []
    ensures TextIdentifiesFaults(m) <==> Unmistakable(TypedNils(m))
  {
    if Unmistakable(TypedNils(m)) {
      forall n | NodeErrors(n) != [] && CollectedText(n) == CollectedText(m)
        ensures TypedNils(n) == TypedNils(m)
      {
        UnmistakableIsIdentified(m, n);
      }
    } else {
      var n := OthersAreMistaken(m);
    }
  }
}
