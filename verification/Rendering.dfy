/** The `Error()` methods: how nested violations become one line of text, and what that text keeps of them. */
module Rendering {
  import opened Foundation
  import opened Decimal
  import opened Messages
  import opened Violations
  import opened TreeValidation
  import T = Tokens

  const CAUSED_BY := " | caused by: "
  const SEPARATOR := "; "

  /** `strings.Join`. */
  function Join(parts: seq<string>): (s: string) {
    if parts == [] then ""
    else if |parts| == 1 then parts[0]
    else parts[0] + (SEPARATOR + Join(parts[1..]))
  }

  function Opening(message: string): (s: string) {
    "invalid " + message + "."
  }

  function Closing(reason: string): (s: string) {
    ": " + reason
  }

  function Heading(message: string, field: string, reason: string): (s: string) {
    Opening(message) + (field + Closing(reason))
  }

  function Render(e: Error): (s: string)
    decreases e, 0
  {
    match e
    case Violation(message, field, reason, cause) =>
      Heading(message, field, reason) + (if cause.None? then "" else CAUSED_BY + Render(cause.value))
    case MultiError(_, errors) => Join(RenderEach(errors))
  }

  function RenderEach(errors: seq<Error>): (parts: seq<string>)
    ensures |parts| == |errors|
    ensures forall i :: 0 <= i < |errors| ==> parts[i] == Render(errors[i])
    decreases errors, 0
  {
    if errors == [] then [] else [Render(errors[0])] + RenderEach(errors[1..])
  }

  method ErrorText(e: Error) returns (text: string)
    ensures text == Render(e)
    decreases e
  {
    match e {
      case Violation(message, field, reason, cause) =>
        var suffix := "";
        if cause.Some? {
          var inner := ErrorText(cause.value);
          suffix := CAUSED_BY + inner;
        }
        text := Heading(message, field, reason) + suffix;
      case MultiError(_, errors) =>
        var msgs: seq<string> := [];
        ghost var parts := RenderEach(errors);
        for i := 0 to |errors|
          invariant msgs == parts[..i]
        {
          var msg := ErrorText(errors[i]);
          assert parts[..i + 1] == parts[..i] + [msg];
          msgs := msgs + [msg];
        }
        assert msgs == parts;
        text := Join(msgs);
    }
  }

  // ---- No violation is lost ----

  /** The layout of a line: what is invalid, why, and what caused it. */
  lemma {:induction false} LineLayout(message: string, field: string, reason: string, cause: Error)
    ensures Render(Violation(message, field, reason, None)) == "invalid " + message + "." + field + ": " + reason
    ensures Render(Violation(message, field, reason, Some(cause)))
         == "invalid " + message + "." + field + ": " + reason + " | caused by: " + Render(cause)
  {
    var heading := Heading(message, field, reason);
    assert heading == "invalid " + message + "." + field + ": " + reason;
    assert heading + "" == heading;
  }

  /** And a list separates its lines by semicolons. */
  lemma {:induction false} ListLayout(message: string, first: Error, errors: seq<Error>)
    ensures Render(MultiError(message, [])) == "" && Render(MultiError(message, [first])) == Render(first)
    ensures errors != [] ==>
              Render(MultiError(message, [first] + errors))
              == Render(first) + "; " + Render(MultiError(message, errors))
  {
    if errors != [] {
      var parts := RenderEach([first] + errors);
      assert ([first] + errors)[1..] == errors;
      assert parts[1..] == RenderEach(errors);
      assert parts[0] + (SEPARATOR + Join(parts[1..])) == parts[0] + SEPARATOR + Join(parts[1..]);
    }
  }

  predicate OccursAt(part: string, text: string, at: nat) {
    at + |part| <= |text| && text[at..at + |part|] == part
  }

  /** Where the text of the i-th part starts in the joined text. */
  function Offset(parts: seq<string>, i: nat): (at: nat)
    requires i < |parts|
  {
    if i == 0 then 0 else |parts[0]| + |SEPARATOR| + Offset(parts[1..], i - 1)
  }

  /** Siblings appear whole, in list order, without overlap. */
  lemma {:induction false} JoinKeepsParts(parts: seq<string>, i: nat)
    requires i < |parts|
    ensures OccursAt(parts[i], Join(parts), Offset(parts, i))
    ensures i + 1 < |parts| ==> Offset(parts, i + 1) == Offset(parts, i) + |parts[i]| + |SEPARATOR|
  {
    if i > 0 {
      JoinKeepsParts(parts[1..], i - 1);
      OccursShifted(parts[i], Join(parts[1..]), Offset(parts[1..], i - 1), parts[0] + SEPARATOR);
    }
  }

  lemma {:induction false} OccursShifted(part: string, text: string, at: nat, before: string)
    requires OccursAt(part, text, at)
    ensures OccursAt(part, before + text, |before| + at)
  {
  }

  lemma {:induction false} OccursThrough(inner: string, i: nat, middle: string, j: nat, outer: string)
    requires OccursAt(inner, middle, i) && OccursAt(middle, outer, j)
    ensures OccursAt(inner, outer, j + i)
  {
    forall k | 0 <= k < |inner|
      ensures outer[j + i + k] == inner[k]
    {
      assert outer[j..j + |middle|][i + k] == middle[i + k] == middle[i..i + |inner|][k];
    }
  }

  /** Whether `d` is `e` or is wrapped in it, at any depth. */
  predicate Within(d: Error, e: Error)
    decreases e
  {
    d == e
    || match e
       case Violation(_, _, _, cause) => cause.Some? && Within(d, cause.value)
       case MultiError(_, errors) => exists i :: 0 <= i < |errors| && Within(d, errors[i])
  }

  ghost predicate Occurs(part: string, text: string) {
    exists at :: OccursAt(part, text, at)
  }

  lemma {:induction false} OccursInCause(part: string, heading: string, inner: string)
    requires Occurs(part, inner)
    ensures Occurs(part, heading + (CAUSED_BY + inner))
  {
    var at :| OccursAt(part, inner, at);
    OccursShifted(part, inner, at, CAUSED_BY);
    OccursShifted(part, CAUSED_BY + inner, |CAUSED_BY| + at, heading);
  }

  lemma {:induction false} OccursInJoin(part: string, parts: seq<string>, i: nat)
    requires i < |parts| && Occurs(part, parts[i])
    ensures Occurs(part, Join(parts))
  {
    var at :| OccursAt(part, parts[i], at);
    JoinKeepsParts(parts, i);
    OccursThrough(part, at, parts[i], Offset(parts, i), Join(parts));
  }

  /** The text of an error contains the text of every error wrapped in it. */
  lemma {:induction false} RenderKeepsEveryError(d: Error, e: Error)
    requires Within(d, e)
    ensures Occurs(Render(d), Render(e))
    decreases e
  {
    if d == e {
      assert OccursAt(Render(d), Render(e), 0);
    } else {
      match e
      case Violation(message, field, reason, cause) =>
        RenderKeepsEveryError(d, cause.value);
        OccursInCause(Render(d), Heading(message, field, reason), Render(cause.value));
      case MultiError(_, errors) =>
        var i :| 0 <= i < |errors| && Within(d, errors[i]);
        RenderKeepsEveryError(d, errors[i]);
        OccursInJoin(Render(d), RenderEach(errors), i);
    }
  }

  // ---- What the text of a rejected tree determines ----

  function Tokens(m: TreeNode): (tokens: seq<T.Token>)
    decreases m, 0
  {
    (if TypedNilAt(m, []) then [T.Fault] else []) + TokensBelow(m.children, 0)
  }

  function TokensIn(m: Option<TreeNode>): (tokens: seq<T.Token>)
    decreases m, 0
  {
    if m.None? then [] else Tokens(m.value)
  }

  function TokensBelow(ms: seq<Option<TreeNode>>, from: nat): (tokens: seq<T.Token>)
    decreases ms, 0
  {
    if ms == [] then []
    else
      var inner := TokensIn(ms[0]);
      (if inner == [] then [] else [T.Enter(from)] + inner) + TokensBelow(ms[1..], from + 1)
  }

  const FAULT_ERROR: Error :=
    Violation("TreeNode", "Value", EMBEDDED, Some(MultiError("Field",
      [Violation("Field", "Type", EMBEDDED, Some(MultiError("Field_Type",
        [Violation("Field_Type", "Kind", TYPED_NIL, None)])))])))

  /** The words of the text of a tree's violations. */
  function Words(): (style: T.Style) {
    T.Style(Opening("TreeNode") + ("Children" + "["),
            "]" + (Closing(EMBEDDED) + CAUSED_BY),
            Render(FAULT_ERROR),
            SEPARATOR)
  }

  lemma {:induction false} WordsReadable()
    ensures T.Readable(Words())
  {
    // Position 17 is where the field name starts.
    assert Words().head[17] == 'C' && Words().fault[17] == 'V';
  }

  lemma {:induction false} JoinConcat(xs: seq<string>, ys: seq<string>)
    requires xs != [] && ys != []
    ensures Join(xs + ys) == Join(xs) + (SEPARATOR + Join(ys))
  {
    if |xs| == 1 {
      assert (xs + ys)[1..] == ys;
    } else {
      assert (xs + ys)[1..] == xs[1..] + ys;
      JoinConcat(xs[1..], ys);
    }
  }

  /** The joined text of a list of violations. */
  function TextOf(errors: seq<Error>): (s: string) {
    Join(RenderEach(errors))
  }

  lemma {:induction false} TextOfConcat(xs: seq<Error>, ys: seq<Error>)
    ensures TextOf(xs + ys)
         == if xs == [] then TextOf(ys) else if ys == [] then TextOf(xs) else TextOf(xs) + (SEPARATOR + TextOf(ys))
  {
    if xs == [] {
      assert xs + ys == ys;
    } else if ys == [] {
      assert xs + ys == xs;
    } else {
      assert RenderEach(xs + ys) == RenderEach(xs) + RenderEach(ys);
      JoinConcat(RenderEach(xs), RenderEach(ys));
    }
  }

  lemma {:induction false} TextOfStep(index: nat, inner: Error, tokens: seq<T.Token>)
    requires Render(inner) == T.Text(Words(), tokens)
    ensures TextOf(Embed("TreeNode", Label("Children", index), Some(inner)))
         == T.Text(Words(), [T.Enter(index)] + tokens)
  {
    assert ([T.Enter(index)] + tokens)[1..] == tokens;
    T.Regroup(Opening("TreeNode"), "Children", "[", Format(index), "]", Closing(EMBEDDED), CAUSED_BY, Render(inner));
  }

  lemma {:induction false} TextOfValue(m: TreeNode)
    ensures var own := Embed("TreeNode", "Value", CollectField(m.value));
            own == if TypedNilAt(m, []) then [FAULT_ERROR] else []
  {
  }

  lemma {:induction false} FaultText()
    ensures TextOf([FAULT_ERROR]) == Words().fault == T.Text(Words(), [T.Fault])
  {
  }

  lemma {:induction false} TextIsTokens(m: TreeNode)
    ensures TextOf(NodeErrors(m)) == T.Text(Words(), Tokens(m)) && T.Closed(Tokens(m))
    ensures NodeErrors(m) == [] <==> Tokens(m) == []
    decreases m, 0
  {
    TextBelowIsTokens(m.children, 0);
    TextOfValue(m);
    FaultText();
    TextOfConcat(Embed("TreeNode", "Value", CollectField(m.value)),
                 EmbedEach("TreeNode", "Children", CollectNodes(m.children), 0));
    T.ClosedConcat(Words(), if TypedNilAt(m, []) then [T.Fault] else [], TokensBelow(m.children, 0));
  }

  lemma {:induction false} TextInIsTokens(m: Option<TreeNode>)
    ensures CollectNode(m).None? <==> TokensIn(m) == []
    ensures CollectNode(m).Some? ==> Render(CollectNode(m).value) == T.Text(Words(), TokensIn(m))
    ensures T.Closed(TokensIn(m))
    decreases m, 0
  {
    if m.Some? {
      TextIsTokens(m.value);
    }
  }

  lemma {:induction false} TextBelowIsTokens(ms: seq<Option<TreeNode>>, from: nat)
    ensures var errors := EmbedEach("TreeNode", "Children", CollectNodes(ms), from);
            && TextOf(errors) == T.Text(Words(), TokensBelow(ms, from))
            && (errors == [] <==> TokensBelow(ms, from) == [])
    ensures T.Closed(TokensBelow(ms, from))
    decreases ms, 0
  {
    if ms != [] {
      TextBelowIsTokens(ms[1..], from + 1);
      TextInIsTokens(ms[0]);
      assert CollectNodes(ms)[1..] == CollectNodes(ms[1..]);
      var inner := TokensIn(ms[0]);
      TextOfConcat(Embed("TreeNode", Label("Children", from), CollectNode(ms[0])),
                   EmbedEach("TreeNode", "Children", CollectNodes(ms[1..]), from + 1));
      if inner != [] {
        TextOfStep(from, CollectNode(ms[0]).value, inner);
      }
      T.ClosedConcat(Words(), if inner == [] then [] else [T.Enter(from)] + inner, TokensBelow(ms[1..], from + 1));
    }
  }

  /** What `ValidateAll` says of a rejected tree. */
  function CollectedText(m: TreeNode): (text: string)
    requires NodeErrors(m) != []
  {
    Render(Outcome(true, "TreeNode", NodeErrors(m)).value)
  }

  /** Two rejected trees are reported with the same text exactly when they have the same tokens. */
  lemma {:induction false} SameTextIffSameTokens(m: TreeNode, n: TreeNode)
    requires NodeErrors(m) != [] && NodeErrors(n) != []
    ensures CollectedText(m) == CollectedText(n) <==> Tokens(m) == Tokens(n)
  {
    TextIsTokens(m);
    TextIsTokens(n);
    if TextOf(NodeErrors(m)) == TextOf(NodeErrors(n)) {
      WordsReadable();
      T.TextInjective(Words(), Tokens(m), Tokens(n));
    }
  }

  const FAULTY: Option<Field> := Some(Field([], [], [], false, Some(FieldType(BaseType(None)))))
  const LEAF: TreeNode := TreeNode(FAULTY, [])
  const TWO_CHILDREN: TreeNode := TreeNode(None, [Some(LEAF), Some(LEAF)])
  const GRANDCHILD: TreeNode := TreeNode(None, [Some(TreeNode(FAULTY, [None, Some(LEAF)]))])

  lemma {:induction false} TokensBelowStep(m: Option<TreeNode>, ms: seq<Option<TreeNode>>, from: nat)
    ensures TokensBelow([m] + ms, from)
         == (if TokensIn(m) == [] then [] else [T.Enter(from)] + TokensIn(m)) + TokensBelow(ms, from + 1)
  {
    assert ([m] + ms)[1..] == ms;
  }

  lemma {:induction false} TokensOfExamples()
    ensures Tokens(TWO_CHILDREN) == Tokens(GRANDCHILD) == [T.Enter(0), T.Fault, T.Enter(1), T.Fault]
  {
    assert TokensIn(Some(LEAF)) == [T.Fault];
    assert TokensBelow([], 2) == [];
    assert [Some(LEAF)] + [] == [Some(LEAF)];
    TokensBelowStep(Some(LEAF), [], 1);
    assert TokensBelow([Some(LEAF)], 1) == [T.Enter(1), T.Fault];
    assert [Some(LEAF)] + [Some(LEAF)] == [Some(LEAF), Some(LEAF)];
    TokensBelowStep(Some(LEAF), [Some(LEAF)], 0);
    assert [None] + [Some(LEAF)] == [None, Some(LEAF)];
    TokensBelowStep(None, [Some(LEAF)], 0);
    var inner := TreeNode(FAULTY, [None, Some(LEAF)]);
    assert TokensIn(Some(inner)) == [T.Fault, T.Enter(1), T.Fault];
    assert [Some(inner)] + [] == [Some(inner)];
    TokensBelowStep(Some(inner), [], 0);
  }

  /** The collected text does not always say which node is at fault: a child and a grandchild can read the same. */
  lemma {:induction false} SameTextDifferentFaults()
    ensures NodeErrors(TWO_CHILDREN) != [] && NodeErrors(GRANDCHILD) != []
    ensures CollectedText(TWO_CHILDREN) == CollectedText(GRANDCHILD)
    ensures TypedNilAt(TWO_CHILDREN, [1]) && !TypedNilAt(GRANDCHILD, [1])
  {
    TokensOfExamples();
    TextIsTokens(TWO_CHILDREN);
    TextIsTokens(GRANDCHILD);
    SameTextIffSameTokens(TWO_CHILDREN, GRANDCHILD);
    assert [1][1..] == [];
    assert TypedNilAt(LEAF, []);
  }

  // ---- The fail-fast text is unambiguous ----

  function StepsTo(path: seq<nat>): (tokens: seq<T.Token>) {
    if path == [] then [T.Fault] else [T.Enter(path[0])] + StepsTo(path[1..])
  }

  lemma {:induction false} StepsToInjective(p: seq<nat>, q: seq<nat>)
    requires StepsTo(p) == StepsTo(q)
    ensures p == q
  {
    if p != [] && q != [] {
      assert StepsTo(p)[1..] == StepsTo(p[1..]) && StepsTo(q)[1..] == StepsTo(q[1..]);
      assert p[0] == StepsTo(p)[0].index == StepsTo(q)[0].index == q[0];
      StepsToInjective(p[1..], q[1..]);
      assert p == [p[0]] + p[1..] && q == [q[0]] + q[1..];
    } else {
      assert StepsTo(p)[0] == StepsTo(q)[0];
    }
  }

  /** A chain of violations leading to the node at `path`. */
  predicate IsTreeChain(e: Error, path: seq<nat>)
    decreases path
  {
    if path == [] then e == FirstProjection(FAULT_ERROR)
    else e.Violation? && e.message == "TreeNode" && e.field == Label("Children", path[0]) && e.reason == EMBEDDED
         && e.cause.Some? && IsTreeChain(e.cause.value, path[1..])
  }

  lemma {:induction false} ProjectedFaultText()
    ensures Render(FirstProjection(FAULT_ERROR)) == Render(FAULT_ERROR)
  {
    var kind := Violation("Field_Type", "Kind", TYPED_NIL, None);
    var fieldType := MultiError("Field_Type", [kind]);
    assert Render(fieldType) == Render(kind) && FirstProjection(fieldType) == kind;
    var typeOf := Violation("Field", "Type", EMBEDDED, Some(fieldType));
    var field := MultiError("Field", [typeOf]);
    assert FirstProjection(field) == FirstProjection(typeOf) == Violation("Field", "Type", EMBEDDED, Some(kind));
    assert Render(field) == Render(typeOf) == Render(FirstProjection(typeOf));
  }

  lemma {:induction false} ChainTextIsSteps(e: Error, path: seq<nat>)
    requires IsTreeChain(e, path)
    ensures Render(e) == T.Text(Words(), StepsTo(path)) && T.Closed(StepsTo(path))
  {
    if path == [] {
      ProjectedFaultText();
      FaultText();
      assert T.Text(Words(), [T.Fault]) == Render(FAULT_ERROR);
    } else {
      ChainTextIsSteps(e.cause.value, path[1..]);
      TextOfStep(path[0], e.cause.value, StepsTo(path[1..]));
    }
  }

  lemma {:induction false} FirstIsChain(m: TreeNode)
    requires NodeErrors(m) != []
    ensures TypedNils(m) != [] && IsTreeChain(FirstProjection(NodeErrors(m)[0]), TypedNils(m)[0])
    decreases m, 0
  {
    TextOfValue(m);
    if TypedNilAt(m, []) {
      assert NodeErrors(m)[0] == FAULT_ERROR;
    } else {
      FirstBelowIsChain(m.children, 0);
      assert [] + TypedNilsBelow(m.children, 0) == TypedNilsBelow(m.children, 0);
    }
  }

  lemma {:induction false} FirstInIsChain(m: Option<TreeNode>)
    requires CollectNode(m).Some?
    ensures TypedNilsIn(m) != [] && IsTreeChain(FirstProjection(CollectNode(m).value), TypedNilsIn(m)[0])
    decreases m, 0
  {
    FirstIsChain(m.value);
  }

  lemma {:induction false} FirstBelowIsChain(ms: seq<Option<TreeNode>>, from: nat)
    requires EmbedEach("TreeNode", "Children", CollectNodes(ms), from) != []
    ensures TypedNilsBelow(ms, from) != []
    ensures IsTreeChain(FirstProjection(EmbedEach("TreeNode", "Children", CollectNodes(ms), from)[0]),
                        TypedNilsBelow(ms, from)[0])
    decreases ms, 0
  {
    assert CollectNodes(ms)[1..] == CollectNodes(ms[1..]);
    if CollectNode(ms[0]).Some? {
      FirstInIsChain(ms[0]);
      assert ([from] + TypedNilsIn(ms[0])[0])[1..] == TypedNilsIn(ms[0])[0];
    } else {
      LeavesInAreTypedNils(ms[0]);
      assert Prefixed(from, TypedNilsIn(ms[0])) == [];
      FirstBelowIsChain(ms[1..], from + 1);
    }
  }

  /** Unlike the collected text, the text `Validate` returns says exactly which node is the first at fault. */
  lemma {:induction false} FailFastTextIdentifiesFault(m: TreeNode, n: TreeNode, p: seq<nat>, q: seq<nat>)
    requires FirstTypedNil(m, p) && FirstTypedNil(n, q)
    requires var fm, fn := Outcome(false, "TreeNode", NodeErrors(m)), Outcome(false, "TreeNode", NodeErrors(n));
             fm.Some? && fn.Some? && Render(fm.value) == Render(fn.value)
    ensures p == q
  {
    FirstIsChain(m);
    FirstIsChain(n);
    FirstTypedNilIsHead(m, p);
    FirstTypedNilIsHead(n, q);
    ChainTextIsSteps(FirstProjection(NodeErrors(m)[0]), p);
    ChainTextIsSteps(FirstProjection(NodeErrors(n)[0]), q);
    WordsReadable();
    T.TextInjective(Words(), StepsTo(p), StepsTo(q));
    StepsToInjective(p, q);
  }

  lemma {:induction false} FirstTypedNilIsHead(m: TreeNode, path: seq<nat>)
    requires FirstTypedNil(m, path)
    ensures TypedNils(m) != [] && TypedNils(m)[0] == path
  {
    ReportsExactlyTheTypedNils(m);
    var nils := TypedNils(m);
    assert path in nils;
    var i :| 0 <= i < |nils| && nils[i] == path;
    if i > 0 {
      assert nils[0] in nils;
      assert PreOrder(nils[0], path) && PreOrder(path, nils[0]);
      PreOrderAsymmetric(path, nils[0]);
    }
  }

  lemma {:induction false} PreOrderAsymmetric(p: seq<nat>, q: seq<nat>)
    ensures !(PreOrder(p, q) && PreOrder(q, p))
  {
    if p != [] && q != [] {
      PreOrderAsymmetric(p[1..], q[1..]);
    }
  }
}
