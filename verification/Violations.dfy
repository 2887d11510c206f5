/** Validation errors as values, and the two ways a generated validator reports them. */
module Violations {
  import opened Foundation
  import opened Decimal

  /**
   * `XValidationError` carries a field, a reason and an optional cause; `XMultiError` wraps a list.
   * `message` is the X. The `key` flag of the former is never set by a validator and is left out.
   */
  datatype Error =
    | Violation(message: string, field: string, reason: string, cause: Option<Error>)
    | MultiError(message: string, errors: seq<Error>)

  const EMBEDDED := "embedded message failed validation"
  const POSITIVE := "value must be greater than 0"

  /** What `Validate` keeps of an error that `ValidateAll` would report: its first violation at every depth. */
  function FirstProjection(e: Error): (r: Error) {
    match e
    case Violation(message, field, reason, cause) =>
      if cause.Some? then Violation(message, field, reason, Some(FirstProjection(cause.value))) else e
    case MultiError(_, errors) =>
      if errors == [] then e else FirstProjection(errors[0])
  }

  /** The result of a validator whose full list of violations is `errors`. */
  function Outcome(all: bool, message: string, errors: seq<Error>): (r: Option<Error>) {
    if errors == [] then None
    else if all then Some(MultiError(message, errors))
    else Some(FirstProjection(errors[0]))
  }

  /** The violation that wraps a failure of an embedded message, if there is one. */
  function Embed(message: string, field: string, inner: Option<Error>): (errors: seq<Error>) {
    if inner.None? then [] else [Violation(message, field, EMBEDDED, inner)]
  }

  /** The violations of a repeated field, given what each element reports; labels start at `from`. */
  function EmbedEach(message: string, name: string, inner: seq<Option<Error>>, from: nat): (errors: seq<Error>) {
    if inner == [] then []
    else Embed(message, Label(name, from), inner[0]) + EmbedEach(message, name, inner[1..], from + 1)
  }

  /** Projecting a wrapped `ValidateAll` failure gives the wrapped `Validate` failure of the same message. */
  lemma {:induction false} FirstOfEmbedded(message: string, field: string, inner: string, errors: seq<Error>)
    requires errors != []
    ensures FirstProjection(Violation(message, field, EMBEDDED, Outcome(true, inner, errors)))
         == Violation(message, field, EMBEDDED, Outcome(false, inner, errors))
  {
    var e := MultiError(inner, errors);
    assert FirstProjection(e) == FirstProjection(errors[0]);
  }

  /** One scalar rule: a single violation when it does not hold. */
  function Check(holds: bool, message: string, field: string, reason: string): (errors: seq<Error>) {
    if holds then [] else [Violation(message, field, reason, None)]
  }

  /** Validating a concatenation is validating the parts, the second with its labels shifted. */
  lemma {:induction false} EmbedEachConcat(
      message: string, name: string, xs: seq<Option<Error>>, ys: seq<Option<Error>>, from: nat)
    ensures EmbedEach(message, name, xs + ys, from)
         == EmbedEach(message, name, xs, from) + EmbedEach(message, name, ys, from + |xs|)
  {
    if xs == [] {
      assert xs + ys == ys;
    } else {
      assert (xs + ys)[1..] == xs[1..] + ys;
      EmbedEachConcat(message, name, xs[1..], ys, from + 1);
    }
  }

  lemma {:induction false} EmbedEachSnoc(message: string, name: string, xs: seq<Option<Error>>, x: Option<Error>)
    ensures EmbedEach(message, name, xs + [x], 0)
         == EmbedEach(message, name, xs, 0) + Embed(message, Label(name, |xs|), x)
  {
    EmbedEachConcat(message, name, xs, [x], 0);
  }

  /** One more element of a list adds its own violation, if any. */
  lemma {:induction false} EmbedEachStep(message: string, name: string, inner: seq<Option<Error>>, idx: nat)
    requires idx < |inner|
    ensures EmbedEach(message, name, inner[..idx + 1], 0)
         == EmbedEach(message, name, inner[..idx], 0) + Embed(message, Label(name, idx), inner[idx])
  {
    assert inner[..idx + 1] == inner[..idx] + [inner[idx]];
    EmbedEachSnoc(message, name, inner[..idx], inner[idx]);
  }

  /** The first element to fail decides the fail-fast outcome of the whole message. */
  lemma {:induction false} FirstOfEmbedEach(
      message: string, name: string, before: seq<Error>, inner: seq<Option<Error>>, idx: nat,
      child: string, errors: seq<Error>)
    requires idx < |inner| && before == [] && EmbedEach(message, name, inner[..idx], 0) == []
    requires errors != [] && inner[idx] == Outcome(true, child, errors)
    ensures Outcome(false, message, before + EmbedEach(message, name, inner, 0))
         == Some(Violation(message, Label(name, idx), EMBEDDED, Outcome(false, child, errors)))
  {
    EmbedEachStep(message, name, inner, idx);
    assert inner == inner[..idx + 1] + inner[idx + 1..];
    EmbedEachConcat(message, name, inner[..idx + 1], inner[idx + 1..], 0);
    FirstOfEmbedded(message, Label(name, idx), child, errors);
  }

  lemma {:induction false} EmbedEachEmpty(message: string, name: string, inner: seq<Option<Error>>, from: nat)
    ensures EmbedEach(message, name, inner, from) == [] <==> forall i :: 0 <= i < |inner| ==> inner[i].None?
  {
    if inner != [] {
      EmbedEachEmpty(message, name, inner[1..], from + 1);
      assert inner == [inner[0]] + inner[1..];
    }
  }

  /** A fail-fast result is a single chain of causes: it contains no list at any depth. */
  predicate IsChain(e: Error) {
    e.Violation? && (e.cause.Some? ==> IsChain(e.cause.value))
  }

  /** Every list in the error, at every depth, is non-empty. */
  predicate Inhabited(e: Error) {
    match e
    case Violation(_, _, _, cause) => cause.Some? ==> Inhabited(cause.value)
    case MultiError(_, errors) => errors != [] && forall i :: 0 <= i < |errors| ==> Inhabited(errors[i])
  }

  lemma {:induction false} FirstProjectionIsChain(e: Error)
    requires Inhabited(e)
    ensures IsChain(FirstProjection(e))
  {
    match e
    case Violation(_, _, _, cause) =>
      if cause.Some? { FirstProjectionIsChain(cause.value); }
    case MultiError(_, errors) => FirstProjectionIsChain(errors[0]);
  }

  // The violations that have no cause of their own, each with the labels that lead to it, in report order.
  function Leaves(e: Error): (paths: seq<seq<string>>)
    decreases e, 0
  {
    match e
    case Violation(_, field, _, cause) =>
      if cause.None? then [[field]] else Prefixed(field, Leaves(cause.value))
    case MultiError(_, errors) => LeavesOfAll(errors)
  }

  function LeavesOfAll(errors: seq<Error>): (paths: seq<seq<string>>)
    decreases errors, 0
  {
    if errors == [] then [] else Leaves(errors[0]) + LeavesOfAll(errors[1..])
  }

  function Prefixed<T>(head: T, tails: seq<seq<T>>): (paths: seq<seq<T>>)
    ensures |paths| == |tails|
    ensures forall i :: 0 <= i < |tails| ==> paths[i] == [head] + tails[i]
  {
    seq(|tails|, i requires 0 <= i < |tails| => [head] + tails[i])
  }

  lemma {:induction false} LeavesOfConcat(xs: seq<Error>, ys: seq<Error>)
    ensures LeavesOfAll(xs + ys) == LeavesOfAll(xs) + LeavesOfAll(ys)
  {
    if xs == [] {
      assert xs + ys == ys;
    } else {
      assert (xs + ys)[1..] == xs[1..] + ys;
      LeavesOfConcat(xs[1..], ys);
    }
  }

  function LeavesOf(e: Option<Error>): (paths: seq<seq<string>>) {
    if e.None? then [] else Leaves(e.value)
  }

  lemma {:induction false} LeavesOfEmbed(message: string, field: string, inner: Option<Error>)
    ensures LeavesOfAll(Embed(message, field, inner)) == Prefixed(field, LeavesOf(inner))
  {
    if inner.Some? {
      var errors := Embed(message, field, inner);
      assert errors[1..] == [];
      assert LeavesOfAll(errors) == Leaves(errors[0]) + [];
    }
  }

  /** Every violation in the list has its lists filled in; the empty list qualifies. */
  predicate AllInhabited(errors: seq<Error>) {
    forall i :: 0 <= i < |errors| ==> Inhabited(errors[i])
  }
}
