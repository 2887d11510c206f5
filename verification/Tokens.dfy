/** Texts made of steps into numbered children and of faults, for any choice of the words in between. */
module Tokens {
  import opened Decimal

  /** The text lists steps into children and faults, but not where a child's part ends. */
  datatype Token = Enter(index: nat) | Fault

  datatype Style = Style(head: string, tail: string, fault: string, separator: string)

  /** The words differ somewhere before the first number, and no number runs into the word after it. */
  predicate Readable(style: Style) {
    && (exists k :: 0 <= k < |style.head| && k < |style.fault| && style.head[k] != style.fault[k])
    && style.tail != "" && !IsDigit(style.tail[0])
    && style.separator != ""
  }

  function Text(style: Style, tokens: seq<Token>): (s: string)
    decreases tokens, 1
  {
    if tokens == [] then ""
    else if tokens[0].Enter? then style.head + (Format(tokens[0].index) + (style.tail + Text(style, tokens[1..])))
    else style.fault + After(style, tokens)
  }

  function After(style: Style, tokens: seq<Token>): (s: string)
    requires tokens != []
    decreases tokens, 0
  {
    if |tokens| == 1 then "" else style.separator + Text(style, tokens[1..])
  }

  /** Every step into a child is followed by something wrong there. */
  predicate Closed(tokens: seq<Token>) {
    tokens == [] || tokens[|tokens| - 1].Fault?
  }

  lemma {:induction false} Associative(p: string, q: string, r: string)
    ensures p + (q + r) == p + q + r
  {
  }

  /** An indexed heading, split around its number. */
  lemma {:induction false} Regroup(
      o: string, n: string, l: string, f: string, r: string, c: string, k: string, s: string)
    ensures o + ((n + l + f + r) + c) + (k + s) == (o + (n + l)) + (f + ((r + (c + k)) + s))
  {
    Associative(c, k, s);
    Associative(r, c + k, s);
    Associative(f, r, (c + k) + s);
    Associative(n + l, f + r, (c + k) + s);
    Associative(n + l, f, r);
    Associative(n + l + f + r, c, k + s);
    Associative(o, (n + l + f + r) + c, k + s);
    Associative(o, n + l, f + (r + ((c + k) + s)));
  }

  lemma {:induction false} CancelPrefix(p: string, s: string, t: string)
    requires p + s == p + t
    ensures s == t
  {
    assert s == (p + s)[|p|..] == (p + t)[|p|..] == t;
  }

  lemma {:induction false} TextConcat(style: Style, a: seq<Token>, b: seq<Token>)
    requires Closed(a) && a != [] && b != []
    ensures Text(style, a + b) == Text(style, a) + (style.separator + Text(style, b))
  {
    assert (a + b)[1..] == a[1..] + b;
    var more := style.separator + Text(style, b);
    if |a| == 1 {
      assert a[1..] + b == b;
      Associative(style.fault, "", more);
      assert "" + more == more;
    } else {
      TextConcat(style, a[1..], b);
      var rest := Text(style, a[1..]);
      if a[0].Enter? {
        Associative(style.tail, rest, more);
        Associative(Format(a[0].index), style.tail + rest, more);
        Associative(style.head, Format(a[0].index) + (style.tail + rest), more);
      } else {
        Associative(style.separator, rest, more);
        Associative(style.fault, style.separator + rest, more);
      }
    }
  }

  lemma {:induction false} ClosedConcat(style: Style, a: seq<Token>, b: seq<Token>)
    requires Closed(a) && Closed(b)
    ensures Closed(a + b)
    ensures Text(style, a + b)
         == if a == [] then Text(style, b)
            else if b == [] then Text(style, a)
            else Text(style, a) + (style.separator + Text(style, b))
  {
    if a == [] {
      assert a + b == b;
    } else if b == [] {
      assert a + b == a;
    } else {
      TextConcat(style, a, b);
    }
  }

  lemma {:induction false} SameFirstKind(style: Style, a: seq<Token>, b: seq<Token>)
    requires Readable(style) && a != [] && b != [] && Text(style, a) == Text(style, b)
    ensures a[0].Enter? <==> b[0].Enter?
  {
    var k :| 0 <= k < |style.head| && k < |style.fault| && style.head[k] != style.fault[k];
    assert Text(style, a)[k] == if a[0].Enter? then style.head[k] else style.fault[k];
    assert Text(style, b)[k] == if b[0].Enter? then style.head[k] else style.fault[k];
  }

  /** A text can be read back into its tokens. */
  lemma {:induction false} TextInjective(style: Style, a: seq<Token>, b: seq<Token>)
    requires Readable(style) && Closed(a) && Closed(b) && Text(style, a) == Text(style, b)
    ensures a == b
  {
    if a != [] && b != [] {
      SameFirstKind(style, a, b);
      var s, t := Text(style, a[1..]), Text(style, b[1..]);
      if a[0].Enter? {
        var i, j := a[0].index, b[0].index;
        CancelPrefix(style.head, Format(i) + (style.tail + s), Format(j) + (style.tail + t));
        FormatPrefixUnique(i, j, style.tail + s, style.tail + t);
        CancelPrefix(style.tail, s, t);
        TextInjective(style, a[1..], b[1..]);
      } else {
        CancelPrefix(style.fault, After(style, a), After(style, b));
        if |a| > 1 && |b| > 1 {
          CancelPrefix(style.separator, s, t);
          TextInjective(style, a[1..], b[1..]);
        }
      }
      assert a == [a[0]] + a[1..] && b == [b[0]] + b[1..];
    }
  }
}
