/** Option and byte-string types shared by every module. */
module Foundation {
  datatype Option<+T> = None | Some(value: T)

  /** A Go string is a sequence of bytes, not necessarily well-formed UTF-8. */
  newtype byte = x: int | 0 <= x < 256

  type Bytes = seq<byte>

  predicate AllDistinct<T(==)>(s: seq<T>) {
    forall i, j :: 0 <= i < j < |s| ==> s[i] != s[j]
  }

  function Members<T>(s: seq<T>): (r: set<T>) {
    set x | x in s
  }

  const MAX_INT64: int := 0x7fff_ffff_ffff_ffff
}

/** Decimal printing (`strconv.FormatInt`, the `%v` verb on an index) and the labels built from it. */
module Decimal {
  import opened Foundation

  const DIGITS: string := "0123456789"

  predicate IsDigit(c: char) {
    '0' <= c <= '9'
  }

  function DigitValue(c: char): (d: nat)
    requires IsDigit(c)
  {
    c as int - '0' as int
  }

  function Format(n: nat): (s: string)
    ensures |s| > 0
    ensures forall i :: 0 <= i < |s| ==> IsDigit(s[i])
  {
    if n < 10 then [DIGITS[n]] else Format(n / 10) + [DIGITS[n % 10]]
  }

  function Parse(s: string): (n: nat)
    requires forall i :: 0 <= i < |s| ==> IsDigit(s[i])
  {
    if s == [] then 0 else 10 * Parse(s[..|s| - 1]) + DigitValue(s[|s| - 1])
  }

  lemma {:induction false} ParseFormat(n: nat)
    ensures Parse(Format(n)) == n
  {
    if n < 10 {
      assert Format(n)[..0] == [];
    } else {
      ParseFormat(n / 10);
      assert Format(n)[..|Format(n)| - 1] == Format(n / 10);
    }
  }

  /** A decimal followed by a non-digit can be read back off the front of any text. */
  lemma {:induction false} FormatPrefixUnique(m: nat, n: nat, s: string, t: string)
    requires |s| > 0 && !IsDigit(s[0])
    requires |t| > 0 && !IsDigit(t[0])
    requires Format(m) + s == Format(n) + t
    ensures m == n && s == t
  {
    var a, b := Format(m), Format(n);
    var text := a + s;
    assert forall i :: 0 <= i < |a| ==> IsDigit(text[i]);
    assert forall i :: 0 <= i < |b| ==> IsDigit(text[i]) by { assert text == b + t; }
    assert !IsDigit(text[|a|]);
    assert !IsDigit(text[|b|]) by { assert text == b + t; }
    assert a == (a + s)[..|a|] == b;
    assert s == (a + s)[|a|..] == t;
    ParseFormat(m);
    ParseFormat(n);
  }

  /** `fmt.Sprintf("Name[%v]", idx)`: the label of one element of a repeated field. */
  function Label(name: string, index: nat): (s: string) {
    name + "[" + Format(index) + "]"
  }

  /** Two positions of one repeated field never share a label. */
  lemma {:induction false} LabelInjective(name: string, i: nat, j: nat)
    requires Label(name, i) == Label(name, j)
    ensures i == j
  {
    assert Label(name, i)[|name| + 1..] == Format(i) + "]";
    assert Label(name, j)[|name| + 1..] == Format(j) + "]";
    FormatPrefixUnique(i, j, "]", "]");
  }

  function FormatActor(value: int): (s: string)
    requires -MAX_INT64 - 1 <= value <= MAX_INT64
  {
    if value <= 0 then "" else Format(value)
  }

  /** An actor id is shown as nothing exactly when it is not positive; otherwise its text is its decimal. */
  lemma {:induction false} FormatActorDecodes(value: int)
    requires -MAX_INT64 - 1 <= value <= MAX_INT64
    ensures FormatActor(value) == "" <==> value <= 0
    ensures value > 0 ==> Parse(FormatActor(value)) == value && FormatActor(value)[0] != '0'
  {
    if value > 0 {
      ParseFormat(value);
      NoLeadingZero(value);
    }
  }

  lemma {:induction false} NoLeadingZero(n: nat)
    requires n > 0
    ensures Format(n)[0] != '0'
  {
    if n >= 10 {
      NoLeadingZero(n / 10);
    }
  }

  function Zeros(n: nat): (s: string) {
    seq(n, i => '0')
  }

  /** Every text of digits is a decimal after some zeros. */
  lemma {:induction false} DigitsAreDecimal(digits: string) returns (zeros: nat)
    requires digits != "" && forall i :: 0 <= i < |digits| ==> IsDigit(digits[i])
    ensures digits == Zeros(zeros) + Format(Parse(digits))
  {
    var last := |digits| - 1;
    var before, d := digits[..last], DigitValue(digits[last]);
    assert Format(d) == [digits[last]];
    assert digits == before + [digits[last]];
    if last == 0 {
      zeros := 0;
    } else {
      zeros := DigitsAreDecimal(before);
      var n := Parse(before);
      if n == 0 {
        assert Zeros(zeros + 1) == Zeros(zeros) + Format(0);
        zeros := zeros + 1;
      } else {
        assert Parse(digits) / 10 == n && Parse(digits) % 10 == d;
        assert Format(Parse(digits)) == Format(n) + [digits[last]];
      }
    }
  }

  /** And it has the value of that decimal. */
  lemma {:induction false} LeadingZeros(zeros: nat, digits: string)
    requires forall i :: 0 <= i < |digits| ==> IsDigit(digits[i])
    ensures Parse(Zeros(zeros) + digits) == Parse(digits)
    decreases zeros + |digits|
  {
    var text := Zeros(zeros) + digits;
    if digits != "" {
      LeadingZeros(zeros, digits[..|digits| - 1]);
      assert text[..|text| - 1] == Zeros(zeros) + digits[..|digits| - 1];
    } else if zeros > 0 {
      LeadingZeros(zeros - 1, "");
      assert text[..|text| - 1] == Zeros(zeros - 1) + "";
    }
  }
}
