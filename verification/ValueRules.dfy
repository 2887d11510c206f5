/** Which values each type accepts, and which default it has, spelled out. */
module ValueRules {
  import opened Foundation
  import opened Decimal
  import opened Messages
  import opened Schemas
  import opened SchemaValues

  function Typed(baseType: int): (t: Option<FieldType>) {
    Some(FieldType(BaseType(Some(baseType))))
  }

  // ---- Base types ----

  lemma {:induction false} TextTypes(s: Schema, ps: Parsers, baseType: int, v: Json)
    requires baseType == STRING || baseType == IMAGE || baseType == VIDEO || baseType == FILE
    ensures Conforms(s, ps, Typed(baseType), false, v) <==> exists t :: v == Text(t)
  {
    assert v.Text? ==> v == Text(v.s);
  }

  lemma {:induction false} Booleans(s: Schema, ps: Parsers, v: Json)
    ensures Conforms(s, ps, Typed(BOOLEAN), false, v) <==> v == Bool(true) || v == Bool(false)
  {
  }

  lemma {:induction false} Decimals(s: Schema, ps: Parsers, v: Json)
    ensures Conforms(s, ps, Typed(DECIMAL), false, v) <==> exists t :: v == Number(t) && ps.float(t)
  {
    assert v.Number? ==> v == Number(v.text);
  }

  /** A single date or time is a text that its own layout parses. */
  lemma {:induction false} Times(s: Schema, ps: Parsers, v: Json)
    ensures Conforms(s, ps, Typed(DATE), false, v) <==> exists t :: v == Text(t) && ps.time(DateLayout, t)
    ensures Conforms(s, ps, Typed(TIME), false, v) <==> exists t :: v == Text(t) && ps.time(TimeLayout, t)
    ensures Conforms(s, ps, Typed(DATETIME), false, v) <==> exists t :: v == Text(t) && ps.time(DateTimeLayout, t)
  {
    assert v.Text? ==> v == Text(v.s);
  }

  /** A range is an array of two texts, both parsed by its layout. */
  ghost predicate IsPair(ps: Parsers, layout: Layout, v: Json) {
    exists a, b :: v == Array([Text(a), Text(b)]) && ps.time(layout, a) && ps.time(layout, b)
  }

  lemma {:induction false} Ranges(s: Schema, ps: Parsers, v: Json)
    ensures Conforms(s, ps, Typed(DATE_RANGE), false, v) <==> IsPair(ps, DateLayout, v)
    ensures Conforms(s, ps, Typed(TIME_RANGE), false, v) <==> IsPair(ps, TimeLayout, v)
    ensures Conforms(s, ps, Typed(DATETIME_RANGE), false, v) <==> IsPair(ps, DateTimeLayout, v)
  {
    if v.Array? && |v.items| == 2 && v.items[0].Text? && v.items[1].Text? {
      assert v == Array([Text(v.items[0].s), Text(v.items[1].s)]);
    }
  }

  /** There is no other base type. */
  lemma {:induction false} OtherBaseTypes(s: Schema, ps: Parsers, baseType: int, v: Json)
    requires baseType < 1 || baseType > 13
    ensures !Conforms(s, ps, Typed(baseType), false, v)
  {
  }

  // ---- Integers ----

  /** A sign or none, zeros or none, and a decimal whose value with that sign fits in 64 bits. */
  ghost predicate WritesInt64(text: string, sign: string, zeros: nat, n: nat) {
    && (sign == "" || sign == "+" || sign == "-") && text == sign + (Zeros(zeros) + Format(n))
    && n <= if sign == "-" then 0x8000_0000_0000_0000 else 0x7fff_ffff_ffff_ffff
  }

  lemma {:induction false} Integers(s: Schema, ps: Parsers, v: Json)
    ensures Conforms(s, ps, Typed(INT), false, v)
       <==> v.Number? && exists sign, zeros, n :: WritesInt64(v.text, sign, zeros, n)
  {
    if v.Number? {
      if Int64Text(v.text) {
        var sign, zeros, n := Int64IsSigned(v.text);
      }
      forall sign, zeros, n | WritesInt64(v.text, sign, zeros, n)
        ensures Int64Text(v.text)
      {
        SignedIsInt64(v.text, sign, zeros, n);
      }
    }
  }

  lemma {:induction false} Int64IsSigned(text: string) returns (sign: string, zeros: nat, n: nat)
    requires Int64Text(text)
    ensures WritesInt64(text, sign, zeros, n)
  {
    sign := if text[0] == '-' then "-" else if text[0] == '+' then "+" else "";
    var digits := if sign == "" then text else text[1..];
    assert text == sign + digits;
    zeros := DigitsAreDecimal(digits);
    n := Parse(digits);
  }

  lemma {:induction false} SignedIsInt64(text: string, sign: string, zeros: nat, n: nat)
    requires WritesInt64(text, sign, zeros, n)
    ensures Int64Text(text)
  {
    var digits := Zeros(zeros) + Format(n);
    LeadingZeros(zeros, Format(n));
    ParseFormat(n);
    assert IsDigit(digits[0]);
    assert text[|sign|..] == digits;
    if sign == "" {
      assert text == digits;
    } else {
      assert text[0] == sign[0];
    }
  }

  /** The printed text of an integer. */
  function Print(n: int): (text: string) {
    if n < 0 then "-" + Format(-n) else Format(n)
  }

  /** Printed integers are accepted exactly if they fit in 64 bits. */
  lemma {:induction false} PrintedIntegers(s: Schema, ps: Parsers, n: int)
    ensures Conforms(s, ps, Typed(INT), false, Number(Print(n)))
       <==> -0x8000_0000_0000_0000 <= n < 0x8000_0000_0000_0000
  {
    ParseFormat(if n < 0 then -n else n);
    var text := Print(n);
    if n < 0 {
      assert text[1..] == Format(-n);
    } else {
      assert IsDigit(text[0]);
    }
  }

  // ---- Enums, arrays, defaults ----

  lemma {:induction false} EnumsAndArrays(
      s: Schema, ps: Parsers, fieldType: Option<FieldType>, key: Bytes, item: ConfigEnum, v: Json)
    requires key in s.enums && s.enums[key] == item && ValidEnum(Some(item))
    ensures Conforms(s, ps, Some(FieldType(EnumKey(Some(key)))), false, v)
       <==> exists i :: 0 <= i < |item.values| && v == Text(item.values[i].value.value)
    ensures Conforms(s, ps, fieldType, true, v)
       <==> exists items :: v == Array(items)
                            && forall i :: 0 <= i < |items| ==> Conforms(s, ps, fieldType, false, items[i])
  {
    assert v.Array? ==> v == Array(v.items);
    assert v.Text? ==> v == Text(v.s);
    assert forall i :: 0 <= i < |item.values| ==> OptionValues(item.values)[i] == item.values[i].value.value;
    assert forall i :: 0 <= i < |item.values| ==> ValidOption(item.values[i]);
  }

  /** The defaults, type by type; those of structures are made of these. */
  lemma {:induction false} Defaults(s: Schema, baseType: int, fieldType: Option<FieldType>, key: Bytes, v: Json)
    requires key in s.enums && ValidEnum(Some(s.enums[key]))
    ensures IsDefault(s, fieldType, true, v) <==> v == Array([])
    ensures IsDefault(s, Typed(baseType), false, v)
       <==> v == match baseType
                 case 2 => Number("0")
                 case 3 => Number("0")
                 case 4 => Bool(false)
                 case 8 => Array([])
                 case 9 => Array([])
                 case 10 => Array([])
                 case _ => Text([])
    ensures IsDefault(s, Some(FieldType(EnumKey(Some(key)))), false, v)
       <==> v == Text(s.enums[key].values[0].value.value)
  {
    assert ValidOption(s.enums[key].values[0]);
  }

  /** So a type has at most one default. */
  lemma {:induction false} DefaultUnique(s: Schema, fieldType: Option<FieldType>, isArray: bool, v: Json, w: Json)
    requires Resolved(s) && ResolvedType(s, fieldType)
    requires IsDefault(s, fieldType, isArray, v) && IsDefault(s, fieldType, isArray, w)
    ensures v == w
    decreases v
  {
    if !isArray && fieldType.value.kind.StructureKey? {
      var fields := s.structures[fieldType.value.kind.structureKey.value].fields;
      forall k | k in v.members
        ensures v.members[k] == w.members[k]
      {
        var i :| 0 <= i < |fields| && FieldKeys(fields)[i] == k;
        assert ValidField(s, fields[i]);
        DefaultUnique(s, fields[i].value.fieldType, fields[i].value.isArray, v.members[k], w.members[k]);
      }
      assert v.members == w.members;
    }
  }
}
