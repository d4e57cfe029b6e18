/**
  The text a client prints, character by character: its numbers, the three options every query carries, and the stored
  parameters behind them.
 */
module ClientMeaning {
  import opened Options
  import opened Bytes
  import opened QueryText
  import opened ClientQuery
  import B = Base64

  // ----- numbers -----

  /** The number a string of decimal digits spells. */
  function DigitsValue(s: string): int {
    if s == "" then 0 else 10 * DigitsValue(s[..|s| - 1]) + (s[|s| - 1] as int - '0' as int)
  }

  function IntegerValue(s: string): int {
    if s != "" && s[0] == '-' then -DigitsValue(s[1..]) else DigitsValue(s)
  }

  lemma {:induction false} DigitsSpell(n: nat)
    ensures DigitsValue(DecimalNat(n)) == n
    ensures |DecimalNat(n)| > 0 && DecimalNat(n)[0] != '-' && (DecimalNat(n)[0] == '0' ==> n == 0)
  {
    if n < 10 {
      assert DigitsValue("") == 0;
      assert DecimalNat(n)[..0] == "";
    } else {
      var s := DecimalNat(n);
      DigitsSpell(n / 10);
      assert s[..|s| - 1] == DecimalNat(n / 10);
    }
  }

  /** A number is printed so that its digits spell it, with no zero in front. */
  lemma DecimalLaw(n: int)
    ensures IntegerValue(Decimal(n)) == n
    ensures n > 0 ==> Decimal(n)[0] != '0'
    ensures n < 0 ==> Decimal(n)[0] == '-' && |Decimal(n)| > 1 && Decimal(n)[1] != '0'
  {
    DigitsSpell(if n < 0 then -n else n);
  }

  // ----- the query text -----

  lemma PrintMore(params: seq<Param>, p: Param)
    ensures PrintParams(params + [p]) == PrintParams(params) + PrintParam(p)
  {
    assert (params + [p])[..|params|] == params;
  }

  lemma PrintOne(p: Param)
    ensures PrintParams([p]) == PrintParam(p)
  {
    assert PrintParams([p][..0]) == "";
  }

  lemma PrintTwo(a: Param, b: Param)
    ensures PrintParams([a, b]) == PrintParam(a) + PrintParam(b)
  {
    PrintOne(a);
    PrintMore([a], b);
    assert [a] + [b] == [a, b];
  }

  lemma PrintThree(a: Param, b: Param, c: Param)
    ensures PrintParams([a, b, c]) == PrintParam(a) + PrintParam(b) + PrintParam(c)
  {
    PrintTwo(a, b);
    PrintMore([a, b], c);
    assert [a, b] + [c] == [a, b, c];
  }

  lemma FixedNames(value: string)
    ensures PrintParam(Param("datatype", value)) == " $datatype:" + value
    ensures PrintParam(Param("resultnum", value)) == " $resultnum:" + value
    ensures PrintParam(Param("extractmetadata", value)) == " $extractmetadata:" + value
  {
    assert " $" + "datatype" + ":" == " $datatype:";
    assert " $" + "resultnum" + ":" == " $resultnum:";
    assert " $" + "extractmetadata" + ":" == " $extractmetadata:";
  }

  lemma Regrouped(s: string, a: string, b: string, c: string)
    ensures s + (a + b + c) == s + a + b + c
  {
  }

  /** Without stored parameters: the bytes as base64 and the three options of every query. */
  lemma FixedText(data: seq<byte>, valueType: ValueType, resultNum: int, extractMetadata: bool)
    ensures ClientText(data, valueType, resultNum, extractMetadata, [], map[]) ==
      "#" + B.Encoded(data) + (" $datatype:" + TypeName(valueType)) + (" $resultnum:" + Decimal(resultNum))
      + (" $extractmetadata:" + if extractMetadata then "true" else "false")
  {
    var fixed, flag := FixedParams(valueType, resultNum, extractMetadata), if extractMetadata then "true" else "false";
    PrintThree(fixed[0], fixed[1], fixed[2]);
    FixedNames(TypeName(valueType));
    FixedNames(Decimal(resultNum));
    FixedNames(flag);
    Regrouped("#" + B.Encoded(data), PrintParam(fixed[0]), PrintParam(fixed[1]), PrintParam(fixed[2]));
    assert fixed + Listed([], map[]) == [fixed[0], fixed[1], fixed[2]];
  }

  /** Every further parameter adds a blank, '$', its name, ':' and its value. */
  lemma StoredText(data: seq<byte>, valueType: ValueType, resultNum: int, extractMetadata: bool, order: seq<string>,
      params: map<string, string>)
    requires order != [] && forall n :: 0 <= n < |order| ==> order[n] in params
    ensures var n := |order| - 1;
      ClientText(data, valueType, resultNum, extractMetadata, order, params) ==
      ClientText(data, valueType, resultNum, extractMetadata, order[..n], params)
        + (" $" + order[n] + ":" + params[order[n]])
  {
    var n, fixed := |order| - 1, FixedParams(valueType, resultNum, extractMetadata);
    var before, last := fixed + Listed(order[..n], params), Param(order[n], params[order[n]]);
    assert fixed + Listed(order, params) == before + [last];
    PrintMore(before, last);
    Behind("#" + B.Encoded(data), PrintParams(before), PrintParam(last));
  }

  lemma Behind(s: string, a: string, b: string)
    ensures s + (a + b) == s + a + b
  {
  }

  /** The names of the value types. */
  lemma TypeNames()
    ensures TypeName(Int8) == "Int8" && TypeName(UInt8) == "UInt8" && TypeName(Int16) == "Int16"
      && TypeName(Float) == "Float" && TypeName(Undefined) == "Undefined"
  {
  }
}
