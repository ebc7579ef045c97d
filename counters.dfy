/** Splitting a statistic's text, such as "500+" or "98.5%", into the number the
    counter animates to and the suffix shown after it. */
module Counters {
  import opened JsText

  /** The characters kept as the number: the ASCII digits and `.`. */
  predicate IsNumeric(c: char) {
    IsDigit(c) || c == '.'
  }

  predicate IsSuffixChar(c: char) {
    !IsNumeric(c)
  }

  /** The number text: every digit and dot of `raw`, in order. */
  function CounterTarget(raw: string): string {
    Keep(raw, IsNumeric)
  }

  /** The suffix text: every other character of `raw`, in order. */
  function CounterSuffix(raw: string): string {
    Keep(raw, IsSuffixChar)
  }

  /** Every character of the text lands in exactly one of the two parts. */
  lemma {:induction false} SplitPartitions(raw: string)
    ensures |CounterTarget(raw)| + |CounterSuffix(raw)| == |raw|
    ensures multiset(CounterTarget(raw)) + multiset(CounterSuffix(raw)) == multiset(raw)
  {
    if raw != [] {
      var rest := raw[1..];
      SplitPartitions(rest);
      assert raw == [raw[0]] + rest;
      if IsNumeric(raw[0]) {
        assert CounterTarget(raw) == [raw[0]] + CounterTarget(rest);
        assert CounterSuffix(raw) == CounterSuffix(rest);
      } else {
        assert CounterTarget(raw) == CounterTarget(rest);
        assert CounterSuffix(raw) == [raw[0]] + CounterSuffix(rest);
      }
    }
  }

  /** A number followed by a unit splits into that number and that unit. */
  lemma NumberThenUnit(num: string, unit: string)
    requires forall i :: 0 <= i < |num| ==> IsNumeric(num[i])
    requires forall i :: 0 <= i < |unit| ==> !IsNumeric(unit[i])
    ensures CounterTarget(num + unit) == num
    ensures CounterSuffix(num + unit) == unit
  {
    KeepConcat(num, unit, IsNumeric);
    KeepAll(num, IsNumeric);
    KeepNone(unit, IsNumeric);
    KeepConcat(num, unit, IsSuffixChar);
    KeepNone(num, IsSuffixChar);
    KeepAll(unit, IsSuffixChar);
  }

  /** A unit written before the number also ends up in the suffix, which the
      counter shows after the number: "$500" is split into "500" and "$". */
  lemma UnitThenNumber(unit: string, num: string)
    requires forall i :: 0 <= i < |num| ==> IsNumeric(num[i])
    requires forall i :: 0 <= i < |unit| ==> !IsNumeric(unit[i])
    ensures CounterTarget(unit + num) == num
    ensures CounterSuffix(unit + num) == unit
  {
    KeepConcat(unit, num, IsNumeric);
    KeepNone(unit, IsNumeric);
    KeepAll(num, IsNumeric);
    KeepConcat(unit, num, IsSuffixChar);
    KeepAll(unit, IsSuffixChar);
    KeepNone(num, IsSuffixChar);
  }

  /** "98.5%" gives the number "98.5" and the suffix "%". */
  lemma PercentExample()
    ensures CounterTarget("98.5%") == "98.5" && CounterSuffix("98.5%") == "%"
  {
    NumberThenUnit("98.5", "%");
    assert "98.5" + "%" == "98.5%";
  }
}
