/** The values offered by the three dial pickers, and how they are generated. */
module PickerValues {
  import opened Wrappers
  import opened Decimal

  /** The strings "0", "1", ..., in order: what `createArray(n)` is meant to return. */
  function PickerItems(n: nat): (items: seq<string>)
    ensures |items| == n
    ensures forall i | 0 <= i < n :: items[i] == ToDecimal(i)
    decreases n
  {
    if n == 0 then [] else PickerItems(n - 1) + [ToDecimal(n - 1)]
  }

  const AVAILABLE_HOURS: seq<string> := PickerItems(24)
  const AVAILABLE_MINUTES: seq<string> := PickerItems(60)
  const AVAILABLE_SECONDS: seq<string> := PickerItems(60)

  /**
   * `createArray`: push the decimal form of every index below `length` onto
   * an empty array. A length of zero or less gives the empty array.
   */
  method CreateArray(length: int) returns (arr: seq<string>)
    ensures arr == PickerItems(if length > 0 then length else 0)
    ensures forall i | 0 <= i < |arr| :: ParseInt(arr[i]) == Some(i)
  {
    arr := [];
    var i := 0;
    while i < length
      invariant 0 <= i <= (if length > 0 then length else 0)
      invariant arr == PickerItems(i)
    {
      arr := arr + [ToDecimal(i)];
      i := i + 1;
    }
    forall k | 0 <= k < |arr|
      ensures ParseInt(arr[k]) == Some(k)
    {
      ParseIntRoundTrip(k);
    }
  }

  /** A value some picker of `n` items offers: a string that `parseInt` reads as an index below `n` whose decimal form it is. */
  predicate IsPickerValue(s: string, n: nat) {
    var v := ParseInt(s);
    v.Some? && 0 <= v.value < n && ToDecimal(v.value) == s
  }

  /** The values on offer are exactly the picker values: each parses to its own index. */
  lemma PickerValueIff(s: string, n: nat)
    ensures s in PickerItems(n) <==> IsPickerValue(s, n)
  {
    var items := PickerItems(n);
    if s in items {
      var i :| 0 <= i < n && items[i] == s;
      ParseIntRoundTrip(i);
    }
    if IsPickerValue(s, n) {
      assert items[ParseInt(s).value] == s;
    }
  }

  /**
   * The hours picker offers the 24 values "0" to "23", the minutes and
   * seconds pickers the 60 values "0" to "59", each exactly its picker values.
   */
  lemma AvailableValues(s: string)
    ensures |AVAILABLE_HOURS| == 24 && |AVAILABLE_MINUTES| == 60 && |AVAILABLE_SECONDS| == 60
    ensures s in AVAILABLE_HOURS <==> IsPickerValue(s, 24)
    ensures s in AVAILABLE_MINUTES <==> IsPickerValue(s, 60)
    ensures s in AVAILABLE_SECONDS <==> IsPickerValue(s, 60)
  {
    PickerValueIff(s, 24);
    PickerValueIff(s, 60);
  }

  /** Every index's decimal form is on offer, so each dial can select any value in its range. */
  lemma PickerOffers(i: nat, n: nat)
    requires i < n
    ensures IsPickerValue(ToDecimal(i), n)
  {
    ParseIntRoundTrip(i);
  }

  /** The picker values are pairwise distinct, so they serve as the items' keys. */
  lemma PickerItemsDistinct(n: nat, i: nat, j: nat)
    requires i < n && j < n && i != j
    ensures PickerItems(n)[i] != PickerItems(n)[j]
  {
    if ToDecimal(i) == ToDecimal(j) {
      ToDecimalInjective(i, j);
    }
  }
}
