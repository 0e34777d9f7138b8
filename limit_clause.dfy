/**
 * The LIMIT clause: `limit($nb, $skip)` appends the count, preceded by the
 * offset and ", " when the offset is not 0; generation prepends " LIMIT ".
 */
module LimitClause {
  import opened PhpStrings

  /** The text one `limit($nb, $skip)` call appends (both already `intval`-ed). */
  function LimitText(nb: int, skip: int): (r: string)
    ensures skip == 0 ==> ParseDecimal(r) == nb
  {
    DecimalRoundTrip(nb);
    if skip == 0 then IntToDecimal(nb) else IntToDecimal(skip) + ", " + IntToDecimal(nb)
  }

  /** A decimal rendering never contains ", ". */
  lemma DecimalHasNoSeparator(i: int)
    ensures forall k: nat :: !OccursAt(", ", IntToDecimal(i), k)
  {
    var d := IntToDecimal(i);
    forall k: nat ensures !OccursAt(", ", d, k) {
      if k + 2 <= |d| {
        assert d[k..k + 2][0] == d[k];
      }
    }
  }

  /**
   * The text round-trips: split at ", " it yields the offset (when there is
   * one) and the count, which parse back to the numbers given.
   */
  lemma LimitRoundTrip(nb: int, skip: int)
    ensures skip == 0 ==> Explode(", ", LimitText(nb, skip)) == [IntToDecimal(nb)]
    ensures skip != 0 ==> Explode(", ", LimitText(nb, skip)) == [IntToDecimal(skip), IntToDecimal(nb)]
    ensures var parts := Explode(", ", LimitText(nb, skip));
            && ParseDecimal(parts[|parts| - 1]) == nb
            && (|parts| == 2 ==> ParseDecimal(parts[0]) == skip)
  {
    DecimalRoundTrip(nb);
    DecimalRoundTrip(skip);
    if skip == 0 {
      CountOnly(nb);
    } else {
      OffsetAndCount(IntToDecimal(skip), IntToDecimal(nb), skip, nb);
    }
  }

  /** Without an offset the text is one decimal, and no separator splits it. */
  lemma CountOnly(nb: int)
    ensures Explode(", ", IntToDecimal(nb)) == [IntToDecimal(nb)]
  {
    DecimalHasNoSeparator(nb);
    ExplodeNone(", ", IntToDecimal(nb));
  }

  /** With an offset the one separator splits the text into offset and count. */
  lemma OffsetAndCount(a: string, b: string, skip: int, nb: int)
    requires a == IntToDecimal(skip) && b == IntToDecimal(nb)
    ensures Explode(", ", a + ", " + b) == [a, b]
  {
    DecimalHasNoSeparator(nb);
    DecimalHasNoSeparator(skip);
    var s := a + ", " + b;
    var p := |a|;
    assert OccursAt(", ", s, p) by {
      assert s[p..p + 2] == ", ";
    }
    SeparatorOnlyAt(a, b);
    ExplodeOnce(", ", s, p);
    assert s[..p] == a;
    assert s[p + 2..] == b;
  }

  /** Joining two texts free of ", " with ", " puts the only occurrence at the seam. */
  lemma SeparatorOnlyAt(a: string, b: string)
    requires forall i: nat :: !OccursAt(", ", a, i)
    requires forall i: nat :: !OccursAt(", ", b, i)
    ensures forall k: nat :: OccursAt(", ", a + ", " + b, k) ==> k == |a|
  {
    var s := a + ", " + b;
    assert s[|a|] == ',' && s[|a| + 1] == ' ';
    forall k: nat | k != |a| ensures !OccursAt(", ", s, k) {
      if k + 2 <= |a| {
        assert s[k..k + 2] == a[k..k + 2];
        assert !OccursAt(", ", a, k);
      } else if k <= |a| + 1 {
        if k + 2 <= |s| {
          assert s[k..k + 2][0] == s[k] && s[k..k + 2][1] == s[k + 1];
        }
      } else if k + 2 <= |s| {
        var j := k - |a| - 2;
        assert s[k..k + 2] == b[j..j + 2];
        assert !OccursAt(", ", b, j);
      }
    }
  }

  /**
   * Calls accumulate with no separator: a second `limit` with a one-digit
   * count extends the first count by that digit.
   */
  lemma LimitCallsConcatenate(first: nat, second: nat)
    requires second < 10
    ensures ParseDecimal(LimitText(first, 0) + LimitText(second, 0)) == first * 10 + second
  {
    var a := NatToDecimal(first);
    var s := a + [DigitChar(second)];
    assert LimitText(first, 0) + LimitText(second, 0) == s;
    assert s[0] == a[0];
    assert s[..|s| - 1] == a;
    NatDecimalRoundTrip(first);
  }

  class LimitClause {
    var limit: string

    constructor ()
      ensures limit == ""
    {
      limit := "";
    }

    /** `limit($nb, $skip = 0)`: a second call appends to the first, with no separator. */
    method Limit(nb: int, skip: int := 0)
      modifies this
      ensures limit == old(limit) + LimitText(nb, skip)
    {
      if skip == 0 {
        limit := limit + IntToDecimal(nb);
      } else {
        limit := limit + (IntToDecimal(skip) + ", " + IntToDecimal(nb));
      }
    }

    /** `generateLimit()`. */
    function GenerateLimit(): (r: string)
      reads this
      ensures limit == "" <==> r == ""
      ensures limit != "" ==> r == " LIMIT " + limit
    {
      if limit == "" then "" else " LIMIT " + limit
    }
  }
}
