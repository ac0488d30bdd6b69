/**
 Collection helpers of the repository's utility module: flattening nested
 lists, de-duplication, integer-to-text conversion and per-key occurrence
 counting. The dataframe helpers are not part of this model.
 */
module Utils {

  /** Sum of the lengths of the inner sequences. */
  function TotalLength<T>(lists: seq<seq<T>>): nat
  {
    if lists == [] then 0 else |lists[0]| + TotalLength(lists[1..])
  }

  /** `flatten_lists`: the inner lists, concatenated in order. */
  function FlattenLists<T>(lists: seq<seq<T>>): (r: seq<T>)
    ensures |r| == TotalLength(lists)
  {
    if lists == [] then [] else lists[0] + FlattenLists(lists[1..])
  }

  /** Flattening distributes over concatenation of the outer list. */
  lemma {:induction false} FlattenListsAppend<T>(a: seq<seq<T>>, b: seq<seq<T>>)
    ensures FlattenLists(a + b) == FlattenLists(a) + FlattenLists(b)
  {
    if a != [] {
      assert (a + b)[1..] == a[1..] + b;
      FlattenListsAppend(a[1..], b);
    } else {
      assert a + b == b;
    }
  }

  /** An element occurs in the flattened list iff it occurs in some inner list. */
  lemma {:induction false} FlattenListsMembership<T>(lists: seq<seq<T>>, x: T)
    ensures x in FlattenLists(lists) <==> exists i :: 0 <= i < |lists| && x in lists[i]
  {
    if lists != [] {
      FlattenListsMembership(lists[1..], x);
      if x in FlattenLists(lists[1..]) {
        var i :| 0 <= i < |lists[1..]| && x in lists[1..][i];
        assert x in lists[i + 1];
      }
      if exists i :: 0 <= i < |lists| && x in lists[i] {
        var i :| 0 <= i < |lists| && x in lists[i];
        if i > 0 {
          assert x in lists[1..][i - 1];
        }
      }
    }
  }

  /** The inner list at position i sits at offset TotalLength(lists[..i]) of the result. */
  lemma {:induction false} FlattenListsAt<T>(lists: seq<seq<T>>, i: nat, j: nat)
    requires i < |lists| && j < |lists[i]|
    ensures TotalLength(lists[..i]) + j < |FlattenLists(lists)|
    ensures FlattenLists(lists)[TotalLength(lists[..i]) + j] == lists[i][j]
  {
    if i > 0 {
      FlattenListsAt(lists[1..], i - 1, j);
      assert lists[1..][..i - 1] == lists[..i][1..];
      assert lists[..i][0] == lists[0];
    } else {
      assert lists[..0] == [];
    }
  }

  predicate NoDuplicates<T(==)>(s: seq<T>)
  {
    forall i, j :: 0 <= i < j < |s| ==> s[i] != s[j]
  }

  /**
   `unique_elements`: `list(set(values))`. Python fixes no order for the
   result; this body keeps the last occurrence of each value, and the
   contract promises only what the set conversion does: the same elements,
   each once.
   */
  function UniqueElements<T(==)>(values: seq<T>): (r: seq<T>)
    ensures forall i :: 0 <= i < |values| ==> values[i] in r
    ensures forall i :: 0 <= i < |r| ==> r[i] in values
    ensures NoDuplicates(r)
    ensures |r| <= |values|
  {
    if values == [] then []
    else
      var rest := UniqueElements(values[1..]);
      if values[0] in rest then rest else [values[0]] + rest
  }

  /** A duplicate-free sequence has as many elements as its set. */
  lemma {:induction false} DistinctCardinality<T>(s: seq<T>)
    requires NoDuplicates(s)
    ensures |set x | x in s| == |s|
  {
    if s != [] {
      DistinctCardinality(s[1..]);
      var tail := set x | x in s[1..];
      assert forall k :: 0 <= k < |s[1..]| ==> s[1..][k] == s[k + 1] != s[0];
      assert s[0] !in tail;
      assert (set x | x in s) == {s[0]} + tail;
    }
  }

  /** The result has exactly as many elements as the input has distinct values. */
  lemma UniqueElementsSize<T>(values: seq<T>)
    ensures |UniqueElements(values)| == |set x | x in values|
  {
    var r := UniqueElements(values);
    DistinctCardinality(r);
    assert (set x | x in r) == (set x | x in values);
  }

  /** Occurrences of x in s, counted one position at a time. */
  function Occurrences<T(==)>(s: seq<T>, x: T): nat
  {
    if s == [] then 0 else (if s[0] == x then 1 else 0) + Occurrences(s[1..], x)
  }

  /** A `Counter` (modelled as a multiset) holds, for each x, its number of occurrences. */
  lemma {:induction false} CounterCounts<T>(s: seq<T>, x: T)
    ensures multiset(s)[x] == Occurrences(s, x)
  {
    if s != [] {
      CounterCounts(s[1..], x);
      assert s == [s[0]] + s[1..];
      assert multiset(s) == multiset{s[0]} + multiset(s[1..]);
    }
  }

  /**
   `count_co_occurrence`: one `Counter` per key of `matches`.
   `count_co_occurrence` fills the result key by key; here the key set is
   visited in no fixed order, which does not change the result.
   */
  method CountCoOccurrence<K, V(==)>(matches: map<K, seq<V>>) returns (countDict: map<K, multiset<V>>)
    ensures countDict.Keys == matches.Keys
    ensures forall k :: k in countDict ==> countDict[k] == multiset(matches[k])
    ensures forall k :: k in countDict ==> |countDict[k]| == |matches[k]|
  {
    countDict := map[];
    var todo := matches.Keys;
    while todo != {}
      invariant todo <= matches.Keys
      invariant countDict.Keys == matches.Keys - todo
      invariant forall k :: k in countDict ==> countDict[k] == multiset(matches[k])
      decreases todo
    {
      var key :| key in todo;
      countDict := countDict[key := multiset(matches[key])];
      todo := todo - {key};
    }
  }

  /** Decimal digit character for 0..9. */
  function DigitChar(d: nat): (c: char)
    requires d < 10
    ensures '0' <= c <= '9'
  {
    ('0' as int + d) as char
  }

  predicate IsDigits(s: string)
  {
    forall i :: 0 <= i < |s| ==> '0' <= s[i] <= '9'
  }

  /** Decimal text of a natural number: no sign, no leading zero. */
  function NatToString(n: nat): (r: string)
    ensures |r| >= 1 && IsDigits(r)
    ensures r[0] == '0' ==> r == "0"
    decreases n
  {
    if n < 10 then [DigitChar(n)] else NatToString(n / 10) + [DigitChar(n % 10)]
  }

  /** Value of a string of decimal digits (the reference reading of the text). */
  function DigitsValue(s: string): nat
    requires IsDigits(s)
  {
    if s == [] then 0 else DigitsValue(s[..|s| - 1]) * 10 + (s[|s| - 1] as int - '0' as int)
  }

  /** `int2str`: Python's `str` on an integer: optional minus sign, then the digits. */
  function IntToString(n: int): (r: string)
    ensures |r| >= 1
    ensures n < 0 <==> r[0] == '-'
    ensures n >= 0 ==> IsDigits(r)
  {
    if n < 0 then "-" + NatToString(-n) else NatToString(n)
  }

  /** Reading back a string produced by IntToString. */
  function ParseInt(s: string): int
    requires |s| >= 1
    requires IsDigits(if s[0] == '-' then s[1..] else s)
  {
    if s[0] == '-' then -(DigitsValue(s[1..]) as int) else DigitsValue(s)
  }

  lemma {:induction false} NatToStringValue(n: nat)
    ensures DigitsValue(NatToString(n)) == n
    decreases n
  {
    if n >= 10 {
      NatToStringValue(n / 10);
      var s := NatToString(n / 10) + [DigitChar(n % 10)];
      assert s[..|s| - 1] == NatToString(n / 10);
    }
  }

  /** `int2str` loses nothing: the text reads back as the same integer. */
  lemma IntToStringRoundTrip(n: int)
    ensures var s := IntToString(n); IsDigits(if s[0] == '-' then s[1..] else s) && ParseInt(s) == n
  {
    if n < 0 {
      NatToStringValue(-n);
      assert IntToString(n)[1..] == NatToString(-n);
    } else {
      NatToStringValue(n);
    }
  }

  /** Distinct integers have distinct texts. */
  lemma IntToStringInjective(m: int, n: int)
    requires IntToString(m) == IntToString(n)
    ensures m == n
  {
    IntToStringRoundTrip(m);
    IntToStringRoundTrip(n);
  }
}
