/**
 String operations the pipeline uses: lowercasing (ASCII only), joining with
 a separator (Python's `sep.join(parts)`) and, as its inverse, splitting on a
 single character (Python's `s.split(c)`).
 */
module Strings {
  import Utils

  predicate IsAsciiUpper(c: char)
  {
    'A' <= c <= 'Z'
  }

  /** ASCII lowercasing of one character: 'A'..'Z' go to 'a'..'z', everything else stays. */
  function LowerChar(c: char): (r: char)
    ensures !IsAsciiUpper(r)
    ensures !IsAsciiUpper(c) ==> r == c
    ensures IsAsciiUpper(c) ==> 'a' <= r <= 'z' && r as int - 'a' as int == c as int - 'A' as int
  {
    if IsAsciiUpper(c) then (c as int + 32) as char else c
  }

  /** No character of s is an upper-case ASCII letter. */
  predicate IsLower(s: string)
  {
    forall i :: 0 <= i < |s| ==> !IsAsciiUpper(s[i])
  }

  /** `str.lower()`, restricted to ASCII letters. */
  function Lower(s: string): (r: string)
    ensures |r| == |s| && IsLower(r)
  {
    seq(|s|, i requires 0 <= i < |s| => LowerChar(s[i]))
  }

  /**
   What lowercasing does to each character: 'A'..'Z' become 'a'..'z' and
   every other character stays.
   */
  lemma LowerContents(s: string)
    ensures |Lower(s)| == |s|
    ensures forall i :: 0 <= i < |s| && IsAsciiUpper(s[i]) ==>
      'a' <= Lower(s)[i] <= 'z' && Lower(s)[i] as int - 'a' as int == s[i] as int - 'A' as int
    ensures forall i :: 0 <= i < |s| && !IsAsciiUpper(s[i]) ==> Lower(s)[i] == s[i]
  {
  }

  /** Lowercasing changes nothing on a string that has no upper-case letter. */
  lemma LowerOfLower(s: string)
    requires IsLower(s)
    ensures Lower(s) == s
  {
  }

  lemma LowerAppend(a: string, b: string)
    ensures Lower(a + b) == Lower(a) + Lower(b)
  {
  }

  /** `sep.join(parts)`: empty for no parts; otherwise it starts with the first part and ends with the last. */
  function Join(sep: string, parts: seq<string>): (r: string)
    ensures parts == [] ==> r == ""
    ensures parts != [] ==> parts[0] <= r
  {
    if parts == [] then ""
    else if |parts| == 1 then parts[0]
    else parts[0] + sep + Join(sep, parts[1..])
  }

  lemma JoinCons(sep: string, x: string, rest: seq<string>)
    requires rest != []
    ensures Join(sep, [x] + rest) == x + sep + Join(sep, rest)
  {
    assert ([x] + rest)[1..] == rest;
  }

  /** Length of a join: the parts plus one separator between each neighbouring pair. */
  lemma {:induction false} JoinLength(sep: string, parts: seq<string>)
    requires parts != []
    ensures |Join(sep, parts)| == Utils.TotalLength(parts) + (|parts| - 1) * |sep|
  {
    if |parts| > 1 {
      JoinLength(sep, parts[1..]);
    }
  }

  /** Joining two non-empty lists puts one separator between their joins. */
  lemma {:induction false} JoinAppend(sep: string, a: seq<string>, b: seq<string>)
    requires a != [] && b != []
    ensures Join(sep, a + b) == Join(sep, a) + sep + Join(sep, b)
  {
    if |a| == 1 {
      JoinCons(sep, a[0], b);
      assert [a[0]] + b == a + b;
    } else {
      JoinAppend(sep, a[1..], b);
      assert a + b == [a[0]] + (a[1..] + b);
      JoinCons(sep, a[0], a[1..] + b);
    }
  }

  /** With an empty separator, joining is flattening. */
  lemma {:induction false} JoinEmptyIsFlatten(parts: seq<string>)
    ensures Join("", parts) == Utils.FlattenLists(parts)
  {
    if |parts| > 1 {
      JoinEmptyIsFlatten(parts[1..]);
    } else if |parts| == 1 {
      assert parts[1..] == [];
    }
  }

  /** Lowercasing a join lowercases each part and the separator. */
  lemma {:induction false} LowerJoin(sep: string, parts: seq<string>)
    ensures Lower(Join(sep, parts)) == Join(Lower(sep), seq(|parts|, i requires 0 <= i < |parts| => Lower(parts[i])))
  {
    var lowered := seq(|parts|, i requires 0 <= i < |parts| => Lower(parts[i]));
    if |parts| > 1 {
      LowerJoin(sep, parts[1..]);
      assert lowered[1..] == seq(|parts[1..]|, i requires 0 <= i < |parts[1..]| => Lower(parts[1..][i]));
      LowerAppend(parts[0] + sep, Join(sep, parts[1..]));
      LowerAppend(parts[0], sep);
    }
  }

  /** Position of the first c in s. */
  function IndexOf(c: char, s: string): (i: nat)
    requires c in s
    ensures i < |s| && s[i] == c && c !in s[..i]
  {
    if s[0] == c then 0 else 1 + IndexOf(c, s[1..])
  }

  /** `s.split(c)`: the maximal pieces between occurrences of c; never empty. */
  function Split(c: char, s: string): (r: seq<string>)
    ensures |r| >= 1
    ensures forall i :: 0 <= i < |r| ==> c !in r[i]
    decreases |s|
  {
    if c in s then
      var i := IndexOf(c, s);
      [s[..i]] + Split(c, s[i + 1..])
    else
      [s]
  }

  /** Splitting then re-joining with the same character gives back the string. */
  lemma {:induction false} JoinSplit(c: char, s: string)
    ensures Join([c], Split(c, s)) == s
    decreases |s|
  {
    if c in s {
      var i := IndexOf(c, s);
      JoinSplit(c, s[i + 1..]);
      JoinCons([c], s[..i], Split(c, s[i + 1..]));
      assert s == s[..i] + [c] + s[i + 1..];
    }
  }

  /** The first c in a + [c] + b is the one after a, when a has none. */
  lemma IndexOfAfter(c: char, a: string, b: string)
    requires c !in a
    ensures c in a + [c] + b && IndexOf(c, a + [c] + b) == |a|
  {
    var s := a + [c] + b;
    assert s[|a|] == c;
    var i := IndexOf(c, s);
    assert forall j :: 0 <= j < |a| ==> s[j] == a[j];
    assert forall j :: 0 <= j < i ==> s[j] == s[..i][j];
  }

  /** Joining pieces that do not contain c, then splitting on c, gives back the pieces. */
  lemma {:induction false} SplitJoin(c: char, parts: seq<string>)
    requires parts != []
    requires forall i :: 0 <= i < |parts| ==> c !in parts[i]
    ensures Split(c, Join([c], parts)) == parts
  {
    if |parts| > 1 {
      var rest := Join([c], parts[1..]);
      var s := parts[0] + [c] + rest;
      JoinCons([c], parts[0], parts[1..]);
      assert parts == [parts[0]] + parts[1..];
      assert Join([c], parts) == s;
      IndexOfAfter(c, parts[0], rest);
      assert s[..|parts[0]|] == parts[0];
      assert s[|parts[0]| + 1..] == rest;
      assert Split(c, s) == [parts[0]] + Split(c, rest);
      SplitJoin(c, parts[1..]);
    }
  }
}
