/**
 * The small part of Python's object and str model that the authentication
 * code relies on: a dynamically typed argument that may be None, a str or
 * something else, and the str methods startswith, endswith, split(sep, 1),
 * split(sep) and sep.join for a one-character separator.
 */
module PyStr {
  import opened Wrappers

  /** A Python argument as seen by an isinstance(x, str) guard. */
  datatype Arg = NoneArg | StrArg(s: string) | OtherArg

  /** str.startswith(prefix) */
  predicate StartsWith(s: string, prefix: string)
  {
    |prefix| <= |s| && s[..|prefix|] == prefix
  }

  /** str.endswith(suffix) */
  predicate EndsWith(s: string, suffix: string)
  {
    |suffix| <= |s| && s[|s| - |suffix|..] == suffix
  }

  /** The position of the first occurrence of c in s (str.find for one character). */
  function IndexOf(s: string, c: char): (r: Option<nat>)
    ensures r.None? <==> c !in s
    ensures r.Some? ==> r.value < |s| && s[r.value] == c && c !in s[..r.value]
  {
    if s == [] then None
    else if s[0] == c then Some(0)
    else match IndexOf(s[1..], c)
      case None => None
      case Some(i) =>
        assert s[..i + 1] == [s[0]] + s[1..][..i];
        Some(i + 1)
  }

  /** str.split(sep, 1) for a one-character separator. */
  function Split1(s: string, sep: char): (parts: seq<string>)
    ensures sep !in s ==> parts == [s]
    ensures sep in s ==> |parts| == 2 && sep !in parts[0] && parts[0] + [sep] + parts[1] == s
  {
    match IndexOf(s, sep)
    case None => [s]
    case Some(i) =>
      assert s[..i] + [sep] + s[i + 1..] == s;
      [s[..i], s[i + 1..]]
  }

  /** Where the first separator is known, split(sep, 1) cuts there. */
  lemma Split1At(s: string, sep: char, i: nat)
    requires i < |s| && s[i] == sep && sep !in s[..i]
    ensures Split1(s, sep) == [s[..i], s[i + 1..]]
  {
  }

  /** sep.join(parts) for a one-character separator. */
  function Join(parts: seq<string>, sep: char): string
    decreases |parts|
  {
    if parts == [] then []
    else if |parts| == 1 then parts[0]
    else parts[0] + [sep] + Join(parts[1..], sep)
  }

  /** str.split(sep) for a one-character separator: the pieces between the separators, which join back to s. */
  function SplitAll(s: string, sep: char): (parts: seq<string>)
    ensures |parts| > 0
    ensures forall i :: 0 <= i < |parts| ==> sep !in parts[i]
    ensures Join(parts, sep) == s
    decreases |s|
  {
    match IndexOf(s, sep)
    case None => [s]
    case Some(i) =>
      var rest := SplitAll(s[i + 1..], sep);
      assert ([s[..i]] + rest)[1..] == rest;
      assert s[..i] + [sep] + s[i + 1..] == s;
      [s[..i]] + rest
  }

  /** Splitting a join of pieces free of the separator gives the pieces back. */
  lemma {:induction false} SplitJoin(parts: seq<string>, sep: char)
    requires |parts| > 0 && forall i :: 0 <= i < |parts| ==> sep !in parts[i]
    ensures SplitAll(Join(parts, sep), sep) == parts
    decreases |parts|
  {
    if |parts| > 1 {
      SplitJoinStep(parts[0], Join(parts[1..], sep), Join(parts, sep), sep);
      SplitJoin(parts[1..], sep);
      assert parts == [parts[0]] + parts[1..];
    }
  }

  /** A piece free of the separator, the separator, then t: split cuts after the piece. */
  lemma SplitJoinStep(p: string, t: string, s: string, sep: char)
    requires sep !in p && s == p + [sep] + t
    ensures SplitAll(s, sep) == [p] + SplitAll(t, sep)
  {
    assert s[..|p|] == p && s[|p|] == sep && s[|p| + 1..] == t;
    FirstIndexUnique(s, sep, IndexOf(s, sep).value, |p|);
  }

  /** Two positions that each hold the first c are the same. */
  lemma FirstIndexUnique(s: string, c: char, k: nat, n: nat)
    requires k < |s| && s[k] == c && c !in s[..k]
    requires n < |s| && s[n] == c && c !in s[..n]
    ensures k == n
  {
    assert forall j :: 0 <= j < n ==> s[..n][j] == s[j];
    assert forall j :: 0 <= j < k ==> s[..k][j] == s[j];
  }

  /** A character other than the separator occurs in a join only if it occurs in a piece. */
  lemma {:induction false} JoinFree(parts: seq<string>, sep: char, c: char)
    requires c != sep && forall i :: 0 <= i < |parts| ==> c !in parts[i]
    ensures c !in Join(parts, sep)
    decreases |parts|
  {
    if |parts| > 1 {
      JoinFree(parts[1..], sep, c);
    }
  }

  /** Every character of a piece occurs in the join. */
  lemma {:induction false} PieceInJoin(parts: seq<string>, sep: char, i: nat)
    requires i < |parts|
    ensures forall c :: c in parts[i] ==> c in Join(parts, sep)
    decreases i
  {
    if 0 < i {
      PieceInJoin(parts[1..], sep, i - 1);
    }
  }
}
