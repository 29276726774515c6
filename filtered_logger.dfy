/**
 * The PII redactor of the personal-data logger. filter_datum is one call of
 * Python's re.sub with the pattern "(f1|...|fn)=.*?SEP": at each position,
 * from left to right, the alternatives are tried in list order; an
 * alternative matches when it is followed by '=' and, later on the same
 * line, by the separator, the value in between being as short as possible
 * ('.' does not match a newline). A match becomes "f=" + redaction + SEP and
 * scanning resumes after it; a position without a match is copied as is.
 * RedactingFormatter.format applies filter_datum once per configured field.
 */
module FilteredLogger {
  import opened Wrappers
  import opened PyStr

  /** The redaction and the separator format passes to filter_datum. */
  const REDACTION: string := "***"
  const SEPARATOR: string := ";"

  /**
   * The lazy ".*?SEP": the length of the shortest run at the front of s that
   * holds no newline and is followed by sep; None when a newline or the end
   * of s comes first.
   */
  function ValueLen(s: string, sep: string): (r: Option<nat>)
    ensures r.Some? ==> r.value <= |s|
    decreases |s|
  {
    if StartsWith(s, sep) then Some(0)
    else if s == [] || s[0] == '\n' then None
    else
      match ValueLen(s[1..], sep)
      case None => None
      case Some(k) => Some(k + 1)
  }

  /** ValueLen finds the first separator on the line, and None means the line has none. */
  lemma ValueLenSpec(s: string, sep: string)
    ensures var r := ValueLen(s, sep);
      && (r.Some? ==> StartsWith(s[r.value..], sep) && '\n' !in s[..r.value])
      && (r.Some? ==> forall j :: 0 <= j < r.value ==> !StartsWith(s[j..], sep))
      && (r.None? ==> forall j :: 0 <= j <= |s| && '\n' !in s[..j] ==> !StartsWith(s[j..], sep))
  {
    if ValueLen(s, sep).Some? {
      ValueLenFound(s, sep);
    } else {
      ValueLenNotFound(s, sep);
    }
  }

  /** A found value ends at a separator, holds no newline, and no separator starts inside it. */
  lemma {:induction false} ValueLenFound(s: string, sep: string)
    requires ValueLen(s, sep).Some?
    ensures StartsWith(s[ValueLen(s, sep).value..], sep) && '\n' !in s[..ValueLen(s, sep).value]
    ensures forall j :: 0 <= j < ValueLen(s, sep).value ==> !StartsWith(s[j..], sep)
    decreases |s|
  {
    if !StartsWith(s, sep) {
      var k := ValueLen(s[1..], sep).value;
      ValueLenFound(s[1..], sep);
      SuffixOfSuffix(s, 1, k + 1);
      assert s[..k + 1] == [s[0]] + s[1..][..k];
      forall j | 1 <= j < k + 1 ensures s[1..][j - 1..] == s[j..] {
        SuffixOfSuffix(s, 1, j);
      }
    }
  }

  /** Without a value no separator starts on the line. */
  lemma {:induction false} ValueLenNotFound(s: string, sep: string)
    requires ValueLen(s, sep).None?
    ensures forall j :: 0 <= j <= |s| && '\n' !in s[..j] ==> !StartsWith(s[j..], sep)
    decreases |s|
  {
    if s != [] && s[0] != '\n' {
      ValueLenNotFound(s[1..], sep);
      forall j | 1 <= j <= |s| ensures s[1..][j - 1..] == s[j..] && s[1..][..j - 1] == s[1..j] {
        SuffixOfSuffix(s, 1, j);
      }
      assert forall j :: 0 < j <= |s| ==> s[..j] == [s[0]] + s[1..j];
    }
  }

  /** A suffix of a suffix, and a slice of a suffix, seen from the whole string. */
  lemma SuffixOfSuffix(m: string, off: nat, j: nat)
    requires off <= j <= |m|
    ensures m[off..][j - off..] == m[j..] && m[off..][..j - off] == m[off..j]
  {
  }

  /** One match of the pattern: the alternative that matched and the value after its '='. */
  datatype Match = Match(field: string, value: string)

  /** The length of the matched span field=value+sep. */
  function MatchLen(x: Match, sep: string): nat
  {
    |x.field| + 1 + |x.value| + |sep|
  }

  /** What a match is replaced with: the field, '=', the redaction and the separator. */
  function Replacement(x: Match, redaction: string, sep: string): string
  {
    x.field + "=" + redaction + sep
  }

  /** No value from off on: no separator follows off on its line. */
  lemma ValueAfterNone(m: string, off: nat, sep: string)
    requires off <= |m| && ValueLen(m[off..], sep).None?
    ensures forall j :: off <= j <= |m| && '\n' !in m[off..j] ==> !StartsWith(m[j..], sep)
  {
    ValueLenSpec(m[off..], sep);
    forall j | off <= j <= |m| && '\n' !in m[off..j] ensures !StartsWith(m[j..], sep) {
      SuffixOfSuffix(m, off, j);
    }
  }

  /** A value of length k from off on: the first separator after off sits at off + k, on the same line. */
  lemma ValueAfterSome(m: string, off: nat, sep: string)
    requires off <= |m| && ValueLen(m[off..], sep).Some?
    ensures var k := ValueLen(m[off..], sep).value;
      && off + k <= |m|
      && StartsWith(m[off + k..], sep)
      && '\n' !in m[off..off + k]
      && forall j :: off <= j < off + k ==> !StartsWith(m[j..], sep)
  {
    var k := ValueLen(m[off..], sep).value;
    ValueLenSpec(m[off..], sep);
    SuffixOfSuffix(m, off, off + k);
    forall j | off <= j < off + k ensures !StartsWith(m[j..], sep) {
      SuffixOfSuffix(m, off, j);
    }
  }

  /** A prefix, then a slice, then the separator at the front of what follows. */
  lemma StartsWithJoin(m: string, a: string, off: nat, k: nat, sep: string)
    requires StartsWith(m, a) && |a| == off && off + k <= |m| && StartsWith(m[off + k..], sep)
    ensures StartsWith(m, a + m[off..off + k] + sep)
  {
    var w := a + m[off..off + k] + sep;
    assert |w| <= |m|;
    forall i | 0 <= i < |w| ensures m[i] == w[i] {
      if i < off { assert m[..off][i] == a[i]; }
      else if i >= off + k { assert m[off + k..][..|sep|][i - off - k] == sep[i - off - k]; }
    }
    assert m[..|w|] == w;
  }

  /** Whether alternative f, followed by "=.*?sep", matches at the front of m, and the value it takes. */
  function MatchField(f: string, sep: string, m: string): (v: Option<string>)
    ensures v.Some? ==> StartsWith(m, f + "=" + v.value + sep) && '\n' !in v.value
  {
    if StartsWith(m, f + "=") then
      match ValueLen(m[|f| + 1..], sep)
      case None => None
      case Some(k) =>
        ValueAfterSome(m, |f| + 1, sep);
        StartsWithJoin(m, f + "=", |f| + 1, k, sep);
        Some(m[|f| + 1..|f| + 1 + k])
    else None
  }

  /**
   * The value is the shortest one: no separator starts inside it; and f
   * fails exactly when "f=" is absent or no separator follows on its line.
   */
  lemma MatchFieldSpec(f: string, sep: string, m: string)
    ensures var v := MatchField(f, sep, m);
      && (v.Some? ==> forall j :: |f| + 1 <= j < |f| + 1 + |v.value| ==> !StartsWith(m[j..], sep))
      && (v.None? <==> !StartsWith(m, f + "=")
                       || forall j :: |f| + 1 <= j <= |m| && '\n' !in m[|f| + 1..j] ==> !StartsWith(m[j..], sep))
  {
    if StartsWith(m, f + "=") {
      var off := |f| + 1;
      if ValueLen(m[off..], sep).None? {
        ValueAfterNone(m, off, sep);
      } else {
        ValueAfterSome(m, off, sep);
        var k := ValueLen(m[off..], sep).value;
        assert StartsWith(m[off + k..], sep) && '\n' !in m[off..off + k];
      }
    }
  }

  /**
   * The alternation at the front of m: the first alternative, in list
   * order, for which the rest of the pattern matches.
   */
  function MatchAt(alts: seq<string>, sep: string, m: string): (r: Option<Match>)
    ensures r.Some? ==> r.value.field in alts && MatchField(r.value.field, sep, m) == Some(r.value.value)
  {
    if alts == [] then None
    else match MatchField(alts[0], sep, m)
      case Some(v) => Some(Match(alts[0], v))
      case None => MatchAt(alts[1..], sep, m)
  }

  /** Alternatives are tried in order: the match uses the first one that matches, and None means none does. */
  lemma {:induction false} MatchAtSpec(alts: seq<string>, sep: string, m: string)
    ensures var r := MatchAt(alts, sep, m);
      && (r.Some? ==> exists i :: 0 <= i < |alts| && alts[i] == r.value.field
                                  && forall j :: 0 <= j < i ==> MatchField(alts[j], sep, m).None?)
      && (r.None? <==> forall f :: f in alts ==> MatchField(f, sep, m).None?)
  {
    if alts != [] && MatchField(alts[0], sep, m).None? {
      MatchAtSpec(alts[1..], sep, m);
      var r := MatchAt(alts[1..], sep, m);
      assert forall f :: f in alts ==> f == alts[0] || f in alts[1..];
      if r.Some? {
        var i :| 0 <= i < |alts[1..]| && alts[1..][i] == r.value.field
                 && forall j :: 0 <= j < i ==> MatchField(alts[1..][j], sep, m).None?;
        assert alts[i + 1] == r.value.field;
        forall j | 0 <= j < i + 1 ensures MatchField(alts[j], sep, m).None? {
          if j > 0 { assert alts[j] == alts[1..][j - 1]; }
        }
      }
    }
  }

  lemma MatchFits(alts: seq<string>, sep: string, m: string)
    requires MatchAt(alts, sep, m).Some?
    ensures var x := MatchAt(alts, sep, m).value;
      1 <= MatchLen(x, sep) <= |m| && m[..MatchLen(x, sep)] == x.field + "=" + x.value + sep
  {
  }

  /** re.sub over m: matches left to right, each replaced, the text between them copied. */
  function Redact(alts: seq<string>, redaction: string, sep: string, m: string): string
    decreases |m|
  {
    if m == [] then []
    else match MatchAt(alts, sep, m)
      case None => [m[0]] + Redact(alts, redaction, sep, m[1..])
      case Some(x) =>
        MatchFits(alts, sep, m);
        Replacement(x, redaction, sep) + Redact(alts, redaction, sep, m[MatchLen(x, sep)..])
  }

  /**
   * The alternatives of the group "(" + "|".join(fields) + ")": the regular
   * expression cuts the joined text at every '|'. They join back to the
   * same group text, and none holds a '|'.
   */
  function Alternatives(fields: seq<string>): (alts: seq<string>)
    ensures |alts| > 0 && Join(alts, '|') == Join(fields, '|')
    ensures forall i :: 0 <= i < |alts| ==> '|' !in alts[i]
  {
    SplitAll(Join(fields, '|'), '|')
  }

  /** Field names without '|' are the alternatives themselves; no fields leave the empty alternative "()". */
  lemma AlternativesOfPlainFields(fields: seq<string>)
    requires forall i :: 0 <= i < |fields| ==> '|' !in fields[i]
    ensures fields == [] ==> Alternatives(fields) == [""]
    ensures fields != [] ==> Alternatives(fields) == fields
  {
    if fields != [] {
      SplitJoin(fields, '|');
    }
  }

  /** A character other than '|' absent from every field name is absent from every alternative. */
  lemma AlternativesFree(fields: seq<string>, c: char)
    requires c != '|' && forall i :: 0 <= i < |fields| ==> c !in fields[i]
    ensures forall i :: 0 <= i < |Alternatives(fields)| ==> c !in Alternatives(fields)[i]
  {
    JoinFree(fields, '|', c);
    forall i | 0 <= i < |Alternatives(fields)| ensures c !in Alternatives(fields)[i] {
      PieceInJoin(Alternatives(fields), '|', i);
    }
  }

  /** filter_datum(fields, redaction, message, separator). */
  function FilterDatum(fields: seq<string>, redaction: string, message: string, separator: string): string
  {
    Redact(Alternatives(fields), redaction, separator, message)
  }

  /** No alternative matches at any position of m. */
  predicate NoMatch(alts: seq<string>, sep: string, m: string)
  {
    forall p :: 0 <= p < |m| ==> MatchAt(alts, sep, m[p..]).None?
  }

  /** Without a match the message comes back unchanged. */
  lemma {:induction false} NoMatchKeeps(alts: seq<string>, redaction: string, sep: string, m: string)
    requires NoMatch(alts, sep, m)
    ensures Redact(alts, redaction, sep, m) == m
    decreases |m|
  {
    if m != [] {
      assert m[0..] == m;
      assert NoMatch(alts, sep, m[1..]) by {
        forall p | 0 <= p < |m[1..]| ensures MatchAt(alts, sep, m[1..][p..]).None? {
          assert m[1..][p..] == m[p + 1..];
        }
      }
      NoMatchKeeps(alts, redaction, sep, m[1..]);
      assert [m[0]] + m[1..] == m;
    }
  }

  /** One step of the scan at a position without a match. */
  lemma RedactCopyStep(alts: seq<string>, redaction: string, sep: string, m: string)
    requires m != [] && MatchAt(alts, sep, m).None?
    ensures Redact(alts, redaction, sep, m) == [m[0]] + Redact(alts, redaction, sep, m[1..])
  {
  }

  /** One step of the scan at a match. */
  lemma RedactMatchStep(alts: seq<string>, redaction: string, sep: string, m: string)
    requires MatchAt(alts, sep, m).Some?
    ensures var x := MatchAt(alts, sep, m).value;
      && MatchLen(x, sep) <= |m|
      && Redact(alts, redaction, sep, m) == Replacement(x, redaction, sep) + Redact(alts, redaction, sep, m[MatchLen(x, sep)..])
  {
    MatchFits(alts, sep, m);
  }

  /**
   * The message after format's loop over fields: filter_datum with the
   * single field [f], "***" and ";" once per field, in list order.
   */
  function FilterAll(fields: seq<string>, message: string): string
    decreases |fields|
  {
    if fields == [] then message
    else FilterDatum([fields[|fields| - 1]], REDACTION, FilterAll(fields[..|fields| - 1], message), SEPARATOR)
  }

  /** RedactingFormatter: the configured fields, and the rewriting of an already rendered message. */
  class RedactingFormatter {
    var fields: seq<string>

    constructor(fields: seq<string>)
      ensures this.fields == fields
    {
      this.fields := fields;
    }

    /** format, from the message the base formatter has rendered. */
    method Format(message: string) returns (r: string)
      ensures r == FilterAll(fields, message)
    {
      r := message;
      var i := 0;
      while i < |fields|
        invariant 0 <= i <= |fields|
        invariant r == FilterAll(fields[..i], message)
      {
        assert fields[..i + 1][..i] == fields[..i];
        r := FilterDatum([fields[i]], REDACTION, r, SEPARATOR);
        i := i + 1;
      }
      assert fields[..|fields|] == fields;
    }
  }
}
