/**
 * Properties of the redaction scan that relate several positions of one
 * message: the first match splits the output, and redacting twice is the
 * same as redacting once.
 */
module RedactScan {
  import opened Wrappers
  import opened PyStr
  import opened FilteredLogger

  /** Slice identities for one backward step of FirstMatchSplit. */
  lemma BackStep(m: string, i: nat, p: nat, r: string, t: string, whole: string, rest: string)
    requires 0 < i <= p <= |m| && whole == [m[i - 1]] + rest && rest == m[i..p] + r + t
    ensures whole == m[i - 1..p] + r + t
  {
    assert m[i - 1..p] == [m[i - 1]] + m[i..p];
    assert [m[i - 1]] + (m[i..p] + r + t) == ([m[i - 1]] + m[i..p]) + r + t;
  }

  lemma EmptyAt(m: string, p: nat, r: string, t: string, whole: string)
    requires p <= |m| && whole == r + t
    ensures whole == m[p..p] + r + t
  {
    assert m[p..p] == [];
  }

  lemma Drop1(m: string, i: nat)
    requires 0 < i <= |m|
    ensures m[i - 1..][1..] == m[i..] && m[i - 1..] != []
  {
  }

  /** One character copied in front of an already split output. */
  lemma CopyBack(alts: seq<string>, redaction: string, sep: string, m: string, i: nat, p: nat, r: string, t: string)
    requires 0 < i <= p <= |m| && MatchAt(alts, sep, m[i - 1..]).None?
    requires Redact(alts, redaction, sep, m[i..]) == m[i..p] + r + t
    ensures Redact(alts, redaction, sep, m[i - 1..]) == m[i - 1..p] + r + t
  {
    Drop1(m, i);
    RedactCopyStep(alts, redaction, sep, m[i - 1..]);
    BackStep(m, i, p, r, t, Redact(alts, redaction, sep, m[i - 1..]), Redact(alts, redaction, sep, m[i..]));
  }

  /** Copying back from p: an output split at p is split the same way for the whole message. */
  lemma CopyPrefix(alts: seq<string>, redaction: string, sep: string, m: string, p: nat, r: string, t: string)
    requires p <= |m| && Redact(alts, redaction, sep, m[p..]) == m[p..p] + r + t
    requires forall q :: 0 <= q < p ==> MatchAt(alts, sep, m[q..]).None?
    ensures Redact(alts, redaction, sep, m) == m[..p] + r + t
  {
    var i := p;
    while 0 < i
      invariant 0 <= i <= p
      invariant Redact(alts, redaction, sep, m[i..]) == m[i..p] + r + t
    {
      CopyBack(alts, redaction, sep, m, i, p, r, t);
      i := i - 1;
    }
    assert m[0..] == m && m[0..p] == m[..p];
  }

  /** A match at p: the output from p is the replacement, then the scan after the match. */
  lemma MatchHere(alts: seq<string>, redaction: string, sep: string, m: string, p: nat, x: Match)
    requires p < |m| && MatchAt(alts, sep, m[p..]) == Some(x)
    ensures p + MatchLen(x, sep) <= |m|
    ensures Redact(alts, redaction, sep, m[p..])
         == m[p..p] + Replacement(x, redaction, sep) + Redact(alts, redaction, sep, m[p + MatchLen(x, sep)..])
  {
    MatchFits(alts, sep, m[p..]);
    RedactMatchStep(alts, redaction, sep, m[p..]);
    assert m[p..][MatchLen(x, sep)..] == m[p + MatchLen(x, sep)..];
    EmptyAt(m, p, Replacement(x, redaction, sep), Redact(alts, redaction, sep, m[p + MatchLen(x, sep)..]),
      Redact(alts, redaction, sep, m[p..]));
  }

  /**
   * The first match decides the output: the text before it is copied, the
   * match is replaced and scanning resumes right after it.
   */
  lemma FirstMatchSplit(alts: seq<string>, redaction: string, sep: string, m: string, p: nat, x: Match)
    requires p < |m| && MatchAt(alts, sep, m[p..]) == Some(x)
    requires forall q :: 0 <= q < p ==> MatchAt(alts, sep, m[q..]).None?
    ensures p + MatchLen(x, sep) <= |m|
    ensures Redact(alts, redaction, sep, m)
         == m[..p] + Replacement(x, redaction, sep) + Redact(alts, redaction, sep, m[p + MatchLen(x, sep)..])
  {
    MatchHere(alts, redaction, sep, m, p, x);
    CopyPrefix(alts, redaction, sep, m, p, Replacement(x, redaction, sep),
      Redact(alts, redaction, sep, m[p + MatchLen(x, sep)..]));
  }

  /** Alternatives without '=', as field names made of word characters are. */
  predicate EqFree(alts: seq<string>)
  {
    forall f :: f in alts ==> '=' !in f
  }

  /** A run free of the separator character and of newlines, then the separator: ValueLen takes the whole run. */
  lemma {:induction false} ValueLenClean(w: string, c: char, t: string)
    requires c !in w && '\n' !in w
    ensures ValueLen(w + [c] + t, [c]) == Some(|w|)
    decreases |w|
  {
    var a := w + [c] + t;
    if w == [] {
      assert a[..1] == [c];
    } else {
      assert a[0] == w[0] && a[1..] == w[1..] + [c] + t;
      ValueLenClean(w[1..], c, t);
    }
  }

  /** Texts that agree up to a clean run closed by the separator: ValueLen fails on both or on neither. */
  lemma {:induction false} ValueLenShared(p: string, v: string, w: string, c: char, t1: string, t2: string)
    requires c !in v && '\n' !in v && c !in w && '\n' !in w
    ensures ValueLen(p + v + [c] + t1, [c]).None? <==> ValueLen(p + w + [c] + t2, [c]).None?
    decreases |p|
  {
    if p == [] {
      assert p + v + [c] + t1 == v + [c] + t1;
      assert p + w + [c] + t2 == w + [c] + t2;
      ValueLenClean(v, c, t1);
      ValueLenClean(w, c, t2);
    } else {
      var a := p + v + [c] + t1;
      var b := p + w + [c] + t2;
      assert a[0] == p[0] && b[0] == p[0];
      assert a[1..] == p[1..] + v + [c] + t1;
      assert b[1..] == p[1..] + w + [c] + t2;
      ValueLenShared(p[1..], v, w, c, t1, t2);
    }
  }

  /** Of two different '='-free names, at most one starts s with a following '='. */
  lemma DistinctFields(f: string, g: string, s: string)
    requires '=' !in f && '=' !in g && f != g && StartsWith(s, f + "=")
    ensures !StartsWith(s, g + "=")
  {
    assert s[|f|] == (f + "=")[|f|] == '=';
    if |f| < |g| {
      assert g[|f|] != '=';
    } else if |g| < |f| {
      assert f[|g|] != '=' && s[|g|] == f[|g|];
    } else {
      assert s[..|f|] == f;
    }
  }

  /** A '='-free name followed by '=' at the front of s + x lies within s when s ends with '='. */
  lemma PrefixWithin(g: string, s: string, x: string)
    requires s != [] && s[|s| - 1] == '=' && '=' !in g && StartsWith(s + x, g + "=")
    ensures |g| + 1 <= |s| && StartsWith(s, g + "=")
  {
    assert (s + x)[|s| - 1] == '=';
    assert forall i :: 0 <= i < |g| ==> (g + "=")[i] == g[i] != '=';
    assert |g| + 1 <= |s|;
    assert s[..|g| + 1] == (s + x)[..|g| + 1];
  }

  lemma PrefixExtends(s: string, x: string, a: string)
    requires StartsWith(s, a)
    ensures StartsWith(s + x, a)
  {
    assert (s + x)[..|a|] == s[..|a|];
  }

  /**
   * A field test at the front of s + v + sep + t1 and of s + w + sep + t2,
   * where s ends with '=' and v, w are clean: both fail or neither does.
   */
  lemma FieldAgrees(g: string, s: string, v: string, w: string, c: char, t1: string, t2: string)
    requires s != [] && s[|s| - 1] == '=' && '=' !in g
    requires c !in v && '\n' !in v && c !in w && '\n' !in w
    ensures MatchField(g, [c], s + v + [c] + t1).None? <==> MatchField(g, [c], s + w + [c] + t2).None?
  {
    var a := s + v + [c] + t1;
    var b := s + w + [c] + t2;
    assert a == s + (v + [c] + t1) && b == s + (w + [c] + t2);
    if StartsWith(a, g + "=") {
      PrefixWithin(g, s, v + [c] + t1);
      PrefixExtends(s, w + [c] + t2, g + "=");
    } else if StartsWith(b, g + "=") {
      PrefixWithin(g, s, w + [c] + t2);
      PrefixExtends(s, v + [c] + t1, g + "=");
    }
    if StartsWith(a, g + "=") && StartsWith(b, g + "=") {
      var q := s[|g| + 1..];
      assert a[|g| + 1..] == q + v + [c] + t1;
      assert b[|g| + 1..] == q + w + [c] + t2;
      ValueLenShared(q, v, w, c, t1, t2);
    }
  }

  /** A matched value holds neither the separator character nor a newline. */
  lemma MatchValueClean(f: string, c: char, m: string)
    requires MatchField(f, [c], m).Some?
    ensures c !in MatchField(f, [c], m).value && '\n' !in MatchField(f, [c], m).value
  {
    var v := MatchField(f, [c], m).value;
    MatchFieldSpec(f, [c], m);
    var whole := f + "=" + v + [c];
    assert m[..|whole|] == whole;
    forall i | 0 <= i < |v| ensures v[i] != c {
      var j := |f| + 1 + i;
      assert m[j] == m[..|whole|][j] == whole[j] == v[i];
      assert !StartsWith(m[j..], [c]);
      assert m[j..][..1] == [m[j]];
    }
  }

  /** A message cut around a match, before and after redaction. */
  lemma SplitShape(m: string, p: nat, x: Match, c: char, redaction: string, t: string, out: string)
    requires p + MatchLen(x, [c]) <= |m| && m[p..][..MatchLen(x, [c])] == x.field + "=" + x.value + [c]
    requires out == m[..p] + Replacement(x, redaction, [c]) + t
    ensures m == (m[..p] + x.field + "=") + x.value + [c] + m[p + MatchLen(x, [c])..]
    ensures out == (m[..p] + x.field + "=") + redaction + [c] + t
  {
    assert m == m[..p] + m[p..][..MatchLen(x, [c])] + m[p + MatchLen(x, [c])..];
  }

  /** When exactly one alternative's test succeeds, the alternation takes it. */
  lemma {:induction false} MatchAtOnly(alts: seq<string>, sep: string, m: string, f: string, v: string)
    requires f in alts && MatchField(f, sep, m) == Some(v)
    requires forall g :: g in alts && g != f ==> MatchField(g, sep, m).None?
    ensures MatchAt(alts, sep, m) == Some(Match(f, v))
  {
    if alts[0] != f {
      assert f in alts[1..];
      MatchAtOnly(alts[1..], sep, m, f, v);
    }
  }

  /** Field, '=', a clean value and the separator: the field matches with exactly that value. */
  lemma MatchFieldClean(f: string, v: string, c: char, t: string)
    requires c !in v && '\n' !in v
    ensures MatchField(f, [c], f + "=" + v + [c] + t) == Some(v)
  {
    var s := f + "=" + v + [c] + t;
    assert s[..|f| + 1] == f + "=";
    assert s[|f| + 1..] == v + [c] + t;
    ValueLenClean(v, c, t);
    assert s[|f| + 1..|f| + 1 + |v|] == v;
  }

  /** A replacement is matched again, by the same field and with the redaction as its value. */
  lemma Rematch(alts: seq<string>, redaction: string, c: char, f: string, t: string)
    requires EqFree(alts) && f in alts && c !in redaction && '\n' !in redaction
    ensures MatchAt(alts, [c], f + "=" + redaction + [c] + t) == Some(Match(f, redaction))
  {
    var out := f + "=" + redaction + [c] + t;
    MatchFieldClean(f, redaction, c, t);
    forall g | g in alts && g != f ensures MatchField(g, [c], out).None? {
      DistinctFields(f, g, out);
    }
    MatchAtOnly(alts, [c], out, f, redaction);
  }

  /** A copied front position before the first match, at p, stays unmatched in the output. */
  lemma CopyBeforeMatch(alts: seq<string>, redaction: string, c: char, m: string, p: nat, x: Match)
    requires EqFree(alts) && c !in redaction && '\n' !in redaction
    requires 0 < p < |m| && MatchAt(alts, [c], m[p..]) == Some(x)
    requires forall q :: 0 <= q < p ==> MatchAt(alts, [c], m[q..]).None?
    ensures MatchAt(alts, [c], Redact(alts, redaction, [c], m)).None?
  {
    FirstMatchSplit(alts, redaction, [c], m, p, x);
    MatchFits(alts, [c], m[p..]);
    MatchValueClean(x.field, c, m[p..]);
    assert m[0..] == m;
    SplitShape(m, p, x, c, redaction, Redact(alts, redaction, [c], m[p + MatchLen(x, [c])..]), Redact(alts, redaction, [c], m));
    CopyAgrees(alts, m[..p] + x.field + "=", x.value, redaction, c, m[p + MatchLen(x, [c])..],
               Redact(alts, redaction, [c], m[p + MatchLen(x, [c])..]));
  }

  /** No alternative matches s + v + sep + t1 exactly when none matches s + w + sep + t2. */
  lemma CopyAgrees(alts: seq<string>, s: string, v: string, w: string, c: char, t1: string, t2: string)
    requires EqFree(alts) && s != [] && s[|s| - 1] == '='
    requires c !in v && '\n' !in v && c !in w && '\n' !in w
    requires MatchAt(alts, [c], s + v + [c] + t1).None?
    ensures MatchAt(alts, [c], s + w + [c] + t2).None?
  {
    MatchAtSpec(alts, [c], s + v + [c] + t1);
    forall g | g in alts ensures MatchField(g, [c], s + w + [c] + t2).None? {
      FieldAgrees(g, s, v, w, c, t1, t2);
    }
    MatchAtSpec(alts, [c], s + w + [c] + t2);
  }

  /** A position the scan copies is not matched in the output either. */
  lemma CopyStaysUnmatched(alts: seq<string>, redaction: string, c: char, m: string)
    requires EqFree(alts) && c !in redaction && '\n' !in redaction
    requires m != [] && MatchAt(alts, [c], m).None?
    ensures MatchAt(alts, [c], Redact(alts, redaction, [c], m)).None?
  {
    assert m[0..] == m;
    var p := 1;
    while p < |m| && MatchAt(alts, [c], m[p..]).None?
      invariant 1 <= p <= |m|
      invariant forall q :: 0 <= q < p ==> MatchAt(alts, [c], m[q..]).None?
    {
      p := p + 1;
    }
    if p == |m| {
      NoMatchKeeps(alts, redaction, [c], m);
    } else {
      CopyBeforeMatch(alts, redaction, c, m, p, MatchAt(alts, [c], m[p..]).value);
    }
  }

  lemma ConsParts(whole: string, h: char, rest: string)
    requires whole == [h] + rest
    ensures whole != [] && whole[0] == h && whole[1..] == rest
  {
  }

  lemma DropFront(whole: string, r: string, t: string)
    requires whole == r + t
    ensures |r| <= |whole| && whole[|r|..] == t
  {
  }

  /** Idempotence at a copied position, given idempotence on the rest. */
  lemma IdemCopy(alts: seq<string>, redaction: string, c: char, m: string)
    requires EqFree(alts) && c !in redaction && '\n' !in redaction
    requires m != [] && MatchAt(alts, [c], m).None?
    requires Redact(alts, redaction, [c], Redact(alts, redaction, [c], m[1..])) == Redact(alts, redaction, [c], m[1..])
    ensures Redact(alts, redaction, [c], Redact(alts, redaction, [c], m)) == Redact(alts, redaction, [c], m)
  {
    RedactCopyStep(alts, redaction, [c], m);
    CopyStaysUnmatched(alts, redaction, c, m);
    ConsParts(Redact(alts, redaction, [c], m), m[0], Redact(alts, redaction, [c], m[1..]));
    RedactCopyStep(alts, redaction, [c], Redact(alts, redaction, [c], m));
  }

  /** Idempotence at a match, given idempotence after it. */
  lemma IdemMatch(alts: seq<string>, redaction: string, c: char, m: string, x: Match)
    requires EqFree(alts) && c !in redaction && '\n' !in redaction
    requires MatchAt(alts, [c], m) == Some(x) && MatchLen(x, [c]) <= |m|
    requires Redact(alts, redaction, [c], Redact(alts, redaction, [c], m[MatchLen(x, [c])..]))
          == Redact(alts, redaction, [c], m[MatchLen(x, [c])..])
    ensures Redact(alts, redaction, [c], Redact(alts, redaction, [c], m)) == Redact(alts, redaction, [c], m)
  {
    RedactMatchStep(alts, redaction, [c], m);
    Rematch(alts, redaction, c, x.field, Redact(alts, redaction, [c], m[MatchLen(x, [c])..]));
    RedactMatchStep(alts, redaction, [c], Redact(alts, redaction, [c], m));
    DropFront(Redact(alts, redaction, [c], m), Replacement(x, redaction, [c]),
              Redact(alts, redaction, [c], m[MatchLen(x, [c])..]));
  }

  /**
   * Redacting an already redacted message changes nothing, for alternatives
   * without '=', a one-character separator and a redaction holding neither
   * that character nor a newline.
   */
  lemma {:induction false} RedactIdempotent(alts: seq<string>, redaction: string, c: char, m: string)
    requires EqFree(alts) && c !in redaction && '\n' !in redaction
    ensures Redact(alts, redaction, [c], Redact(alts, redaction, [c], m)) == Redact(alts, redaction, [c], m)
    decreases |m|
  {
    if m != [] {
      if MatchAt(alts, [c], m).None? {
        RedactIdempotent(alts, redaction, c, m[1..]);
        IdemCopy(alts, redaction, c, m);
      } else {
        MatchFits(alts, [c], m);
        RedactIdempotent(alts, redaction, c, m[MatchLen(MatchAt(alts, [c], m).value, [c])..]);
        IdemMatch(alts, redaction, c, m, MatchAt(alts, [c], m).value);
      }
    }
  }

  /** filter_datum applied to its own output returns it unchanged. */
  lemma FilterDatumIdempotent(fields: seq<string>, redaction: string, message: string, separator: string)
    requires EqFree(fields) && |separator| == 1 && separator[0] !in redaction && '\n' !in redaction
    ensures FilterDatum(fields, redaction, FilterDatum(fields, redaction, message, separator), separator)
         == FilterDatum(fields, redaction, message, separator)
  {
    assert separator == [separator[0]];
    assert forall i :: 0 <= i < |fields| ==> fields[i] in fields;
    AlternativesFree(fields, '=');
    assert EqFree(Alternatives(fields)) by {
      forall f | f in Alternatives(fields) ensures '=' !in f {
        var i :| 0 <= i < |Alternatives(fields)| && Alternatives(fields)[i] == f;
      }
    }
    RedactIdempotent(Alternatives(fields), redaction, separator[0], message);
  }

  /** No '=' at the positions s[lo..hi]. */
  lemma EqualsAt(m: string, pre: string, f: string, rest: string, q: nat)
    requires m == pre + f + rest && '=' !in pre && '=' !in f && q < |pre|
    ensures q + |f| < |m| && m[q + |f|] != '='
  {
    if q + |f| < |pre| {
      assert m[q + |f|] == pre[q + |f|];
    } else {
      assert m[q + |f|] == f[q + |f| - |pre|];
    }
  }

  /** With one '='-free field, no match starts inside a prefix without '='. */
  lemma NoMatchInPrefix(f: string, sep: string, m: string, pre: string, rest: string, q: nat)
    requires m == pre + f + rest && '=' !in pre && '=' !in f && q < |pre|
    ensures MatchAt([f], sep, m[q..]).None?
  {
    EqualsAt(m, pre, f, rest, q);
    assert m[q..][|f|] == m[q + |f|];
  }

  lemma SpanParts(m: string, pre: string, f: string, v: string, c: char, post: string)
    requires m == pre + f + "=" + v + [c] + post
    ensures m == pre + f + ("=" + v + [c] + post)
    ensures m[|pre|..] == f + "=" + v + [c] + post && m[..|pre|] == pre
    ensures m[|pre| + (|f| + 1 + |v| + 1)..] == post
  {
  }

  /** The first match of a single '='-free field when the text before it has no '='. */
  lemma SpanAt(f: string, redaction: string, c: char, m: string, pre: string, v: string, post: string)
    requires '=' !in f && '=' !in pre && c !in v && '\n' !in v
    requires m == pre + f + "=" + v + [c] + post
    ensures Redact([f], redaction, [c], m) == pre + Replacement(Match(f, v), redaction, [c]) + Redact([f], redaction, [c], post)
  {
    SpanParts(m, pre, f, v, c, post);
    forall q | 0 <= q < |pre| ensures MatchAt([f], [c], m[q..]).None? {
      NoMatchInPrefix(f, [c], m, pre, "=" + v + [c] + post, q);
    }
    MatchFieldClean(f, v, c, post);
    FirstMatchSplit([f], redaction, [c], m, |pre|, Match(f, v));
  }

  /**
   * Field names match anywhere, also at the end of a longer name: after a
   * prefix without '=', "f=v;" is the first match and is redacted.
   */
  lemma SingleFieldSpan(f: string, redaction: string, c: char, pre: string, v: string, post: string)
    requires '=' !in f && '=' !in pre && c !in v && '\n' !in v
    ensures Redact([f], redaction, [c], pre + f + "=" + v + [c] + post)
         == pre + f + "=" + redaction + [c] + Redact([f], redaction, [c], post)
  {
    SpanAt(f, redaction, c, pre + f + "=" + v + [c] + post, pre, v, post);
    Regroup(pre, f, redaction, c, Redact([f], redaction, [c], post),
            Redact([f], redaction, [c], pre + f + "=" + v + [c] + post));
  }

  lemma Regroup(pre: string, f: string, r: string, c: char, t: string, whole: string)
    requires whole == pre + (f + "=" + r + [c]) + t
    ensures whole == pre + f + "=" + r + [c] + t
  {
  }

  /** A separator closes every match: a match at the front of m puts one inside m. */
  lemma MatchHasSeparator(alts: seq<string>, sep: string, m: string)
    ensures MatchAt(alts, sep, m).Some? ==> exists j :: 0 <= j <= |m| && StartsWith(m[j..], sep)
  {
    if MatchAt(alts, sep, m).Some? {
      MatchFits(alts, sep, m);
      var x := MatchAt(alts, sep, m).value;
      var j := |x.field| + 1 + |x.value|;
      assert m[j..][..|sep|] == m[..MatchLen(x, sep)][j..];
    }
  }

  /**
   * A message in which the separator never occurs is left unchanged, so a
   * value without a closing separator, such as one at the end of the
   * message, is not redacted.
   */
  lemma NoSeparatorKeeps(alts: seq<string>, redaction: string, sep: string, m: string)
    requires forall j :: 0 <= j <= |m| ==> !StartsWith(m[j..], sep)
    ensures Redact(alts, redaction, sep, m) == m
  {
    forall p | 0 <= p < |m| ensures MatchAt(alts, sep, m[p..]).None? {
      MatchHasSeparator(alts, sep, m[p..]);
      forall j | 0 <= j <= |m[p..]| ensures m[p..][j..] == m[p + j..] { }
    }
    NoMatchKeeps(alts, redaction, sep, m);
  }

  /** With field "name", whatever closed value follows "username=" is redacted: the name inside "username" matches. */
  lemma UsernameExample(v: string)
    requires ';' !in v && '\n' !in v
    ensures FilterDatum(["name"], "***", "username=" + v + ";", ";") == "username=***;"
  {
    AlternativesOfPlainFields(["name"]);
    SingleFieldSpan("name", "***", ';', "user", v, "");
    UsernameText(v);
    assert Redact(["name"], "***", [';'], "") == "";
  }

  lemma UsernameText(v: string)
    ensures "user" + "name" + "=" + v + [';'] + "" == "username=" + v + ";"
    ensures "user" + "name" + "=" + "***" + [';'] + "" == "username=***;"
    ensures [';'] == ";"
  {
  }

  /** format leaves a message without ';' unchanged, whatever its fields. */
  lemma {:induction false} FilterAllWithoutSeparator(fields: seq<string>, message: string)
    requires forall j :: 0 <= j <= |message| ==> !StartsWith(message[j..], SEPARATOR)
    ensures FilterAll(fields, message) == message
    decreases |fields|
  {
    if fields != [] {
      FilterAllWithoutSeparator(fields[..|fields| - 1], message);
      NoSeparatorKeeps(Alternatives([fields[|fields| - 1]]), REDACTION, SEPARATOR, message);
    }
  }
}
