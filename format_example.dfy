/**
 * Worked consequences of format (RedactingFormatter in the 0x00 project's
 * filtered_logger.py): a two-field pass that redacts both values of a
 * message, whatever the values are.
 */
module LogFormat {
  import opened Wrappers
  import opened PyStr
  import opened FilteredLogger
  import opened RedactScan

  /** One more field at the end of the list: one more filter_datum on format's result. */
  lemma FilterAllSnoc(fields: seq<string>, f: string, m: string)
    ensures FilterAll(fields + [f], m) == FilterDatum([f], REDACTION, FilterAll(fields, m), SEPARATOR)
  {
    assert (fields + [f])[..|fields|] == fields;
  }

  /** format with two fields: the first field's filter_datum, then the second's. */
  lemma FilterAllTwo(f: string, g: string, m: string)
    ensures FilterAll([f, g], m) == FilterDatum([g], REDACTION, FilterDatum([f], REDACTION, m, SEPARATOR), SEPARATOR)
  {
    FilterAllSnoc([], f, m);
    FilterAllSnoc([f], g, m);
    assert [] + [f] == [f] && [f] + [g] == [f, g];
  }

  /** filter_datum with one field is the scan with that field as the only alternative. */
  lemma FilterDatumOne(f: string, redaction: string, m: string, separator: string, c: char)
    requires separator == [c] && '|' !in f
    ensures FilterDatum([f], redaction, m, separator) == Redact([f], redaction, [c], m)
  {
    AlternativesOfPlainFields([f]);
  }

  /** Without '=' right after where f would end, f does not match there. */
  lemma NoFieldAt(f: string, sep: string, m: string, q: nat)
    requires q < |m| && !StartsWith(m[q..], f + "=")
    ensures MatchAt([f], sep, m[q..]).None?
  {
    assert [f][1..] == [];
  }

  /** A '=' that is not at position |f| of a suffix rules "f=" out there. */
  lemma NoEqualsAfter(f: string, m: string, q: nat)
    requires q < |m| && (q + |f| < |m| ==> m[q + |f|] != '=')
    ensures !StartsWith(m[q..], f + "=")
  {
    if q + |f| < |m| {
      assert m[q..][|f|] == m[q + |f|];
      assert (f + "=")[|f|] == '=';
    }
  }

  /** In p + "=" + rest with no other '=', the only '=' sits at |p|. */
  lemma OnlyEqualsAt(p: string, rest: string, m: string)
    requires m == p + "=" + rest && '=' !in p && '=' !in rest
    ensures forall i :: 0 <= i < |m| && m[i] == '=' ==> i == |p|
  {
    forall i | 0 <= i < |m| && i != |p| ensures m[i] != '=' {
      if i < |p| {
        assert m[i] == p[i];
      } else {
        assert m[i] == rest[i - |p| - 1];
      }
    }
  }

  /** A field longer than the text before the only '=' never matches. */
  lemma FieldAbsent(f: string, redaction: string, c: char, p: string, rest: string, m: string)
    requires m == p + "=" + rest && '=' !in p && '=' !in rest && |p| < |f|
    ensures Redact([f], redaction, [c], m) == m
  {
    OnlyEqualsAt(p, rest, m);
    forall q | 0 <= q < |m| ensures MatchAt([f], [c], m[q..]).None? {
      NoEqualsAfter(f, m, q);
      NoFieldAt(f, [c], m, q);
    }
    NoMatchKeeps([f], redaction, [c], m);
  }

  /** The first match of a single field when no earlier position starts with "f=". */
  lemma SpanAfter(f: string, redaction: string, c: char, m: string, pre: string, v: string, post: string)
    requires c !in v && '\n' !in v
    requires m == pre + f + "=" + v + [c] + post
    requires forall q :: 0 <= q < |pre| ==> !StartsWith(m[q..], f + "=")
    ensures Redact([f], redaction, [c], m) == pre + Replacement(Match(f, v), redaction, [c]) + Redact([f], redaction, [c], post)
  {
    SpanParts(m, pre, f, v, c, post);
    forall q | 0 <= q < |pre| ensures MatchAt([f], [c], m[q..]).None? {
      NoFieldAt(f, [c], m, q);
    }
    MatchFieldClean(f, v, c, post);
    FirstMatchSplit([f], redaction, [c], m, |pre|, Match(f, v));
  }

  /** The first field: its span is redacted and the rest, which cannot match it, is kept. */
  lemma FirstFieldStep(f: string, g: string, red: string, c: char, a: string, b: string, m0: string, pre: string, m1: string)
    requires c !in a && '\n' !in a && '=' !in g && '=' !in b && c != '=' && |g| < |f|
    requires m0 == f + "=" + a + [c] + (g + "=" + b + [c])
    requires pre == f + "=" + red + [c] && m1 == pre + g + "=" + b + [c]
    ensures Redact([f], red, [c], m0) == m1
  {
    SpanAfter(f, red, c, m0, "", a, g + "=" + b + [c]);
    FieldAbsent(f, red, c, g, b + [c], g + "=" + b + [c]);
    Regroup2(pre, g, b, c, m1, Redact([f], red, [c], m0));
  }

  lemma ReplacementText(g: string, b: string, red: string, c: char)
    ensures Replacement(Match(g, b), red, [c]) == g + "=" + red + [c]
  {
  }

  /** The second field: its span is the first match and closes the message. */
  lemma SecondFieldStep(g: string, red: string, c: char, b: string, pre: string, m1: string)
    requires c !in b && '\n' !in b
    requires m1 == pre + g + "=" + b + [c]
    requires forall q :: 0 <= q < |pre| ==> !StartsWith(m1[q..], g + "=")
    ensures Redact([g], red, [c], m1) == pre + g + "=" + red + [c]
  {
    SpanAfter(g, red, c, m1, pre, b, "");
    ReplacementText(g, b, red, c);
    EmptyTail(pre, g, red, c, Redact([g], red, [c], m1), Redact([g], red, [c], ""));
  }

  /**
   * Two fields, each value closed by the separator: both are redacted,
   * provided the second field's name cannot be read as the first.
   */
  lemma TwoFieldsRedacted(f: string, g: string, red: string, sep: string, c: char, a: string, b: string,
                          m0: string, m1: string, pre: string)
    requires sep == [c] && c !in a && '\n' !in a && c !in b && '\n' !in b && '|' !in f && '|' !in g
    requires '=' !in g && '=' !in b && c != '=' && |g| < |f|
    requires m0 == f + "=" + a + [c] + (g + "=" + b + [c])
    requires pre == f + "=" + red + [c] && m1 == pre + g + "=" + b + [c]
    requires forall q :: 0 <= q < |pre| ==> !StartsWith(m1[q..], g + "=")
    ensures FilterDatum([g], red, FilterDatum([f], red, m0, sep), sep) == pre + g + "=" + red + [c]
  {
    FilterDatumOne(f, red, m0, sep, c);
    FirstFieldStep(f, g, red, c, a, b, m0, pre, m1);
    FilterDatumOne(g, red, m1, sep, c);
    SecondFieldStep(g, red, c, b, pre, m1);
  }

  lemma Regroup2(pre: string, g: string, b: string, c: char, m1: string, whole: string)
    requires whole == "" + pre + (g + "=" + b + [c]) && m1 == pre + g + "=" + b + [c]
    ensures whole == m1
  {
  }

  lemma EmptyTail(pre: string, g: string, red: string, c: char, whole: string, t: string)
    requires whole == pre + (g + "=" + red + [c]) + t && t == []
    ensures whole == pre + g + "=" + red + [c]
  {
  }

  /** In the text format leaves after redacting email, "name=" starts nowhere before the name field. */
  lemma NoNameBefore(m: string, b: string, pre: string)
    requires pre == "email=***;" && m == "email=***;name=" + b + ";"
    ensures forall q :: 0 <= q < |pre| ==> !StartsWith(m[q..], "name" + "=")
  {
    assert m[..14] == "email" + "=" + "***;name";
    OnlyEqualsAt("email", "***;name", m[..14]);
    forall q | 0 <= q < 10 ensures !StartsWith(m[q..], "name=") {
      if q == 1 {
        assert m[q..][0] == m[1] == 'm';
      } else {
        assert m[q + 4] == m[..14][q + 4];
        NoEqualsAfter("name", m, q);
      }
    }
  }

  /** Two fields whose values are closed by ';': format redacts both. */
  lemma FormatTwo(f: string, g: string, c: char, a: string, b: string, m0: string, m1: string, pre: string, out: string)
    requires SEPARATOR == [c] && c !in a && '\n' !in a && c !in b && '\n' !in b && '|' !in f && '|' !in g
    requires '=' !in g && '=' !in b && c != '=' && |g| < |f|
    requires m0 == f + "=" + a + [c] + (g + "=" + b + [c])
    requires pre == f + "=" + REDACTION + [c] && m1 == pre + g + "=" + b + [c]
    requires forall q :: 0 <= q < |pre| ==> !StartsWith(m1[q..], g + "=")
    requires out == pre + g + "=" + REDACTION + [c]
    ensures FilterAll([f, g], m0) == out
  {
    FilterAllTwo(f, g, m0);
    TwoFieldsRedacted(f, g, REDACTION, SEPARATOR, c, a, b, m0, m1, pre);
  }

  /** The texts of the example, split the way FormatTwo takes them. */
  lemma ExampleTexts(a: string, b: string)
    ensures "email=" + a + ";name=" + b + ";" == "email" + "=" + a + [';'] + ("name" + "=" + b + [';'])
    ensures "email=***;name=" + b + ";" == "email=***;" + "name" + "=" + b + [';']
    ensures "email=***;" == "email" + "=" + REDACTION + [';']
    ensures "email=***;name=***;" == "email=***;" + "name" + "=" + REDACTION + [';']
    ensures SEPARATOR == [';'] && '=' !in "name" && |"name"| < |"email"| && '|' !in "email" && '|' !in "name"
  {
  }

  /** format's own example: with fields email and name both values are redacted, whatever they are. */
  lemma FormatExample(a: string, b: string)
    requires ';' !in a && '\n' !in a && ';' !in b && '\n' !in b && '=' !in b
    ensures FilterAll(["email", "name"], "email=" + a + ";name=" + b + ";") == "email=***;name=***;"
  {
    ExampleTexts(a, b);
    NoNameBefore("email=***;name=" + b + ";", b, "email=***;");
    FormatTwo("email", "name", ';', a, b, "email=" + a + ";name=" + b + ";", "email=***;name=" + b + ";",
      "email=***;", "email=***;name=***;");
  }
}
