/** `escapeHtml` of script.js, which replaces every match of the global regular
    expression `/[&<>"]+/g` by looking the matched text up in a four-entry
    table. Because of the `+`, a run of two or more of the four characters is a
    single match; the table has no entry for it, the lookup yields `undefined`,
    and `String.prototype.replace` inserts the text "undefined".

    The module models that function as written (`EscapeHtml`), the evidently
    intended per-character escape (`EscapeHtmlFixed`), and the decoding an
    HTML parser applies to the four entities (`Unescape`), so that what a
    reader of the page sees can be compared with the original text. */
module HtmlEscape {

  import opened Wrappers
  import opened Sequences

  /** The four characters the regular expression's class matches. */
  predicate IsMeta(c: char) {
    c == '&' || c == '<' || c == '>' || c == '"'
  }

  /** No character of `s` can open a tag or close a quoted attribute value. */
  predicate NoMarkup(s: string) {
    forall i :: 0 <= i < |s| ==> s[i] != '<' && s[i] != '>' && s[i] != '"'
  }

  predicate MetaFree(s: string) {
    forall i :: 0 <= i < |s| ==> !IsMeta(s[i])
  }

  /** No two neighbouring characters of `s` are both metacharacters, so every
      match of `/[&<>"]+/` in `s` is a single character. */
  predicate NoAdjacentMeta(s: string) {
    forall i :: 0 < i < |s| ==> !(IsMeta(s[i - 1]) && IsMeta(s[i]))
  }

  /** Cutting between `a` and `b` does not split a run of metacharacters. */
  predicate Boundary(a: string, b: string) {
    |a| == 0 || |b| == 0 || !IsMeta(a[|a| - 1]) || !IsMeta(b[0])
  }

  /** The character reference each metacharacter is meant to become. */
  function Entity(c: char): (r: string)
    requires IsMeta(c)
  {
    match c
    case '&' => "&amp;"
    case '<' => "&lt;"
    case '>' => "&gt;"
    case _ => "&quot;"
  }

  /** The object literal `{'&':'&amp;', '<':'&lt;', '>':'&gt;', '"':'&quot;'}`
      indexed by a key: its only keys are the four one-character strings. */
  function EntityTable(key: string): Option<string> {
    if |key| == 1 && IsMeta(key[0]) then Some(Entity(key[0])) else None
  }

  /** The replacement callback: a table lookup, where a missing key gives
      `undefined`, which `replace` converts to the string "undefined". */
  function ReplaceMatch(m: string): (r: string)
    ensures |m| != 1 ==> r == "undefined"
    ensures NoMarkup(r)
  {
    EntityTable(m).GetOr("undefined")
  }

  /** A single metacharacter is found in the table. */
  lemma ReplaceLoneMeta(c: char)
    requires IsMeta(c)
    ensures ReplaceMatch([c]) == Entity(c)
  {
  }

  /** Length of the leading run of metacharacters: the greedy match of
      `[&<>"]+` at the start of `s` (0 when there is no match there). */
  function MetaRunLength(s: string): (n: nat)
    ensures n <= |s|
  {
    if |s| > 0 && IsMeta(s[0]) then 1 + MetaRunLength(s[1..]) else 0
  }

  /** `escapeHtml(str)` as written: text outside matches is copied, each
      maximal run of metacharacters is replaced by `ReplaceMatch` of the run. */
  function EscapeHtml(s: string): string
    decreases |s|
  {
    if |s| == 0 then ""
    else if !IsMeta(s[0]) then [s[0]] + EscapeHtml(s[1..])
    else
      var n := MetaRunLength(s);
      ReplaceMatch(s[..n]) + EscapeHtml(s[n..])
  }

  /** No output of `escapeHtml` contains a raw `<`, `>` or `"`, whatever the
      input: the entities and the word "undefined" contain none. */
  lemma {:induction false} EscapeHtmlNoMarkup(s: string)
    ensures NoMarkup(EscapeHtml(s))
    decreases |s|
  {
    if |s| > 0 {
      if !IsMeta(s[0]) {
        EscapeHtmlNoMarkup(s[1..]);
      } else {
        var n := MetaRunLength(s);
        EscapeHtmlNoMarkup(s[n..]);
      }
    }
  }

  /** Text without any of the four metacharacters is returned unchanged. */
  lemma {:induction false} EscapeHtmlPlainUnchanged(s: string)
    requires MetaFree(s)
    ensures EscapeHtml(s) == s
    decreases |s|
  {
    if |s| > 0 {
      EscapeHtmlPlainUnchanged(s[1..]);
    }
  }

  /** The leading run is the greedy match: it consists of metacharacters
      only, and the character after it (if any) is not one. */
  lemma {:induction false} MetaRunLengthIsGreedy(s: string)
    ensures forall i :: 0 <= i < MetaRunLength(s) ==> IsMeta(s[i])
    ensures MetaRunLength(s) < |s| ==> !IsMeta(s[MetaRunLength(s)])
    decreases |s|
  {
    if |s| > 0 && IsMeta(s[0]) {
      MetaRunLengthIsGreedy(s[1..]);
      forall i | 1 <= i < MetaRunLength(s) ensures IsMeta(s[i]) {
        assert s[i] == s[1..][i - 1];
      }
    }
  }

  /** Every character of `s` is a metacharacter. */
  predicate AllMeta(s: string) {
    |s| == 0 || (IsMeta(s[0]) && AllMeta(s[1..]))
  }

  /** A run of metacharacters followed by text that does not continue it is
      matched exactly. */
  lemma {:induction false} LeadingRunLength(run: string, b: string)
    requires AllMeta(run)
    requires |b| == 0 || !IsMeta(b[0])
    ensures MetaRunLength(run + b) == |run|
    decreases |run|
  {
    if |run| == 0 {
      assert run + b == b;
    } else {
      assert (run + b)[0] == run[0];
      assert (run + b)[1..] == run[1..] + b;
      LeadingRunLength(run[1..], b);
    }
  }

  /** Appending text after a boundary does not lengthen the leading run. */
  lemma {:induction false} MetaRunOfConcat(a: string, b: string)
    requires |a| > 0 && Boundary(a, b)
    ensures MetaRunLength(a + b) == MetaRunLength(a)
    decreases |a|
  {
    assert (a + b)[0] == a[0];
    if IsMeta(a[0]) {
      if |a| == 1 {
        assert (a + b)[1..] == b;
      } else {
        assert (a + b)[1..] == a[1..] + b;
        assert a[1..][|a[1..]| - 1] == a[|a| - 1];
        MetaRunOfConcat(a[1..], b);
      }
    }
  }

  /** Escaping distributes over concatenation at any cut that does not split
      a run of metacharacters. */
  lemma {:induction false} EscapeConcat(a: string, b: string)
    requires Boundary(a, b)
    ensures EscapeHtml(a + b) == EscapeHtml(a) + EscapeHtml(b)
    decreases |a|
  {
    if |a| == 0 {
      assert a + b == b;
    } else if !IsMeta(a[0]) {
      assert (a + b)[1..] == a[1..] + b;
      assert Boundary(a[1..], b);
      EscapeConcat(a[1..], b);
      AppendAssoc([a[0]], EscapeHtml(a[1..]), EscapeHtml(b));
    } else {
      var n := MetaRunLength(a);
      MetaRunOfConcat(a, b);
      assert (a + b)[..n] == a[..n];
      assert (a + b)[n..] == a[n..] + b;
      assert Boundary(a[n..], b) by {
        if |a[n..]| > 0 {
          assert a[n..][|a[n..]| - 1] == a[|a| - 1];
        }
      }
      EscapeConcat(a[n..], b);
      AppendAssoc(ReplaceMatch(a[..n]), EscapeHtml(a[n..]), EscapeHtml(b));
    }
  }

  /** Escaping text that starts with a maximal run of metacharacters: the
      run's replacement followed by the escaped rest. */
  lemma EscapeLeadingRun(run: string, b: string)
    requires |run| > 0 && AllMeta(run)
    requires |b| == 0 || !IsMeta(b[0])
    ensures EscapeHtml(run + b) == ReplaceMatch(run) + EscapeHtml(b)
  {
    var rb := run + b;
    assert rb[0] == run[0];
    LeadingRunLength(run, b);
    assert rb[..|run|] == run;
    assert rb[|run|..] == b;
  }

  /** A metacharacter with no metacharacter on either side is replaced by its
      entity, and the text around it is escaped independently. */
  lemma LoneMetaEscaped(a: string, c: char, b: string)
    requires IsMeta(c)
    requires |a| == 0 || !IsMeta(a[|a| - 1])
    requires |b| == 0 || !IsMeta(b[0])
    ensures EscapeHtml(a + [c] + b) == EscapeHtml(a) + Entity(c) + EscapeHtml(b)
  {
    EscapeLeadingRun([c], b);
    ReplaceLoneMeta(c);
    EscapeConcat(a, [c] + b);
    AppendAssoc(a, [c], b);
    AppendAssoc(EscapeHtml(a), Entity(c), EscapeHtml(b));
  }

  /** A maximal run of two or more metacharacters is replaced as a whole by
      the text "undefined". */
  lemma RunBecomesUndefined(a: string, run: string, b: string)
    requires |run| >= 2 && AllMeta(run)
    requires |a| == 0 || !IsMeta(a[|a| - 1])
    requires |b| == 0 || !IsMeta(b[0])
    ensures EscapeHtml(a + run + b) == EscapeHtml(a) + "undefined" + EscapeHtml(b)
  {
    EscapeLeadingRun(run, b);
    EscapeConcat(a, run + b);
    AppendAssoc(a, run, b);
    AppendAssoc(EscapeHtml(a), ReplaceMatch(run), EscapeHtml(b));
  }

  /** A character outside the four is copied to the output in place: the
      output is the escaped text before it, the character, and the escaped
      text after it. */
  lemma PlainCharCopied(a: string, c: char, b: string)
    requires !IsMeta(c)
    ensures EscapeHtml(a + [c] + b) == EscapeHtml(a) + [c] + EscapeHtml(b)
  {
    EscapeConcat(a, [c] + b);
    assert ([c] + b)[1..] == b;
    assert a + [c] + b == a + ([c] + b);
  }

  /** One character as the intended escape treats it. */
  function EscapeChar(c: char): string {
    if IsMeta(c) then Entity(c) else [c]
  }

  /** The evidently intended escape: every metacharacter replaced on its own,
      as `/[&<>"]/g` without the `+` would do. */
  function EscapeHtmlFixed(s: string): (r: string)
    ensures NoMarkup(r)
    ensures MetaFree(s) ==> r == s
  {
    if |s| == 0 then "" else EscapeChar(s[0]) + EscapeHtmlFixed(s[1..])
  }

  /** The intended escape works character by character, so it distributes over
      every concatenation. */
  lemma {:induction false} EscapeFixedConcat(a: string, b: string)
    ensures EscapeHtmlFixed(a + b) == EscapeHtmlFixed(a) + EscapeHtmlFixed(b)
    decreases |a|
  {
    if |a| == 0 {
      assert a + b == b;
    } else {
      assert (a + b)[1..] == a[1..] + b;
      EscapeFixedConcat(a[1..], b);
    }
  }

  /** The as-written escape agrees with the intended one whenever the input
      has no two adjacent metacharacters. */
  lemma {:induction false} EscapeAgreesWithoutRuns(s: string)
    requires NoAdjacentMeta(s)
    ensures EscapeHtml(s) == EscapeHtmlFixed(s)
    decreases |s|
  {
    if |s| > 0 {
      assert NoAdjacentMeta(s[1..]) by {
        forall i | 0 < i < |s[1..]| ensures !(IsMeta(s[1..][i - 1]) && IsMeta(s[1..][i])) {
          assert s[1..][i - 1] == s[i] && s[1..][i] == s[i + 1];
        }
      }
      EscapeAgreesWithoutRuns(s[1..]);
      if IsMeta(s[0]) {
        if |s| > 1 {
          assert !IsMeta(s[1]) && s[1..][0] == s[1];
        }
        assert MetaRunLength(s) == 1;
        assert s[..1] == [s[0]];
        ReplaceLoneMeta(s[0]);
      }
    }
  }

  /** The character reference `s` starts with, if it is one of the four:
      the character it stands for and the reference's length. */
  function LeadingReference(s: string): Option<(char, nat)>
  {
    if |s| >= 5 && s[0] == '&' && s[1] == 'a' && s[2] == 'm' && s[3] == 'p' && s[4] == ';' then
      Some(('&', 5))
    else if |s| >= 4 && s[0] == '&' && s[1] == 'l' && s[2] == 't' && s[3] == ';' then
      Some(('<', 4))
    else if |s| >= 4 && s[0] == '&' && s[1] == 'g' && s[2] == 't' && s[3] == ';' then
      Some(('>', 4))
    else if |s| >= 6 && s[0] == '&' && s[1] == 'q' && s[2] == 'u' && s[3] == 'o' && s[4] == 't' && s[5] == ';' then
      Some(('"', 6))
    else
      None
  }

  /** Decoding of the four references `escapeHtml` produces: each of `&amp;`,
      `&lt;`, `&gt;`, `&quot;` becomes its character, every other character
      is kept. */
  function Unescape(s: string): string
    decreases |s|
  {
    if |s| == 0 then ""
    else match LeadingReference(s)
      case Some((c, width)) => [c] + Unescape(s[width..])
      case None => [s[0]] + Unescape(s[1..])
  }

  /** An entity followed by any text is recognised as that entity. */
  lemma EntityRecognised(c: char, v: string)
    requires IsMeta(c)
    ensures LeadingReference(Entity(c) + v) == Some((c, |Entity(c)|))
  {
    var e := Entity(c);
    var w := e + v;
    assert forall i :: 0 <= i < |e| ==> w[i] == e[i];
  }

  /** Text not starting with `&` starts with no reference. */
  lemma NoReferenceWithoutAmpersand(v: string)
    requires |v| > 0 && v[0] != '&'
    ensures LeadingReference(v) == None
  {
  }

  /** Text that does not start with `&` decodes its first character as is. */
  lemma UnescapePlainHead(v: string)
    requires |v| > 0 && v[0] != '&'
    ensures Unescape(v) == [v[0]] + Unescape(v[1..])
  {
    NoReferenceWithoutAmpersand(v);
  }

  /** Decoding an escaped character followed by any text yields the character
      followed by the decoded text. */
  lemma UnescapeEscapedChar(c: char, v: string)
    ensures Unescape(EscapeChar(c) + v) == [c] + Unescape(v)
  {
    var w := EscapeChar(c) + v;
    if IsMeta(c) {
      EntityRecognised(c, v);
      assert w[|Entity(c)|..] == v;
    } else {
      UnescapePlainHead(w);
      assert w[0] == c && w[1..] == v;
    }
  }

  /** Decoding undoes the intended escape on a prefix. */
  lemma {:induction false} UnescapeFixedPrefix(a: string, w: string)
    ensures Unescape(EscapeHtmlFixed(a) + w) == a + Unescape(w)
    decreases |a|
  {
    if |a| == 0 {
      assert EscapeHtmlFixed(a) + w == w;
    } else {
      var v := EscapeHtmlFixed(a[1..]) + w;
      AppendAssoc(EscapeChar(a[0]), EscapeHtmlFixed(a[1..]), w);
      UnescapeEscapedChar(a[0], v);
      UnescapeFixedPrefix(a[1..], w);
      AppendAssoc([a[0]], a[1..], Unescape(w));
      assert a == [a[0]] + a[1..];
    }
  }

  /** Round trip of the intended escape: decoding the four references it
      produces gives back the original text. */
  lemma {:induction false} FixedRoundTrip(s: string)
    ensures Unescape(EscapeHtmlFixed(s)) == s
  {
    UnescapeFixedPrefix(s, "");
    assert EscapeHtmlFixed(s) + "" == EscapeHtmlFixed(s);
  }

  /** With two adjacent metacharacters the as-written escape loses the text:
      decoding the four references does not give back the original. */
  lemma {:induction false} AdjacentMetaGarbles(s: string)
    requires !NoAdjacentMeta(s)
    ensures Unescape(EscapeHtml(s)) != s
    decreases |s|
  {
    var j :| 0 < j < |s| && IsMeta(s[j - 1]) && IsMeta(s[j]);
    if !IsMeta(s[0]) {
      assert IsMeta(s[1..][j - 2]) && IsMeta(s[1..][j - 1]);
      AdjacentMetaGarbles(s[1..]);
      UnescapeEscapedChar(s[0], EscapeHtml(s[1..]));
      assert s == [s[0]] + s[1..];
    } else {
      var n := MetaRunLength(s);
      if n == 1 {
        assert MetaRunLength(s[1..]) == 0;
        assert |s| > 1 ==> !IsMeta(s[1..][0]) && s[1..][0] == s[1];
        assert j >= 2;
        assert IsMeta(s[1..][j - 2]) && IsMeta(s[1..][j - 1]);
        AdjacentMetaGarbles(s[1..]);
        assert s[..1] == [s[0]] && s[1..] == s[n..];
        ReplaceLoneMeta(s[0]);
        UnescapeEscapedChar(s[0], EscapeHtml(s[1..]));
        assert s == [s[0]] + s[1..];
      } else {
        var shown := EscapeHtml(s);
        assert shown == "undefined" + EscapeHtml(s[n..]);
        UnescapePlainHead(shown);
        assert Unescape(shown)[0] == 'u';
      }
    }
  }

  /** The escaped name or description reads back as the original text exactly
      when it has no two adjacent metacharacters. */
  lemma DisplayFaithfulIffNoRuns(s: string)
    ensures Unescape(EscapeHtml(s)) == s <==> NoAdjacentMeta(s)
  {
    if NoAdjacentMeta(s) {
      EscapeAgreesWithoutRuns(s);
      FixedRoundTrip(s);
    } else {
      AdjacentMetaGarbles(s);
    }
  }

  /** Concrete instance: `escapeHtml('a<<b')` is `'aundefinedb'`. */
  lemma RunCounterexample()
    ensures EscapeHtml("a<<b") == "aundefinedb"
  {
    RunBecomesUndefined("a", "<<", "b");
    assert "a" + "<<" + "b" == "a<<b";
    assert EscapeHtml("a") == "a" && EscapeHtml("b") == "b";
  }

  /** Concrete instance: the runs `<<` and `&"` escape to the same text as the
      plain word `undefined`, so no decoding can recover the original. */
  lemma RunsCollide()
    ensures EscapeHtml("<<") == EscapeHtml("&\"") == EscapeHtml("undefined")
  {
    RunBecomesUndefined("", "<<", "");
    assert "" + "<<" + "" == "<<";
    RunBecomesUndefined("", "&\"", "");
    assert "" + "&\"" + "" == "&\"";
    EscapeHtmlPlainUnchanged("undefined");
  }
}
