/** HTML escaping of server-supplied text (the `escapeHtml` helper of the
    activity board).  `EscapeHtml` is the per-character definition;
    `EscapeChain` is the helper as written, five global replacements in a
    fixed order; `Unescape` decodes the five entities the helper emits. */
module Escape {

  /** The five characters the helper replaces. */
  predicate IsSpecial(c: char) {
    c == '&' || c == '<' || c == '>' || c == '"' || c == '\''
  }

  /** The characters that open or close a tag or an attribute value. */
  predicate IsMarkup(c: char) {
    c == '<' || c == '>' || c == '"' || c == '\''
  }

  /** The replacement of one character. */
  function EscapeChar(c: char): (r: string)
    ensures IsSpecial(c) ==> |r| > 1 && r[0] == '&' && r[|r| - 1] == ';'
    ensures !IsSpecial(c) ==> r == [c]
    ensures forall i :: 0 <= i < |r| ==> !IsMarkup(r[i])
    ensures forall i :: 0 < i < |r| ==> r[i] != '&'
  {
    match c
    case '&' => "&amp;"
    case '<' => "&lt;"
    case '>' => "&gt;"
    case '"' => "&quot;"
    case '\'' => "&#039;"
    case _ => [c]
  }

  /** Escaping, one character at a time, in order. */
  function EscapeHtml(s: string): (r: string)
    ensures forall i :: 0 <= i < |r| ==> !IsMarkup(r[i])
    ensures |r| >= |s|
  {
    if s == [] then [] else EscapeChar(s[0]) + EscapeHtml(s[1..])
  }

  /** Number of occurrences of `c` in `s`. */
  function Count(s: string, c: char): nat {
    if s == [] then 0 else (if s[0] == c then 1 else 0) + Count(s[1..], c)
  }

  /** `e` occurs in `r` starting at index `i`. */
  predicate EntityAt(r: string, i: int, e: string) {
    0 <= i && i + |e| <= |r| && r[i..i + |e|] == e
  }

  /** One of the five entities starts at index `i` of `r`. */
  predicate StartsEntity(r: string, i: int) {
    EntityAt(r, i, "&amp;") || EntityAt(r, i, "&lt;") || EntityAt(r, i, "&gt;")
    || EntityAt(r, i, "&quot;") || EntityAt(r, i, "&#039;")
  }

  /** Decoding of the five entities, left to right; every other character
      is copied. */
  function Unescape(r: string): string
    decreases |r|
  {
    if r == [] then []
    else if "&amp;" <= r then "&" + Unescape(r[5..])
    else if "&lt;" <= r then "<" + Unescape(r[4..])
    else if "&gt;" <= r then ">" + Unescape(r[4..])
    else if "&quot;" <= r then "\"" + Unescape(r[6..])
    else if "&#039;" <= r then "'" + Unescape(r[6..])
    else [r[0]] + Unescape(r[1..])
  }

  /** `String.prototype.replace` with a global one-character pattern:
      every occurrence of `c` becomes `rep`.  JavaScript also expands the
      `$` patterns (`$&`, `$$`, ...) of a replacement string; `rep` is
      taken literally, which agrees with JavaScript because none of the
      five replacements contains a `$`. */
  function ReplaceAll(s: string, c: char, rep: string): (r: string)
    ensures c !in rep ==> c !in r
    ensures c !in s ==> r == s
  {
    if s == [] then []
    else (if s[0] == c then rep else [s[0]]) + ReplaceAll(s[1..], c, rep)
  }

  /** The helper as written: `&` first, then `<`, `>`, `"` and `'`. */
  function EscapeChain(s: string): (r: string)
    ensures '<' !in r && '>' !in r && '"' !in r && '\'' !in r
  {
    var t2 := ReplaceAll(ReplaceAll(s, '&', "&amp;"), '<', "&lt;");
    EntitiesHoldNoMarkup();
    LaterPassesKeepAbsent(t2, "&gt;", "&quot;", "&#039;");
    ReplaceAll(ReplaceAll(ReplaceAll(t2, '>', "&gt;"), '"', "&quot;"), '\'', "&#039;")
  }

  /** The passes for `>`, `"` and `'` bring back no `<`, and none of them
      brings back a character an earlier one removed. */
  lemma LaterPassesKeepAbsent(t: string, gt: string, quot: string, apos: string)
    requires '<' !in t && '<' !in gt && '>' !in gt
    requires '<' !in quot && '>' !in quot && '"' !in quot
    requires '<' !in apos && '>' !in apos && '"' !in apos && '\'' !in apos
    ensures var r := ReplaceAll(ReplaceAll(ReplaceAll(t, '>', gt), '"', quot), '\'', apos);
            '<' !in r && '>' !in r && '"' !in r && '\'' !in r
  {
    var t3 := ReplaceAll(t, '>', gt);
    var t4 := ReplaceAll(t3, '"', quot);
    ReplaceAllKeepsAbsent(t, '>', gt, '<');
    ReplaceAllKeepsAbsent(t3, '"', quot, '<');
    ReplaceAllKeepsAbsent(t3, '"', quot, '>');
    ReplaceAllKeepsAbsent(t4, '\'', apos, '<');
    ReplaceAllKeepsAbsent(t4, '\'', apos, '>');
    ReplaceAllKeepsAbsent(t4, '\'', apos, '"');
  }

  /** The entities of the later passes hold no character an earlier pass
      removed. */
  lemma EntitiesHoldNoMarkup()
    ensures '<' !in "&lt;" && '<' !in "&gt;" && '>' !in "&gt;"
    ensures '<' !in "&quot;" && '>' !in "&quot;" && '"' !in "&quot;"
    ensures '<' !in "&#039;" && '>' !in "&#039;" && '"' !in "&#039;" && '\'' !in "&#039;"
  {
  }

  /** A pass adds no character that is in neither its input nor its
      replacement. */
  lemma {:induction false} ReplaceAllKeepsAbsent(s: string, c: char, rep: string, d: char)
    requires d !in s && d !in rep
    ensures d !in ReplaceAll(s, c, rep)
  {
    if s != [] {
      assert d !in s[1..] by {
        assert forall i :: 0 <= i < |s[1..]| ==> s[1..][i] == s[i + 1];
      }
      ReplaceAllKeepsAbsent(s[1..], c, rep, d);
    }
  }

  // ---------------------------------------------------------------------
  // The chain of replacements equals the per-character escape.

  lemma {:induction false} ReplaceAllConcat(a: string, b: string, c: char, rep: string)
    ensures ReplaceAll(a + b, c, rep) == ReplaceAll(a, c, rep) + ReplaceAll(b, c, rep)
  {
    if a == [] {
      assert a + b == b;
    } else {
      assert (a + b)[1..] == a[1..] + b;
      ReplaceAllConcat(a[1..], b, c, rep);
    }
  }

  lemma ChainConcat(a: string, b: string)
    ensures EscapeChain(a + b) == EscapeChain(a) + EscapeChain(b)
  {
    var a1, b1 := ReplaceAll(a, '&', "&amp;"), ReplaceAll(b, '&', "&amp;");
    ReplaceAllConcat(a, b, '&', "&amp;");
    var a2, b2 := ReplaceAll(a1, '<', "&lt;"), ReplaceAll(b1, '<', "&lt;");
    ReplaceAllConcat(a1, b1, '<', "&lt;");
    var a3, b3 := ReplaceAll(a2, '>', "&gt;"), ReplaceAll(b2, '>', "&gt;");
    ReplaceAllConcat(a2, b2, '>', "&gt;");
    var a4, b4 := ReplaceAll(a3, '"', "&quot;"), ReplaceAll(b3, '"', "&quot;");
    ReplaceAllConcat(a3, b3, '"', "&quot;");
    ReplaceAllConcat(a4, b4, '\'', "&#039;");
  }

  lemma ReplaceAllSingle(x: char, c: char, rep: string)
    ensures ReplaceAll([x], c, rep) == if x == c then rep else [x]
  {
    assert [x][1..] == [];
  }

  /** On a single character the chain gives that character's entity: an
      entity introduced by one pass holds none of the characters the later
      passes replace. */
  lemma ChainChar(x: char)
    ensures EscapeChain([x]) == EscapeChar(x)
  {
    var t1 := ReplaceAll([x], '&', "&amp;");
    ReplaceAllSingle(x, '&', "&amp;");
    if x == '&' {
      LaterPasses1("&amp;");
      return;
    }
    assert t1 == [x];
    var t2 := ReplaceAll(t1, '<', "&lt;");
    ReplaceAllSingle(x, '<', "&lt;");
    if x == '<' {
      LaterPasses2("&lt;");
      return;
    }
    assert t2 == [x];
    var t3 := ReplaceAll(t2, '>', "&gt;");
    ReplaceAllSingle(x, '>', "&gt;");
    if x == '>' {
      LaterPasses3("&gt;");
      return;
    }
    assert t3 == [x];
    var t4 := ReplaceAll(t3, '"', "&quot;");
    ReplaceAllSingle(x, '"', "&quot;");
    if x == '"' {
      LaterPasses4("&quot;");
      return;
    }
    assert t4 == [x];
    ReplaceAllSingle(x, '\'', "&#039;");
  }

  lemma LaterPasses1(t: string)
    requires '<' !in t && '>' !in t && '"' !in t && '\'' !in t
    ensures ReplaceAll(ReplaceAll(ReplaceAll(ReplaceAll(
              t, '<', "&lt;"), '>', "&gt;"), '"', "&quot;"), '\'', "&#039;") == t
  {
  }

  lemma LaterPasses2(t: string)
    requires '>' !in t && '"' !in t && '\'' !in t
    ensures ReplaceAll(ReplaceAll(ReplaceAll(t, '>', "&gt;"), '"', "&quot;"), '\'', "&#039;") == t
  {
  }

  lemma LaterPasses3(t: string)
    requires '"' !in t && '\'' !in t
    ensures ReplaceAll(ReplaceAll(t, '"', "&quot;"), '\'', "&#039;") == t
  {
  }

  lemma LaterPasses4(t: string)
    requires '\'' !in t
    ensures ReplaceAll(t, '\'', "&#039;") == t
  {
  }

  lemma {:induction false} ChainEqualsEscape(s: string)
    ensures EscapeChain(s) == EscapeHtml(s)
  {
    if s == [] {
    } else {
      assert s == [s[0]] + s[1..];
      ChainConcat([s[0]], s[1..]);
      ChainChar(s[0]);
      ChainEqualsEscape(s[1..]);
    }
  }

  /** With `&` replaced last instead of first, the `&` of an entity made by
      an earlier pass is escaped a second time. */
  lemma AmpersandLastDoubleEscapes()
    ensures ReplaceAll(ReplaceAll("<", '<', "&lt;"), '&', "&amp;") == "&amp;lt;"
    ensures EscapeHtml("<") == "&lt;"
  {
    ReplaceAllSingle('<', '<', "&lt;");
    assert "&lt;" == ['&'] + "lt;";
    ReplaceAllConcat(['&'], "lt;", '&', "&amp;");
    ReplaceAllSingle('&', '&', "&amp;");
    assert EscapeHtml("<") == EscapeChar('<') + EscapeHtml([]);
  }

  // ---------------------------------------------------------------------
  // Properties of the escape.

  lemma {:induction false} EscapeConcat(a: string, b: string)
    ensures EscapeHtml(a + b) == EscapeHtml(a) + EscapeHtml(b)
  {
    if a == [] {
      assert a + b == b;
    } else {
      assert (a + b)[1..] == a[1..] + b;
      EscapeConcat(a[1..], b);
    }
  }

  /** Index `j` of `t` is index `|h| + j` of `h + t`. */
  lemma EntityShift(h: string, t: string, j: int, e: string)
    requires EntityAt(t, j, e)
    ensures EntityAt(h + t, |h| + j, e)
  {
    assert (h + t)[|h| + j..|h| + j + |e|] == t[j..j + |e|];
  }

  lemma StartsEntityShift(h: string, t: string, j: int)
    requires StartsEntity(t, j)
    ensures StartsEntity(h + t, |h| + j)
  {
    if EntityAt(t, j, "&amp;") { EntityShift(h, t, j, "&amp;"); }
    else if EntityAt(t, j, "&lt;") { EntityShift(h, t, j, "&lt;"); }
    else if EntityAt(t, j, "&gt;") { EntityShift(h, t, j, "&gt;"); }
    else if EntityAt(t, j, "&quot;") { EntityShift(h, t, j, "&quot;"); }
    else { EntityShift(h, t, j, "&#039;"); }
  }

  /** Every `&` in the output begins one of the five entities: since `&`
      is replaced first, no entity is escaped a second time. */
  lemma {:induction false} AmpersandsStartEntities(s: string)
    ensures forall i :: 0 <= i < |EscapeHtml(s)| && EscapeHtml(s)[i] == '&' ==>
              StartsEntity(EscapeHtml(s), i)
  {
    if s != [] {
      var h, t := EscapeChar(s[0]), EscapeHtml(s[1..]);
      var r := EscapeHtml(s);
      assert r == h + t;
      AmpersandsStartEntities(s[1..]);
      forall i | 0 <= i < |r| && r[i] == '&'
        ensures StartsEntity(r, i)
      {
        if i < |h| {
          assert r[..|h|] == h && h[i] == '&';
          assert EntityAt(r, i, h);
        } else {
          assert t[i - |h|] == '&';
          StartsEntityShift(h, t, i - |h|);
        }
      }
    }
  }

  lemma UnescapeAmp(t: string)
    ensures Unescape("&amp;" + t) == "&" + Unescape(t)
  {
    var r := "&amp;" + t;
    assert r[..5] == "&amp;" && r[5..] == t;
  }

  lemma UnescapeLt(t: string)
    ensures Unescape("&lt;" + t) == "<" + Unescape(t)
  {
    var r := "&lt;" + t;
    assert r[1] == 'l' && r[..4] == "&lt;" && r[4..] == t;
  }

  lemma UnescapeGt(t: string)
    ensures Unescape("&gt;" + t) == ">" + Unescape(t)
  {
    var r := "&gt;" + t;
    assert r[1] == 'g' && r[..4] == "&gt;" && r[4..] == t;
  }

  lemma UnescapeQuot(t: string)
    ensures Unescape("&quot;" + t) == "\"" + Unescape(t)
  {
    var r := "&quot;" + t;
    assert r[1] == 'q' && r[..6] == "&quot;" && r[6..] == t;
  }

  lemma UnescapeApos(t: string)
    ensures Unescape("&#039;" + t) == "'" + Unescape(t)
  {
    var r := "&#039;" + t;
    assert r[1] == '#' && r[..6] == "&#039;" && r[6..] == t;
  }

  lemma UnescapePlain(c: char, t: string)
    requires c != '&'
    ensures Unescape([c] + t) == [c] + Unescape(t)
  {
    var r := [c] + t;
    assert r[0] == c && r[1..] == t;
  }

  lemma UnescapeCons(c: char, t: string)
    ensures Unescape(EscapeChar(c) + t) == [c] + Unescape(t)
  {
    match c
    case '&' => UnescapeAmp(t);
    case '<' => UnescapeLt(t);
    case '>' => UnescapeGt(t);
    case '"' => UnescapeQuot(t);
    case '\'' => UnescapeApos(t);
    case _ => UnescapePlain(c, t);
  }

  /** Decoding the entities in the output gives back the input. */
  lemma {:induction false} UnescapeEscape(s: string)
    ensures Unescape(EscapeHtml(s)) == s
  {
    if s != [] {
      UnescapeCons(s[0], EscapeHtml(s[1..]));
      UnescapeEscape(s[1..]);
      assert [s[0]] + s[1..] == s;
    }
  }

  /** The output grows by 4 per `&`, 3 per `<` or `>` and 5 per `"` or `'`. */
  lemma {:induction false} EscapeLength(s: string)
    ensures |EscapeHtml(s)| == |s| + 4 * Count(s, '&') + 3 * (Count(s, '<') + Count(s, '>'))
                                   + 5 * (Count(s, '"') + Count(s, '\''))
  {
    if s != [] {
      EscapeLength(s[1..]);
    }
  }

  lemma {:induction false} CountPositive(s: string, i: int)
    requires 0 <= i < |s|
    ensures Count(s, s[i]) > 0
  {
    if i > 0 {
      CountPositive(s[1..], i - 1);
    }
  }

  /** A string is returned unchanged exactly when it holds none of the five
      special characters. */
  lemma {:induction false} EscapeIdentity(s: string)
    ensures EscapeHtml(s) == s <==> forall i :: 0 <= i < |s| ==> !IsSpecial(s[i])
  {
    if forall i :: 0 <= i < |s| ==> !IsSpecial(s[i]) {
      if s != [] {
        assert !IsSpecial(s[0]);
        assert forall i :: 0 <= i < |s[1..]| ==> !IsSpecial(s[1..][i]) by {
          forall i | 0 <= i < |s[1..]| ensures !IsSpecial(s[1..][i]) {
            assert s[1..][i] == s[i + 1];
          }
        }
        EscapeIdentity(s[1..]);
        assert [s[0]] + s[1..] == s;
      }
    } else {
      var i :| 0 <= i < |s| && IsSpecial(s[i]);
      CountPositive(s, i);
      EscapeLength(s);
      assert |EscapeHtml(s)| > |s|;
    }
  }
}
