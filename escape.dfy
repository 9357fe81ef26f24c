/** `escapeHTML`: the five HTML-significant characters become entities. */
module Escape {
  import opened JsString

  /** One of the five characters `escapeHTML` rewrites. */
  predicate IsSpecial(c: char) {
    c == '&' || c == '<' || c == '>' || c == '"' || c == '\''
  }

  /** A character that would start or delimit markup or an attribute value. */
  predicate IsMarkup(c: char) {
    c == '<' || c == '>' || c == '"' || c == '\''
  }

  /** The text that stands for `c` in escaped output: an entity that starts
      with `&`, ends with `;` and holds no markup or space for a special
      character, the character itself otherwise. */
  function Entity(c: char): (r: string)
    ensures IsSpecial(c) ==> |r| >= 4 && r[0] == '&' && r[|r| - 1] == ';'
    ensures !IsSpecial(c) ==> r == [c]
    ensures forall i :: 0 <= i < |r| ==> !IsMarkup(r[i])
    ensures forall i :: 0 <= i < |r| ==> (r[i] == ' ' <==> c == ' ')
    ensures '&' in r <==> IsSpecial(c)
  {
    match c
    case '&' => "&amp;"
    case '<' => "&lt;"
    case '>' => "&gt;"
    case '"' => "&quot;"
    case '\'' => "&#039;"
    case _ => [c]
  }

  /** `s.replace(/c/g, rep)` for a one-character pattern and a replacement
      without `$` patterns: every occurrence of `c`, left to right, becomes `rep`. */
  function ReplaceAll(s: string, c: char, rep: string): string {
    if s == [] then [] else (if s[0] == c then rep else [s[0]]) + ReplaceAll(s[1..], c, rep)
  }

  /** `escapeHTML(input)`: the chain of five global replacements, `&` first. */
  function EscapeHtml(input: string): string {
    ReplaceAll(ReplaceAll(ReplaceAll(ReplaceAll(ReplaceAll(
      input, '&', "&amp;"), '<', "&lt;"), '>', "&gt;"), '"', "&quot;"), '\'', "&#039;")
  }

  /** Reference definition: every character replaced independently by its entity. */
  function EntityMap(s: string): string {
    if s == [] then [] else Entity(s[0]) + EntityMap(s[1..])
  }

  lemma {:induction false} ReplaceAllAppend(a: string, b: string, c: char, rep: string)
    ensures ReplaceAll(a + b, c, rep) == ReplaceAll(a, c, rep) + ReplaceAll(b, c, rep)
  {
    if a == [] {
      assert a + b == b;
    } else {
      assert (a + b)[0] == a[0];
      assert (a + b)[1..] == a[1..] + b;
      ReplaceAllAppend(a[1..], b, c, rep);
    }
  }

  lemma ReplaceAllChar(x: char, c: char, rep: string)
    ensures ReplaceAll([x], c, rep) == if x == c then rep else [x]
  {
    assert [x][1..] == [];
  }

  lemma {:induction false} ReplaceAllAbsent(s: string, c: char, rep: string)
    requires c !in s
    ensures ReplaceAll(s, c, rep) == s
  {
    if s != [] {
      assert s == [s[0]] + s[1..];
      ReplaceAllAbsent(s[1..], c, rep);
    }
  }

  lemma EscapeHtmlAppend(a: string, b: string)
    ensures EscapeHtml(a + b) == EscapeHtml(a) + EscapeHtml(b)
  {
    var a1, b1 := ReplaceAll(a, '&', "&amp;"), ReplaceAll(b, '&', "&amp;");
    ReplaceAllAppend(a, b, '&', "&amp;");
    var a2, b2 := ReplaceAll(a1, '<', "&lt;"), ReplaceAll(b1, '<', "&lt;");
    ReplaceAllAppend(a1, b1, '<', "&lt;");
    var a3, b3 := ReplaceAll(a2, '>', "&gt;"), ReplaceAll(b2, '>', "&gt;");
    ReplaceAllAppend(a2, b2, '>', "&gt;");
    var a4, b4 := ReplaceAll(a3, '"', "&quot;"), ReplaceAll(b3, '"', "&quot;");
    ReplaceAllAppend(a3, b3, '"', "&quot;");
    ReplaceAllAppend(a4, b4, '\'', "&#039;");
  }

  /** Escaping one character yields exactly its entity: the entities that
      later replacements in the chain see contain none of their patterns. */
  lemma EscapeHtmlChar(c: char)
    ensures EscapeHtml([c]) == Entity(c)
  {
    ReplaceAllChar(c, '&', "&amp;");
    if c == '&' {
      PassThrough("&amp;");
    } else {
      ReplaceAllChar(c, '<', "&lt;");
      if c == '<' {
        PassThrough("&lt;");
      } else {
        ReplaceAllChar(c, '>', "&gt;");
        if c == '>' {
          PassThrough("&gt;");
        } else {
          ReplaceAllChar(c, '"', "&quot;");
          if c == '"' {
            PassThrough("&quot;");
          } else {
            ReplaceAllChar(c, '\'', "&#039;");
          }
        }
      }
    }
  }

  /** An entity holds none of the characters the later stages look for, so
      those stages leave it as it is. */
  lemma PassThrough(e: string)
    requires forall i :: 0 <= i < |e| ==> !IsMarkup(e[i])
    ensures ReplaceAll(e, '<', "&lt;") == e
    ensures ReplaceAll(e, '>', "&gt;") == e
    ensures ReplaceAll(e, '"', "&quot;") == e
    ensures ReplaceAll(e, '\'', "&#039;") == e
  {
    ReplaceAllAbsent(e, '<', "&lt;");
    ReplaceAllAbsent(e, '>', "&gt;");
    ReplaceAllAbsent(e, '"', "&quot;");
    ReplaceAllAbsent(e, '\'', "&#039;");
  }

  /** Because `&` is replaced first, no entity is escaped twice: the chain
      equals the character-by-character entity map. */
  lemma {:induction false} EscapeHtmlIsEntityMap(s: string)
    ensures EscapeHtml(s) == EntityMap(s)
  {
    if s != [] {
      assert s == [s[0]] + s[1..];
      EscapeHtmlAppend([s[0]], s[1..]);
      EscapeHtmlChar(s[0]);
      EscapeHtmlIsEntityMap(s[1..]);
    }
  }

  lemma {:induction false} EntityMapAppend(a: string, b: string)
    ensures EntityMap(a + b) == EntityMap(a) + EntityMap(b)
  {
    if a == [] {
      assert a + b == b;
    } else {
      assert (a + b)[0] == a[0];
      assert (a + b)[1..] == a[1..] + b;
      EntityMapAppend(a[1..], b);
    }
  }

  lemma {:induction false} EntityMapNoMarkup(s: string)
    ensures forall k :: 0 <= k < |EntityMap(s)| ==> !IsMarkup(EntityMap(s)[k])
  {
    if s != [] {
      EntityMapNoMarkup(s[1..]);
      var e, rest := Entity(s[0]), EntityMap(s[1..]);
      assert forall k :: |e| <= k < |e + rest| ==> (e + rest)[k] == rest[k - |e|];
    }
  }

  /** Escaped output holds no `<`, `>`, `"` or `'`, so it cannot open a tag
      or close an attribute value. */
  lemma NoMarkupAfterEscape(s: string)
    ensures forall k :: 0 <= k < |EscapeHtml(s)| ==> !IsMarkup(EscapeHtml(s)[k])
  {
    EscapeHtmlIsEntityMap(s);
    EntityMapNoMarkup(s);
  }

  lemma {:induction false} EntityMapSpace(s: string)
    ensures ' ' in EntityMap(s) <==> ' ' in s
  {
    if s != [] {
      EntityMapSpace(s[1..]);
      assert s == [s[0]] + s[1..];
      assert ' ' in Entity(s[0]) <==> s[0] == ' ';
    }
  }

  /** Escaping neither adds nor removes spaces. */
  lemma SpaceSurvivesEscape(s: string)
    ensures ' ' in EscapeHtml(s) <==> ' ' in s
  {
    EscapeHtmlIsEntityMap(s);
    EntityMapSpace(s);
  }

  lemma {:induction false} EntityMapAmpersand(s: string)
    ensures '&' in EntityMap(s) <==> exists k :: 0 <= k < |s| && IsSpecial(s[k])
  {
    if s != [] {
      EntityMapAmpersand(s[1..]);
      assert forall k :: 1 <= k < |s| ==> s[k] == s[1..][k - 1];
      if IsSpecial(s[0]) {
        assert '&' in Entity(s[0]);
      } else if exists k :: 0 <= k < |s| && IsSpecial(s[k]) {
        var k :| 0 <= k < |s| && IsSpecial(s[k]);
        assert IsSpecial(s[1..][k - 1]);
      }
    }
  }

  /** A special character anywhere in the input leaves an `&` in the output,
      and an `&` in the output comes only from one. */
  lemma AmpersandMarksEscape(s: string)
    ensures '&' in EscapeHtml(s) <==> exists k :: 0 <= k < |s| && IsSpecial(s[k])
  {
    EscapeHtmlIsEntityMap(s);
    EntityMapAmpersand(s);
  }

  lemma {:induction false} EntityMapLength(s: string)
    ensures |EntityMap(s)| >= |s|
    ensures |EntityMap(s)| == |s| <==> forall k :: 0 <= k < |s| ==> !IsSpecial(s[k])
  {
    if s != [] {
      EntityMapLength(s[1..]);
      assert forall k :: 1 <= k < |s| ==> s[k] == s[1..][k - 1];
    }
  }

  /** A string comes back unchanged exactly when it holds none of the five
      special characters. */
  lemma {:induction false} EscapeHtmlIdentity(s: string)
    ensures EscapeHtml(s) == s <==> forall k :: 0 <= k < |s| ==> !IsSpecial(s[k])
  {
    EscapeHtmlIsEntityMap(s);
    EntityMapLength(s);
    if forall k :: 0 <= k < |s| ==> !IsSpecial(s[k]) {
      EntityMapPlain(s);
    }
  }

  lemma {:induction false} EntityMapPlain(s: string)
    requires forall k :: 0 <= k < |s| ==> !IsSpecial(s[k])
    ensures EntityMap(s) == s
  {
    if s != [] {
      assert forall k :: 0 <= k < |s| - 1 ==> s[1..][k] == s[k + 1];
      EntityMapPlain(s[1..]);
    }
  }

  // ---------------------------------------------------------------------
  // Escaping, trimming and length

  lemma {:induction false} TrimStartEntityMap(s: string)
    ensures TrimStart(EntityMap(s)) == EntityMap(TrimStart(s))
  {
    if s != [] {
      var e, rest := Entity(s[0]), EntityMap(s[1..]);
      assert EntityMap(s) == e + rest;
      if IsWhitespace(s[0]) {
        assert !IsSpecial(s[0]) && e == [s[0]];
        assert (e + rest)[0] == s[0] && (e + rest)[1..] == rest;
        TrimStartEntityMap(s[1..]);
      } else {
        assert !IsWhitespace(e[0]);
        assert (e + rest)[0] == e[0];
      }
    }
  }

  lemma EntityMapChar(c: char)
    ensures EntityMap([c]) == Entity(c)
  {
    assert [c][1..] == [];
  }

  lemma {:induction false} TrimEndEntityMap(s: string)
    ensures TrimEnd(EntityMap(s)) == EntityMap(TrimEnd(s))
    decreases |s|
  {
    if s != [] {
      var init, last := s[..|s| - 1], s[|s| - 1];
      assert s == init + [last];
      EntityMapAppend(init, [last]);
      EntityMapChar(last);
      var m := EntityMap(init) + Entity(last);
      if IsWhitespace(last) {
        assert m[..|m| - 1] == EntityMap(init);
        TrimEndEntityMap(init);
      } else {
        assert m[|m| - 1] == Entity(last)[|Entity(last)| - 1];
      }
    }
  }

  /** Trimming and escaping commute: escaping maps whitespace to itself and
      every other character to text that starts and ends with non-whitespace. */
  lemma TrimEscapeCommute(s: string)
    ensures Trim(EscapeHtml(s)) == EscapeHtml(Trim(s))
  {
    EscapeHtmlIsEntityMap(s);
    TrimStartEntityMap(s);
    TrimEndEntityMap(TrimStart(s));
    EscapeHtmlIsEntityMap(Trim(s));
  }

  lemma {:induction false} Utf16LengthEntityMap(s: string)
    ensures Utf16Length(EntityMap(s)) >= Utf16Length(s)
    decreases |s|
  {
    if s != [] {
      var init, last := s[..|s| - 1], s[|s| - 1];
      assert s == init + [last];
      EntityMapAppend(init, [last]);
      EntityMapChar(last);
      Utf16LengthAppend(EntityMap(init), Entity(last));
      Utf16LengthAppend(init, [last]);
      assert [last][..0] == [];
      Utf16LengthEntityMap(init);
    }
  }
}
