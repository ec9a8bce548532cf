/**
 * The rendering step of the diff page: every diff line is HTML-escaped with
 * three chained `str.replace` calls (`&` first, then `<`, then `>`) and the
 * escaped lines are joined with `<br>`.
 */
module Html {
  import Text

  /** `s.replace(c, rep)` for a one-character pattern `c`. */
  function Replace(s: string, c: char, rep: string): (r: string)
    ensures c !in rep ==> c !in r
    ensures forall x :: x != c && x !in rep ==> (x in r <==> x in s)
  {
    if s == [] then [] else (if s[0] == c then rep else [s[0]]) + Replace(s[1..], c, rep)
  }

  /** The escaping of one diff line, as the chain of replacements runs. */
  function Escape(line: string): (r: string)
    ensures '<' !in r && '>' !in r
  {
    Replace(Replace(Replace(line, '&', "&amp;"), '<', "&lt;"), '>', "&gt;")
  }

  /** The text one character stands for after escaping. */
  function Entity(c: char): string
  {
    if c == '&' then "&amp;" else if c == '<' then "&lt;" else if c == '>' then "&gt;" else [c]
  }

  /** Reference definition of escaping: each character replaced by its entity in one pass. */
  function EscapeChars(s: string): string
  {
    if s == [] then [] else Entity(s[0]) + EscapeChars(s[1..])
  }

  lemma {:induction false} ReplaceAppend(a: string, b: string, c: char, rep: string)
    ensures Replace(a + b, c, rep) == Replace(a, c, rep) + Replace(b, c, rep)
  {
    if a != [] {
      ReplaceAppend(a[1..], b, c, rep);
      assert (a + b)[1..] == a[1..] + b;
    } else {
      assert a + b == b;
    }
  }

  lemma {:induction false} ReplaceAbsent(s: string, c: char, rep: string)
    requires c !in s
    ensures Replace(s, c, rep) == s
  {
    if s != [] {
      ReplaceAbsent(s[1..], c, rep);
      assert s == [s[0]] + s[1..];
    }
  }

  /** The chain applied to a single character yields that character's entity. */
  lemma EscapeOneChar(c: char)
    ensures Escape([c]) == Entity(c)
  {
    assert [c][0] == c && [c][1..] == [];
    var r1 := Replace([c], '&', "&amp;");
    assert r1 == (if c == '&' then "&amp;" else [c]) + Replace([], '&', "&amp;");
    var r2 := Replace(r1, '<', "&lt;");
    if c == '&' {
      ReplaceAbsent(r1, '<', "&lt;");
      ReplaceAbsent(r2, '>', "&gt;");
    } else {
      assert r2 == (if c == '<' then "&lt;" else [c]) + Replace([], '<', "&lt;");
      if c == '<' {
        ReplaceAbsent(r2, '>', "&gt;");
      } else {
        assert Replace(r2, '>', "&gt;") == (if c == '>' then "&gt;" else [c]) + Replace([], '>', "&gt;");
      }
    }
  }

  /**
   * Replacing `&` before `<` and `>` makes the chain equal to the one-pass
   * escaping: no entity it introduces is escaped a second time.
   */
  lemma {:induction false} EscapeIsCharwise(s: string)
    ensures Escape(s) == EscapeChars(s)
  {
    if s != [] {
      EscapeIsCharwise(s[1..]);
      var head, tail := [s[0]], s[1..];
      assert s == head + tail;
      ReplaceAppend(head, tail, '&', "&amp;");
      var a1, b1 := Replace(head, '&', "&amp;"), Replace(tail, '&', "&amp;");
      ReplaceAppend(a1, b1, '<', "&lt;");
      var a2, b2 := Replace(a1, '<', "&lt;"), Replace(b1, '<', "&lt;");
      ReplaceAppend(a2, b2, '>', "&gt;");
      EscapeOneChar(s[0]);
    }
  }

  /** True when `t` holds one of the three entities at position `i`. */
  predicate EntityAt(t: string, i: nat)
  {
    i <= |t| && ("&amp;" <= t[i..] || "&lt;" <= t[i..] || "&gt;" <= t[i..])
  }

  /** Every `&` of `t` begins an entity. */
  predicate AmpersandsAreEntities(t: string)
  {
    forall i :: 0 <= i < |t| && t[i] == '&' ==> EntityAt(t, i)
  }

  lemma {:induction false} EscapeCharsAmpersands(s: string)
    ensures AmpersandsAreEntities(EscapeChars(s))
  {
    if s != [] {
      EscapeCharsAmpersands(s[1..]);
      var e, rest := Entity(s[0]), EscapeChars(s[1..]);
      var t := e + rest;
      assert t == EscapeChars(s);
      forall i | 0 <= i < |t| && t[i] == '&'
        ensures EntityAt(t, i)
      {
        if i < |e| {
          assert e[i] == '&';
          assert i == 0;
          assert t[i..] == e + rest;
        } else {
          var k := i - |e|;
          assert rest[k] == '&';
          assert EntityAt(rest, k);
          assert t[i..] == rest[k..];
        }
      }
    }
  }

  /**
   * What the rendered line may contain: no raw `<` or `>`, and every `&`
   * is the start of `&amp;`, `&lt;` or `&gt;`.
   */
  lemma EscapeIsMarkupSafe(line: string)
    ensures '<' !in Escape(line) && '>' !in Escape(line)
    ensures AmpersandsAreEntities(Escape(line))
  {
    EscapeIsCharwise(line);
    EscapeCharsAmpersands(line);
  }

  /** A browser's reading of the escaped text: entities become their characters again. */
  function Unescape(t: string): string
  {
    if t == [] then []
    else if "&amp;" <= t then "&" + Unescape(t[5..])
    else if "&lt;" <= t then "<" + Unescape(t[4..])
    else if "&gt;" <= t then ">" + Unescape(t[4..])
    else [t[0]] + Unescape(t[1..])
  }

  /** The original diff line is recovered from its escaped form. */
  lemma {:induction false} UnescapeEscape(line: string)
    ensures Unescape(Escape(line)) == line
  {
    EscapeIsCharwise(line);
    UnescapeEscapeChars(line);
  }

  lemma {:induction false} UnescapeEscapeChars(s: string)
    ensures Unescape(EscapeChars(s)) == s
  {
    if s != [] {
      UnescapeEscapeChars(s[1..]);
      UnescapeEntity(s[0], EscapeChars(s[1..]));
      assert s == [s[0]] + s[1..];
    }
  }

  /** A browser reads one character's entity back as that character. */
  lemma UnescapeEntity(c: char, rest: string)
    ensures Unescape(Entity(c) + rest) == [c] + Unescape(rest)
  {
    var e := Entity(c);
    var t := e + rest;
    assert t[|e|..] == rest;
    if c == '&' {
      assert "&amp;" <= t;
    } else if c == '<' {
      assert t[1] == 'l';
      assert "&lt;" <= t;
    } else if c == '>' {
      assert t[1] == 'g';
      assert "&gt;" <= t;
    } else {
      assert t[0] != '&' && t[0] == c;
    }
  }

  /** The only markup in `t` is `<br>`: every `<` starts one. */
  predicate OnlyBrTags(t: string)
  {
    forall i :: 0 <= i < |t| && t[i] == '<' ==> "<br>" <= t[i..]
  }

  /** The HTML body of the diff page: the escaped lines joined with `<br>`. */
  function DiffHtml(diffText: seq<string>): (r: string)
    ensures OnlyBrTags(r)
  {
    BrIsOnlyTag(EscapeAll(diffText));
    Text.Join("<br>", EscapeAll(diffText))
  }

  /** In a `<br>`-join of pieces without `<`, every `<` starts a separator. */
  lemma {:induction false} BrIsOnlyTag(parts: seq<string>)
    requires forall k :: 0 <= k < |parts| ==> '<' !in parts[k]
    ensures OnlyBrTags(Text.Join("<br>", parts))
  {
    if |parts| == 1 {
      forall i | 0 <= i < |parts[0]|
        ensures parts[0][i] != '<'
      {
        assert parts[0][i] in parts[0];
      }
    } else if |parts| >= 2 {
      BrIsOnlyTag(parts[1..]);
      var rest := Text.Join("<br>", parts[1..]);
      var r := Text.Join("<br>", parts);
      var n := |parts[0]|;
      assert r == parts[0] + ("<br>" + rest);
      forall i | 0 <= i < n
        ensures r[i] != '<'
      {
        assert r[i] == parts[0][i] && parts[0][i] in parts[0];
      }
      assert r[n..] == "<br>" + rest;
      assert r[n + 1] == 'b' && r[n + 2] == 'r' && r[n + 3] == '>';
      forall i | n + 4 <= i < |r|
        ensures r[i] == rest[i - n - 4] && r[i..] == rest[i - n - 4..]
      {
      }
    }
  }

  function EscapeAll(lines: seq<string>): (r: seq<string>)
    ensures |r| == |lines|
    ensures forall i :: 0 <= i < |lines| ==> r[i] == Escape(lines[i])
  {
    if lines == [] then [] else [Escape(lines[0])] + EscapeAll(lines[1..])
  }

  function UnescapeAll(parts: seq<string>): (r: seq<string>)
    ensures |r| == |parts|
    ensures forall i :: 0 <= i < |parts| ==> r[i] == Unescape(parts[i])
  {
    if parts == [] then [] else [Unescape(parts[0])] + UnescapeAll(parts[1..])
  }

  /** Cutting a rendered page at every `<br>`. */
  function SplitBr(t: string): (parts: seq<string>)
    ensures parts != []
  {
    if t == [] then [[]]
    else if "<br>" <= t then [[]] + SplitBr(t[4..])
    else
      var rest := SplitBr(t[1..]);
      [[t[0]] + rest[0]] + rest[1..]
  }

  /** A character other than `<` is glued to the first piece. */
  lemma SplitBrCons(c: char, t: string)
    requires c != '<'
    ensures SplitBr([c] + t) == [[c] + SplitBr(t)[0]] + SplitBr(t)[1..]
  {
    var ct := [c] + t;
    assert ct[0] == c && ct[1..] == t;
  }

  lemma {:induction false} SplitBrPlain(a: string, tail: string)
    requires '<' !in a
    ensures SplitBr(a + tail) == [a + SplitBr(tail)[0]] + SplitBr(tail)[1..]
  {
    var r := SplitBr(tail);
    if a != [] {
      assert a[0] in a;
      assert forall x :: x in a[1..] ==> x in a;
      SplitBrPlain(a[1..], tail);
      var rest := SplitBr(a[1..] + tail);
      assert rest[0] == a[1..] + r[0] && rest[1..] == r[1..];
      assert a + tail == [a[0]] + (a[1..] + tail);
      SplitBrCons(a[0], a[1..] + tail);
      assert [a[0]] + (a[1..] + r[0]) == a + r[0];
    } else {
      assert a + tail == tail && a + r[0] == r[0];
      assert r == [r[0]] + r[1..];
    }
  }

  /** Joining with `<br>` parts that hold no `<` can be undone by splitting at `<br>`. */
  lemma {:induction false} SplitBrJoin(parts: seq<string>)
    requires parts != []
    requires forall i :: 0 <= i < |parts| ==> '<' !in parts[i]
    ensures SplitBr(Text.Join("<br>", parts)) == parts
  {
    if |parts| == 1 {
      SplitBrPlain(parts[0], []);
      assert parts[0] + [] == parts[0];
      assert SplitBr([]) == [[]];
      assert parts == [parts[0]];
    } else {
      SplitBrJoin(parts[1..]);
      var tail := "<br>" + Text.Join("<br>", parts[1..]);
      assert Text.Join("<br>", parts) == parts[0] + tail;
      SplitBrPlain(parts[0], tail);
      assert tail[4..] == Text.Join("<br>", parts[1..]);
      assert "<br>" <= tail;
      assert SplitBr(tail) == [[]] + parts[1..];
      assert parts[0] + [] == parts[0];
      assert parts == [parts[0]] + parts[1..];
    }
  }

  /**
   * The rendered page is a faithful transcript of the diff: splitting it at
   * `<br>` and unescaping each piece gives back exactly the diff lines.
   */
  lemma DiffHtmlRoundTrip(diffText: seq<string>)
    requires diffText != []
    ensures UnescapeAll(SplitBr(DiffHtml(diffText))) == diffText
  {
    var escaped := EscapeAll(diffText);
    forall i | 0 <= i < |escaped|
      ensures '<' !in escaped[i] && Unescape(escaped[i]) == diffText[i]
    {
      EscapeIsMarkupSafe(diffText[i]);
      UnescapeEscape(diffText[i]);
    }
    SplitBrJoin(escaped);
  }
}
