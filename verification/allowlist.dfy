/**
 The Part 3 allow-list filter (`customXssFilter`). The text is escaped, then
 eight global regex replacements run in a fixed order, each on the previous
 one's output: for each tag name b, i, s, u first the opening pattern
 /&lt;X([^>]*)&gt;/g, whose capture is decoded and wrapped back into a live
 tag, then the closing pattern /&lt;\/X&gt;/g.

 A global replace scans leftmost first, its matches never overlap and the
 replacement text is never scanned again; the functions below follow that
 scan one position at a time.
 */
module AllowList {
  import opened Text
  import opened Entities

  /** The escaped form of `<` followed by the tag-name character `x`. */
  function OpenPattern(x: char): string
  {
    "&lt;" + [x]
  }

  /** The escaped closing tag the closing pass looks for. */
  function ClosePattern(x: char): string
  {
    "&lt;/" + [x] + "&gt;"
  }

  /** The live closing tag a closing pass writes for `x`. */
  function LiveClose(x: char): string
  {
    "</" + [x] + ">"
  }

  /** The end of the run of non-`>` characters that starts at `j`. */
  function RunEnd(s: string, j: nat): (k: nat)
    requires j <= |s|
    ensures j <= k <= |s|
    ensures forall t | j <= t < k :: s[t] != '>'
    ensures k < |s| ==> s[k] == '>'
    decreases |s| - j
  {
    if j == |s| || s[j] == '>' then j else RunEnd(s, j + 1)
  }

  /** The last `&gt;` that starts at or after `lo` and ends at or before `hi`. */
  function LastGt(s: string, lo: nat, hi: nat): (r: Option<nat>)
    requires lo <= hi <= |s|
    ensures r.Some? ==> lo <= r.value && r.value + 4 <= hi && OccursAt(s, "&gt;", r.value)
    ensures r.Some? ==> forall m | r.value < m && m + 4 <= hi :: !OccursAt(s, "&gt;", m)
    ensures r.None? ==> forall m | lo <= m && m + 4 <= hi :: !OccursAt(s, "&gt;", m)
    decreases hi
  {
    if hi < lo + 4 then None
    else if OccursAt(s, "&gt;", hi - 4) then Some(hi - 4)
    else LastGt(s, lo, hi - 1)
  }

  /** The regex /&lt;x([^>]*)&gt;/ matches at the start of `s` with its capture
      ending at index `m`. */
  predicate OpenMatch(s: string, x: char, m: int)
  {
    && OpenPattern(x) <= s
    && 5 <= m
    && OccursAt(s, "&gt;", m)
    && forall t | 5 <= t < m :: s[t] != '>'
  }

  /** Where the greedy `[^>]*` capture ends when the opening pattern matches at
      the start of `s`: the longest capture that is still followed by `&gt;`. */
  function OpenMatchAt(s: string, x: char): (r: Option<nat>)
    ensures r.Some? ==> OpenMatch(s, x, r.value)
    ensures r.Some? ==> forall m | r.value < m :: !OpenMatch(s, x, m)
    ensures r.None? ==> forall m :: !OpenMatch(s, x, m)
  {
    if OpenPattern(x) <= s then
      var k := RunEnd(s, 5);
      var r := LastGt(s, 5, k);
      assert forall m | OpenMatch(s, x, m) :: m + 4 <= k by {
        forall m | OpenMatch(s, x, m)
          ensures m + 4 <= k
        {
          OpenMatchHasNoGt(s, x, m);
        }
      }
      r
    else None
  }

  /** A match spans no `>`: neither the capture nor the closing `&gt;` holds one. */
  lemma OpenMatchHasNoGt(s: string, x: char, m: int)
    requires OpenMatch(s, x, m)
    ensures forall t | 5 <= t < m + 4 :: s[t] != '>'
  {
    forall t | m <= t < m + 4
      ensures s[t] != '>'
    {
      assert s[t] == s[m..m + 4][t - m];
    }
  }

  /** One global replacement of the opening pattern for tag `x`. */
  function ReplaceOpen(s: string, x: char): string
    decreases |s|
  {
    if |s| == 0 then []
    else match OpenMatchAt(s, x)
      case Some(m) => "<" + [x] + Unescape(s[5..m]) + ">" + ReplaceOpen(s[m + 4..], x)
      case None => [s[0]] + ReplaceOpen(s[1..], x)
  }

  /** One global replacement of the literal pattern `p` by `rep`. */
  function ReplaceAll(s: string, p: string, rep: string): string
    requires |p| > 0
    decreases |s|
  {
    if |s| == 0 then []
    else if p <= s then rep + ReplaceAll(s[|p|..], p, rep)
    else [s[0]] + ReplaceAll(s[1..], p, rep)
  }

  /** The opening pass and then the closing pass for tag `x`. */
  function TagPass(s: string, x: char, closing: string): string
  {
    ReplaceAll(ReplaceOpen(s, x), ClosePattern(x), closing)
  }

  /** The filter with `bClose` as the replacement for an escaped `</b>`. */
  function FilterWith(t: string, bClose: string): string
  {
    var s0 := Escape(t);
    var s1 := TagPass(s0, 'b', bClose);
    var s2 := TagPass(s1, 'i', LiveClose('i'));
    var s3 := TagPass(s2, 's', LiveClose('s'));
    TagPass(s3, 'u', LiveClose('u'))
  }

  /** customXssFilter as written: an escaped `</b>` becomes `<b>`. */
  function CustomXssFilter(t: string): string
  {
    FilterWith(t, "<b>")
  }

  /** customXssFilter with the `</b>` replacement its sibling passes suggest. */
  function CustomXssFilterIntended(t: string): string
  {
    FilterWith(t, LiveClose('b'))
  }

  /** The tag-name characters that start one of the eight patterns. */
  predicate TagInitial(c: char)
  {
    c == 'b' || c == 'i' || c == 's' || c == 'u' || c == '/'
  }

  /** No `<` of `t` is directly followed by `y`. */
  predicate NoOpener(t: string, y: char)
  {
    forall i | 0 <= i < |t| - 1 :: t[i] == '<' ==> t[i + 1] != y
  }

  /** An opening pass finds nothing in a string that lacks its pattern. */
  lemma {:induction false} ReplaceOpenAbsent(s: string, x: char)
    requires Absent(s, OpenPattern(x))
    ensures ReplaceOpen(s, x) == s
    decreases |s|
  {
    if |s| > 0 {
      assert !(OpenPattern(x) <= s[0..]);
      assert s[0..] == s;
      AbsentTail(s, OpenPattern(x));
      ReplaceOpenAbsent(s[1..], x);
    }
  }

  /** A literal replacement finds nothing in a string that lacks the pattern. */
  lemma {:induction false} ReplaceAllAbsent(s: string, p: string, rep: string)
    requires |p| > 0 && Absent(s, p)
    ensures ReplaceAll(s, p, rep) == s
    decreases |s|
  {
    if |s| > 0 {
      assert s[0..] == s;
      AbsentTail(s, p);
      ReplaceAllAbsent(s[1..], p, rep);
    }
  }

  /** A pass for tag `x` leaves alone a string with no escaped `<` followed by
      `x` or `/`. */
  lemma PassAbsent(s: string, x: char, closing: string)
    requires Absent(s, OpenPattern(x)) && Absent(s, OpenPattern('/'))
    ensures TagPass(s, x, closing) == s
  {
    ReplaceOpenAbsent(s, x);
    forall i | 0 <= i <= |s|
      ensures !(ClosePattern(x) <= s[i..])
    {
      assert !(OpenPattern('/') <= s[i..]);
      assert OpenPattern('/') == ClosePattern(x)[..5];
    }
    ReplaceAllAbsent(s, ClosePattern(x), closing);
  }

  /** `s` holds no `&`, so no pass can find anything in it. */
  predicate AmpFree(s: string)
  {
    forall i | 0 <= i < |s| :: s[i] != '&'
  }

  /** A pass leaves alone any string without an `&`. */
  lemma PassWithoutAmp(s: string, x: char, closing: string)
    requires AmpFree(s)
    ensures TagPass(s, x, closing) == s
  {
    AbsentWithoutFirst(s, OpenPattern(x));
    AbsentWithoutFirst(s, OpenPattern('/'));
    PassAbsent(s, x, closing);
  }

  /** Escaping creates an escaped `<` followed by `y` only where the text has
      a `<` followed by `y`. */
  lemma {:induction false} EscapeNoOpener(t: string, y: char)
    requires y != '&' && NoOpener(t, y)
    ensures Absent(Escape(t), OpenPattern(y))
    decreases |t|
  {
    if |t| == 0 {
      AbsentWithoutFirst([], OpenPattern(y));
    } else {
      var head := EscapeChar(t[0]);
      var rest := Escape(t[1..]);
      assert NoOpener(t[1..], y) by {
        forall i | 0 <= i < |t[1..]| - 1
          ensures t[1..][i] == '<' ==> t[1..][i + 1] != y
        {
          assert t[1..][i] == t[i + 1] && t[1..][i + 1] == t[i + 2];
        }
      }
      EscapeNoOpener(t[1..], y);
      var s := head + rest;
      assert s == Escape(t);
      var p := OpenPattern(y);
      if t[0] == '<' {
        if |t| > 1 {
          assert t[1..][0] == t[1];
          assert s[4] == rest[0] == EscapeChar(t[1])[0];
          assert t[1] != y;
          assert s[4] != p[4];
        } else {
          assert |s| < |p|;
        }
      } else if Reserved(t[0]) {
        assert s[1] == head[1] != p[1];
      } else {
        assert s[0] == t[0] != p[0];
      }
      AbsentPrepend(head, rest, OpenPattern(y));
    }
  }

  /** A pass for `x` leaves the escaped text alone when no `<` of the text is
      followed by `x` or `/`. */
  lemma PassOnEscaped(t: string, x: char, closing: string)
    requires x != '&' && NoOpener(t, x) && NoOpener(t, '/')
    ensures TagPass(Escape(t), x, closing) == Escape(t)
  {
    EscapeNoOpener(t, x);
    EscapeNoOpener(t, '/');
    PassAbsent(Escape(t), x, closing);
  }

  /** If no `<` of the text is followed by b, i, s, u or `/`, none of the eight
      passes finds anything and the filter is plain escaping. */
  lemma FilterWithoutCandidates(t: string, bClose: string)
    requires forall i | 0 <= i < |t| - 1 :: t[i] == '<' ==> !TagInitial(t[i + 1])
    ensures FilterWith(t, bClose) == Escape(t)
  {
    PassOnEscaped(t, 'b', bClose);
    PassOnEscaped(t, 'i', LiveClose('i'));
    PassOnEscaped(t, 's', LiveClose('s'));
    PassOnEscaped(t, 'u', LiveClose('u'));
  }

  /** Text without `<` comes out of the filter exactly as escapeHtml leaves it. */
  lemma FilterWithoutLt(t: string)
    requires forall i | 0 <= i < |t| :: t[i] != '<'
    ensures CustomXssFilter(t) == Escape(t)
    ensures CustomXssFilterIntended(t) == Escape(t)
  {
    FilterWithoutCandidates(t, "<b>");
    FilterWithoutCandidates(t, LiveClose('b'));
  }

  /** Escaping a tag-shaped text keeps its shape. */
  lemma EscapeTag(x: char, u: string)
    requires !Reserved(x)
    ensures Escape("<" + [x] + u + ">") == OpenPattern(x) + Escape(u) + "&gt;"
  {
    EscapeConcat("<" + [x] + u, ">");
    EscapeConcat("<" + [x], u);
    EscapeConcat("<", [x]);
  }

  /** The greedy capture of an opening pass reaches the very last `&gt;`: on an
      escaped text of the form `<x…>` the pass restores the whole raw text,
      whatever lies between, other tags and closing tags included. */
  lemma GreedyOpenSpansAll(x: char, u: string)
    requires !Reserved(x)
    ensures ReplaceOpen(Escape("<" + [x] + u + ">"), x) == "<" + [x] + u + ">"
  {
    var s := Escape("<" + [x] + u + ">");
    EscapeTag(x, u);
    assert OpenPattern(x) <= s;
    var k := RunEnd(s, 5);
    assert k == |s|;
    assert OccursAt(s, "&gt;", |s| - 4);
    var m := |s| - 4;
    assert OpenMatch(s, x, m);
    assert OpenMatchAt(s, x) == Some(m);
    assert s[5..m] == Escape(u);
    UnescapeEscape(u);
    assert s[m + 4..] == [];
  }

  /** In `<x…>` with no other `<`, the only `<` is followed by `x`. */
  lemma TagNoOpener(x: char, u: string, y: char)
    requires y != x && x != '<'
    requires forall i | 0 <= i < |u| :: u[i] != '<'
    ensures NoOpener("<" + [x] + u + ">", y)
  {
    var t := "<" + [x] + u + ">";
    forall i | 0 <= i < |t| - 1
      ensures t[i] == '<' ==> t[i + 1] != y
    {
      if 2 <= i {
        assert t[i] == u[i - 2];
      }
    }
  }

  /** No character of `<x…>` is an `&` when none of `u`'s is. */
  lemma TagWithoutAmp(x: char, u: string)
    requires x != '&'
    requires AmpFree(u)
    ensures AmpFree("<" + [x] + u + ">")
  {
    var t := "<" + [x] + u + ">";
    forall i | 0 <= i < |t|
      ensures t[i] != '&'
    {
      if 2 <= i < |t| - 1 {
        assert t[i] == u[i - 2];
      }
    }
  }

  /** A tag pass whose opening half yields an `&`-free string leaves that
      string to the closing half untouched. */
  lemma PassRestores(s: string, x: char, closing: string, t: string)
    requires ReplaceOpen(s, x) == t
    requires AmpFree(t)
    ensures TagPass(s, x, closing) == t
  {
    AbsentWithoutFirst(t, ClosePattern(x));
    ReplaceAllAbsent(t, ClosePattern(x), closing);
  }

  /** The bypass: text of the form `<x…>` for an allowed tag name x, with no
      `&` in it, leaves the filter entirely live. For `b`, whose passes run
      first, anything may stand between; for i, s and u the text must hold no
      other `<`. Tag names match as prefixes, so `<script…>`, `<style…>`,
      `<span…>`, `<iframe…>` and `<img…>` qualify through s and i. */
  lemma FilterBypass(x: char, u: string, bClose: string)
    requires x == 'b' || x == 'i' || x == 's' || x == 'u'
    requires AmpFree(u)
    requires x == 'b' || forall i | 0 <= i < |u| :: u[i] != '<'
    ensures FilterWith("<" + [x] + u + ">", bClose) == "<" + [x] + u + ">"
  {
    var t := "<" + [x] + u + ">";
    var s0 := Escape(t);
    TagWithoutAmp(x, u);
    GreedyOpenSpansAll(x, u);
    if x == 'b' {
      PassRestores(s0, 'b', bClose, t);
      PassWithoutAmp(t, 'i', LiveClose('i'));
      PassWithoutAmp(t, 's', LiveClose('s'));
      PassWithoutAmp(t, 'u', LiveClose('u'));
      FilterByPasses(t, bClose, t, t, t, t);
    } else {
      TagNoOpener(x, u, 'b');
      TagNoOpener(x, u, '/');
      PassOnEscaped(t, 'b', bClose);
      if x == 'i' {
        PassRestores(s0, 'i', LiveClose('i'), t);
        PassWithoutAmp(t, 's', LiveClose('s'));
        PassWithoutAmp(t, 'u', LiveClose('u'));
        FilterByPasses(t, bClose, s0, t, t, t);
      } else {
        TagNoOpener(x, u, 'i');
        PassOnEscaped(t, 'i', LiveClose('i'));
        if x == 's' {
          PassRestores(s0, 's', LiveClose('s'), t);
          PassWithoutAmp(t, 'u', LiveClose('u'));
          FilterByPasses(t, bClose, s0, s0, t, t);
        } else {
          TagNoOpener(x, u, 's');
          PassOnEscaped(t, 's', LiveClose('s'));
          PassRestores(s0, 'u', LiveClose('u'), t);
          FilterByPasses(t, bClose, s0, s0, s0, t);
        }
      }
    }
  }

  /** Every `<script…>` without `&` or another `<` in it passes the s pass as a
      live tag, although the filter means to allow b, i, s and u only. */
  lemma ScriptPassesThrough(v: string)
    requires AmpFree(v)
    requires forall i | 0 <= i < |v| :: v[i] != '<'
    ensures CustomXssFilter("<script" + v + ">") == "<script" + v + ">"
  {
    var u := "cript" + v;
    assert "<script" + v + ">" == "<" + ['s'] + u + ">";
    FilterBypass('s', u, "<b>");
  }

  /** A `b` tag with any attributes, then any text ending in `>`, none of it
      holding `&`: the greedy b pass reaches that last `>` and all of it is
      live, event handlers and later `<script>` elements included. */
  lemma BoldSpanPassesThrough(attrs: string, rest: string)
    requires AmpFree(attrs)
    requires AmpFree(rest)
    ensures CustomXssFilter("<b" + attrs + ">" + rest + ">") == "<b" + attrs + ">" + rest + ">"
  {
    var u := attrs + ">" + rest;
    assert "<b" + attrs + ">" + rest + ">" == "<" + ['b'] + u + ">";
    FilterBypass('b', u, "<b>");
  }

  /** A bold element around text without `&` is shown as that element: the
      greedy opening match swallows the escaped `</b>`, so the closing pass
      never sees it. */
  lemma BoldElementPassesThrough(v: string)
    requires AmpFree(v)
    ensures CustomXssFilter("<b>" + v + "</b>") == "<b>" + v + "</b>"
  {
    var rest := v + "</b";
    assert "<b>" + v + "</b>" == "<b" + "" + ">" + rest + ">";
    BoldSpanPassesThrough("", rest);
  }

  /** The closing pattern of one tag never occurs in the escaped closing tag of
      another. */
  lemma ClosePatternsDistinct(x: char, y: char)
    requires x != y
    ensures Absent(ClosePattern(x), ClosePattern(y))
  {
    var s := ClosePattern(x);
    forall i | 0 <= i <= |s|
      ensures !(ClosePattern(y) <= s[i..])
    {
      if i == 0 {
        assert s[5] != ClosePattern(y)[5];
      }
    }
  }

  /** An escaped closing tag holds no escaped `<` followed by a tag name. */
  lemma CloseHasNoOpen(x: char, y: char)
    requires y != '/' && y != '&'
    ensures Absent(ClosePattern(x), OpenPattern(y))
  {
    var s := ClosePattern(x);
    var p := OpenPattern(y);
    forall i | 0 <= i <= |s|
      ensures !(p <= s[i..])
    {
      if i == 0 {
        assert s[4] != p[4];
      } else if i == 5 {
        assert s[i..][1] == s[6] == '&';
      } else if i == 6 {
        assert s[7] != p[1];
      } else if i < |s| {
        assert s[i..][0] == s[i];
      }
    }
  }

  /** The passes for tag `x` turn its escaped closing tag into `closing`. */
  lemma PassOnOwnCloser(x: char, closing: string)
    requires x != '/' && x != '&'
    ensures TagPass(ClosePattern(x), x, closing) == closing
  {
    var s := ClosePattern(x);
    CloseHasNoOpen(x, x);
    ReplaceOpenAbsent(s, x);
    assert s[|s|..] == [];
    assert ReplaceAll(s, s, closing) == closing + ReplaceAll([], s, closing);
  }

  /** The passes for tag `y` leave the escaped closing tag of another `x`. */
  lemma PassOnOtherCloser(x: char, y: char, closing: string)
    requires y != '/' && y != '&' && x != y
    ensures TagPass(ClosePattern(x), y, closing) == ClosePattern(x)
  {
    var s := ClosePattern(x);
    CloseHasNoOpen(x, y);
    ReplaceOpenAbsent(s, y);
    ClosePatternsDistinct(x, y);
    ReplaceAllAbsent(s, ClosePattern(y), closing);
  }

  /** Escaping a closing tag gives the pattern the closing pass looks for. */
  lemma EscapeCloser(x: char)
    requires !Reserved(x)
    ensures Escape(LiveClose(x)) == ClosePattern(x)
  {
    assert LiveClose(x) == ['<'] + (['/'] + ([x] + ['>']));
    EscapeCons('<', ['/'] + ([x] + ['>']));
    EscapeCons('/', [x] + ['>']);
    EscapeCons(x, ['>']);
    assert Escape(['>']) == "&gt;";
    assert Escape([x] + ['>']) == [x] + "&gt;";
    assert Escape(['/'] + ([x] + ['>'])) == ['/'] + ([x] + "&gt;");
  }

  /** The filter as the four tag passes it is made of. */
  lemma FilterByPasses(t: string, bClose: string, s1: string, s2: string, s3: string, s4: string)
    requires TagPass(Escape(t), 'b', bClose) == s1
    requires TagPass(s1, 'i', LiveClose('i')) == s2
    requires TagPass(s2, 's', LiveClose('s')) == s3
    requires TagPass(s3, 'u', LiveClose('u')) == s4
    ensures FilterWith(t, bClose) == s4
  {
  }

  /** The passes after the one that made the text live leave it alone. */
  lemma LaterPassesKeep(r: string)
    requires AmpFree(r)
    ensures TagPass(r, 'i', LiveClose('i')) == r
    ensures TagPass(r, 's', LiveClose('s')) == r
    ensures TagPass(r, 'u', LiveClose('u')) == r
  {
    PassWithoutAmp(r, 'i', LiveClose('i'));
    PassWithoutAmp(r, 's', LiveClose('s'));
    PassWithoutAmp(r, 'u', LiveClose('u'));
  }

  /** The passes before the one for `x` leave its escaped closing tag alone. */
  lemma EarlierPassesKeep(x: char, bClose: string)
    requires x == 'i' || x == 's' || x == 'u'
    ensures TagPass(ClosePattern(x), 'b', bClose) == ClosePattern(x)
    ensures x != 'i' ==> TagPass(ClosePattern(x), 'i', LiveClose('i')) == ClosePattern(x)
    ensures x == 'u' ==> TagPass(ClosePattern(x), 's', LiveClose('s')) == ClosePattern(x)
  {
    PassOnOtherCloser(x, 'b', bClose);
    if x != 'i' {
      PassOnOtherCloser(x, 'i', LiveClose('i'));
    }
    if x == 'u' {
      PassOnOtherCloser(x, 's', LiveClose('s'));
    }
  }

  /** The filter on any text whose escaped form is the escaped closing tag of
      an allowed name. */
  lemma FilterOnCloser(t: string, x: char, bClose: string)
    requires x == 'b' || x == 'i' || x == 's' || x == 'u'
    requires AmpFree(bClose)
    requires Escape(t) == ClosePattern(x)
    ensures FilterWith(t, bClose) == if x == 'b' then bClose else LiveClose(x)
  {
    var s0 := ClosePattern(x);
    var c := LiveClose(x);
    if x == 'b' {
      PassOnOwnCloser(x, bClose);
      LaterPassesKeep(bClose);
      FilterByPasses(t, bClose, bClose, bClose, bClose, bClose);
    } else {
      assert AmpFree(c);
      EarlierPassesKeep(x, bClose);
      LaterPassesKeep(c);
      PassOnOwnCloser(x, c);
      if x == 'i' {
        FilterByPasses(t, bClose, s0, c, c, c);
      } else if x == 's' {
        FilterByPasses(t, bClose, s0, s0, c, c);
      } else {
        FilterByPasses(t, bClose, s0, s0, s0, c);
      }
    }
  }

  /** A lone closing tag of an allowed name becomes the b pass's replacement
      for `b` and a live closing tag for i, s and u. */
  lemma FilterLoneCloser(x: char, bClose: string)
    requires x == 'b' || x == 'i' || x == 's' || x == 'u'
    requires AmpFree(bClose)
    ensures FilterWith(LiveClose(x), bClose) == if x == 'b' then bClose else LiveClose(x)
  {
    EscapeCloser(x);
    FilterOnCloser(LiveClose(x), x, bClose);
  }

  /** As written, a lone `</b>` becomes the opening tag `<b>`, while `</i>`,
      `</s>` and `</u>` become closing tags. */
  lemma LoneClosingTags(x: char)
    requires x == 'b' || x == 'i' || x == 's' || x == 'u'
    ensures CustomXssFilter(LiveClose(x)) == if x == 'b' then "<b>" else LiveClose(x)
  {
    FilterLoneCloser(x, "<b>");
  }

  /** With the intended replacement every allowed closing tag comes out as
      itself. */
  lemma IntendedLoneClosingTags(x: char)
    requires x == 'b' || x == 'i' || x == 's' || x == 'u'
    ensures CustomXssFilterIntended(LiveClose(x)) == LiveClose(x)
  {
    assert AmpFree(LiveClose('b'));
    FilterLoneCloser(x, LiveClose('b'));
  }
}
