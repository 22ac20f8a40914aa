/**
 The entity codec of the chat widget: `escapeHtml` turns each of the five
 reserved characters into its entity, `unescapeHtml` decodes exactly those
 five entities in one left-to-right pass.
 */
module Entities {
  import opened Text

  /** The characters `escapeHtml` replaces. */
  predicate Reserved(c: char)
  {
    c == '&' || c == '<' || c == '>' || c == '"' || c == '\''
  }

  /** The characters that can open or close markup or an attribute value. */
  predicate Delimiter(c: char)
  {
    c == '<' || c == '>' || c == '"' || c == '\''
  }

  /** The entity table: one entity per reserved character. */
  function Entity(c: char): (e: string)
    requires Reserved(c)
    ensures 4 <= |e| && e[0] == '&' && e[|e| - 1] == ';'
    ensures forall k | 0 < k < |e| :: !Reserved(e[k])
  {
    if c == '&' then "&amp;"
    else if c == '<' then "&lt;"
    else if c == '>' then "&gt;"
    else if c == '"' then "&quot;"
    else "&#039;"
  }

  /** The table is one-to-one: no entity is a prefix of another one. */
  lemma EntityPrefixFree(c: char, d: char)
    requires Reserved(c) && Reserved(d)
    requires Entity(c) <= Entity(d)
    ensures c == d
  {
    assert Entity(c)[1] == Entity(d)[1];
    if Entity(c)[1] == 'q' || Entity(c)[1] == '#' {
      assert Entity(c)[2] == Entity(d)[2];
    }
  }

  function EscapeChar(c: char): string
  {
    if Reserved(c) then Entity(c) else [c]
  }

  /** escapeHtml: every reserved character replaced by its entity in one pass. */
  function Escape(s: string): (r: string)
    ensures |s| <= |r|
    ensures forall i | 0 <= i < |r| :: !Delimiter(r[i])
    ensures (forall i | 0 <= i < |s| :: !Reserved(s[i])) ==> r == s
  {
    if |s| == 0 then []
    else EscapeChar(s[0]) + Escape(s[1..])
  }

  /** The entity, if any, that `s` begins with: one step of the decoding regex. */
  function EntityAt(s: string): (r: Option<char>)
    ensures r.Some? ==> Reserved(r.value) && Entity(r.value) <= s
    ensures r.None? ==> forall c | Reserved(c) :: !(Entity(c) <= s)
  {
    if "&amp;" <= s then Some('&')
    else if "&lt;" <= s then Some('<')
    else if "&gt;" <= s then Some('>')
    else if "&quot;" <= s then Some('"')
    else if "&#039;" <= s then Some('\'')
    else None
  }

  /** unescapeHtml: decodes the five entities, leaves every other character alone. */
  function Unescape(s: string): (r: string)
    ensures |r| <= |s|
    ensures (forall i | 0 <= i < |s| :: s[i] != '&') ==> r == s
  {
    if |s| == 0 then []
    else match EntityAt(s)
      case Some(c) => [c] + Unescape(s[|Entity(c)|..])
      case None => [s[0]] + Unescape(s[1..])
  }

  /** Every `&` in `s` begins one of the five entities and no delimiter occurs raw. */
  predicate WellEscaped(s: string)
  {
    forall i | 0 <= i < |s| :: !Delimiter(s[i]) && (s[i] == '&' ==> EntityAt(s[i..]).Some?)
  }

  lemma {:induction false} EscapeConcat(a: string, b: string)
    ensures Escape(a + b) == Escape(a) + Escape(b)
    decreases |a|
  {
    if |a| == 0 {
      assert a + b == b;
    } else {
      assert (a + b)[0] == a[0];
      assert (a + b)[1..] == a[1..] + b;
      EscapeConcat(a[1..], b);
    }
  }

  lemma EscapeCons(c: char, w: string)
    ensures Escape([c] + w) == EscapeChar(c) + Escape(w)
  {
    assert ([c] + w)[1..] == w;
  }

  lemma EntityAtEntity(c: char, rest: string)
    requires Reserved(c)
    ensures EntityAt(Entity(c) + rest) == Some(c)
  {
    var s := Entity(c) + rest;
    assert Entity(c) <= s;
    var r := EntityAt(s);
    EntityPrefixFree(r.value, c);
  }

  /** Escaped text only ever holds an `&` at the head of an entity. */
  lemma {:induction false} EscapeWellEscaped(t: string)
    ensures WellEscaped(Escape(t))
    decreases |t|
  {
    if |t| > 0 {
      var head := EscapeChar(t[0]);
      var rest := Escape(t[1..]);
      EscapeWellEscaped(t[1..]);
      var s := head + rest;
      assert s == Escape(t);
      forall i | 0 <= i < |s|
        ensures !Delimiter(s[i]) && (s[i] == '&' ==> EntityAt(s[i..]).Some?)
      {
        if i >= |head| {
          assert s[i..] == rest[i - |head|..];
          assert s[i] == rest[i - |head|];
        } else if i == 0 && Reserved(t[0]) {
          EntityAtEntity(t[0], rest);
        }
      }
    }
  }

  /** Decoding undoes encoding for every text, whatever it contains. */
  lemma {:induction false} UnescapeEscape(t: string)
    ensures Unescape(Escape(t)) == t
    decreases |t|
  {
    if |t| > 0 {
      assert Escape(t) == EscapeChar(t[0]) + Escape(t[1..]);
      UnescapeEscapeChar(t[0], Escape(t[1..]));
      UnescapeEscape(t[1..]);
      assert [t[0]] + t[1..] == t;
    }
  }

  /** Decoding reads one encoded character back and goes on behind it. */
  lemma UnescapeEscapeChar(c: char, rest: string)
    ensures Unescape(EscapeChar(c) + rest) == [c] + Unescape(rest)
  {
    var s := EscapeChar(c) + rest;
    if Reserved(c) {
      EntityAtEntity(c, rest);
      assert s[|Entity(c)|..] == rest;
    } else {
      assert s[1..] == rest;
    }
  }

  /** Every suffix of a well-escaped string is well-escaped. */
  lemma WellEscapedSuffix(s: string, n: nat)
    requires WellEscaped(s) && n <= |s|
    ensures WellEscaped(s[n..])
  {
    forall i | 0 <= i < |s[n..]|
      ensures !Delimiter(s[n..][i]) && (s[n..][i] == '&' ==> EntityAt(s[n..][i..]).Some?)
    {
      assert s[n..][i] == s[n + i];
      assert s[n..][i..] == s[n + i..];
    }
  }

  /** A well-escaped string that does not begin with an entity begins with a
      character escaping leaves alone. */
  lemma WellEscapedHead(s: string)
    requires WellEscaped(s) && |s| > 0 && EntityAt(s).None?
    ensures !Reserved(s[0])
  {
    assert s[0..] == s;
  }

  /** Encoding undoes decoding on a well-escaped string. */
  lemma {:induction false} EscapeUnescapeWellEscaped(s: string)
    requires WellEscaped(s)
    ensures Escape(Unescape(s)) == s
    decreases |s|
  {
    if |s| > 0 {
      match EntityAt(s)
      case Some(c) =>
        var n := |Entity(c)|;
        WellEscapedSuffix(s, n);
        EscapeUnescapeWellEscaped(s[n..]);
        EscapeCons(c, Unescape(s[n..]));
        assert s == Entity(c) + s[n..];
      case None =>
        WellEscapedHead(s);
        WellEscapedSuffix(s, 1);
        EscapeUnescapeWellEscaped(s[1..]);
        EscapeCons(s[0], Unescape(s[1..]));
        assert s == [s[0]] + s[1..];
    }
  }

  /** Encoding undoes decoding on exactly the well-escaped strings: those are
      the strings escapeHtml can produce. */
  lemma EscapeUnescape(s: string)
    ensures Escape(Unescape(s)) == s <==> WellEscaped(s)
  {
    EscapeWellEscaped(Unescape(s));
    if WellEscaped(s) {
      EscapeUnescapeWellEscaped(s);
    }
  }

  /** Escaping is one-to-one, so distinct texts never display alike. */
  lemma EscapeInjective(a: string, b: string)
    requires Escape(a) == Escape(b)
    ensures a == b
  {
    UnescapeEscape(a);
    UnescapeEscape(b);
  }
}
