/**
 `nl2br`: a `<br>` is put in front of every line break of the displayed HTML.
 The source does it with one global regex replacement whose pattern is an
 optional character other than `>`, CR or LF, followed by one of the line
 break tokens CR LF, LF CR, CR or LF (tried in that order); the replacement
 writes the optional character back, then `<br>`, then the token.
 */
module LineBreaks {

  predicate LineBreakChar(c: char)
  {
    c == '\r' || c == '\n'
  }

  /** The length of the line break token `s` begins with, 0 when none. The
      two-character alternatives come first, so CR LF and LF CR are always
      one token, never two. */
  function BreakAt(s: string): (n: nat)
    ensures n <= 2 && n <= |s|
    ensures n > 0 <==> |s| > 0 && LineBreakChar(s[0])
    ensures n == 2 <==> |s| >= 2 && LineBreakChar(s[0]) && LineBreakChar(s[1]) && s[0] != s[1]
  {
    if |s| >= 2 && s[0] == '\r' && s[1] == '\n' then 2
    else if |s| >= 2 && s[0] == '\n' && s[1] == '\r' then 2
    else if |s| >= 1 && LineBreakChar(s[0]) then 1
    else 0
  }

  const BreakTag: string := "<br>"

  /** The character class of the optional first group. */
  predicate LeadChar(c: char)
  {
    c != '>' && !LineBreakChar(c)
  }

  /** The global replacement as the regex engine performs it: at each
      position the optional group first tries to take one character, and
      gives it back when no line break follows; without a match the scan
      copies one character and moves on; after a match it resumes behind it. */
  function Nl2Br(s: string): (r: string)
    ensures |s| <= |r|
    decreases |s|
  {
    if |s| == 0 then []
    else if LeadChar(s[0]) && BreakAt(s[1..]) > 0 then
      var n := BreakAt(s[1..]);
      [s[0]] + BreakTag + s[1..1 + n] + Nl2Br(s[1 + n..])
    else if BreakAt(s) > 0 then
      var n := BreakAt(s);
      BreakTag + s[..n] + Nl2Br(s[n..])
    else
      [s[0]] + Nl2Br(s[1..])
  }

  /** Reference definition: copy the text, writing `<br>` before each line
      break token. */
  function InsertBreaks(s: string): (r: string)
    decreases |s|
  {
    if |s| == 0 then []
    else if BreakAt(s) > 0 then
      BreakTag + s[..BreakAt(s)] + InsertBreaks(s[BreakAt(s)..])
    else
      [s[0]] + InsertBreaks(s[1..])
  }

  /** The optional group and its exclusion of `>` change nothing: the
      replacement is exactly "insert `<br>` before every line break token",
      after `>` as anywhere else. */
  lemma {:induction false} Nl2BrInsertsBreaks(s: string)
    ensures Nl2Br(s) == InsertBreaks(s)
    decreases |s|
  {
    if |s| > 0 {
      if LeadChar(s[0]) && BreakAt(s[1..]) > 0 {
        var t := s[1..];
        var n := BreakAt(t);
        assert BreakAt(s) == 0;
        assert t[..n] == s[1..1 + n];
        assert t[n..] == s[1 + n..];
        Nl2BrInsertsBreaks(s[1 + n..]);
      } else if BreakAt(s) > 0 {
        Nl2BrInsertsBreaks(s[BreakAt(s)..]);
      } else {
        Nl2BrInsertsBreaks(s[1..]);
      }
    }
  }

  /** Text without CR or LF is returned unchanged. */
  lemma {:induction false} Nl2BrWithoutBreaks(s: string)
    requires forall i | 0 <= i < |s| :: !LineBreakChar(s[i])
    ensures Nl2Br(s) == s
    decreases |s|
  {
    if |s| > 0 {
      assert BreakAt(s[1..]) == 0 by {
        if |s| > 1 {
          assert s[1..][0] == s[1];
        }
      }
      Nl2BrWithoutBreaks(s[1..]);
      assert s == [s[0]] + s[1..];
    }
  }

  /** The number of line break tokens in `s`. */
  function Breaks(s: string): nat
    decreases |s|
  {
    if |s| == 0 then 0
    else if BreakAt(s) > 0 then 1 + Breaks(s[BreakAt(s)..])
    else Breaks(s[1..])
  }

  /** Nothing is dropped: the result is the text plus one tag per token. */
  lemma {:induction false} Nl2BrLength(s: string)
    ensures |Nl2Br(s)| == |s| + |BreakTag| * Breaks(s)
    decreases |s|
  {
    Nl2BrInsertsBreaks(s);
    InsertBreaksLength(s);
  }

  lemma {:induction false} InsertBreaksLength(s: string)
    ensures |InsertBreaks(s)| == |s| + |BreakTag| * Breaks(s)
    decreases |s|
  {
    if |s| > 0 {
      if BreakAt(s) > 0 {
        InsertBreaksLength(s[BreakAt(s)..]);
      } else {
        InsertBreaksLength(s[1..]);
      }
    }
  }

  /** Removes each `<br>` that stands directly in front of a CR or LF. */
  function StripBreaks(t: string): (r: string)
    ensures |r| <= |t|
    decreases |t|
  {
    if |t| == 0 then []
    else if BreakTag <= t && |t| > 4 && LineBreakChar(t[4]) then StripBreaks(t[4..])
    else [t[0]] + StripBreaks(t[1..])
  }

  lemma StripCons(c: char, w: string)
    requires c != '<'
    ensures StripBreaks([c] + w) == [c] + StripBreaks(w)
  {
    assert ([c] + w)[0] == c;
    assert ([c] + w)[1..] == w;
  }

  /** On text without `<`, such as escaped text, the inserted tags are the
      only `<br>` in front of a line break, and removing them gives the text
      back. */
  lemma {:induction false} StripNl2Br(s: string)
    requires forall i | 0 <= i < |s| :: s[i] != '<'
    ensures StripBreaks(Nl2Br(s)) == s
    decreases |s|
  {
    Nl2BrInsertsBreaks(s);
    StripInsertBreaks(s);
  }

  /** A tag written in front of a line break token is removed again, and the
      token itself is kept. */
  lemma StripTagged(s: string, rest: string)
    requires BreakAt(s) > 0
    ensures StripBreaks(BreakTag + s[..BreakAt(s)] + rest) == s[..BreakAt(s)] + StripBreaks(rest)
  {
    var n := BreakAt(s);
    var t := BreakTag + s[..n] + rest;
    assert t[..4] == BreakTag;
    assert t[4] == s[0];
    assert t[4..] == s[..n] + rest;
    if n == 1 {
      StripCons(s[0], rest);
      assert s[..n] == [s[0]];
    } else {
      StripCons(s[1], rest);
      StripCons(s[0], [s[1]] + rest);
      assert s[..n] == [s[0]] + [s[1]];
      assert s[..n] + rest == [s[0]] + ([s[1]] + rest);
    }
  }

  lemma {:induction false} StripInsertBreaks(s: string)
    requires forall i | 0 <= i < |s| :: s[i] != '<'
    ensures StripBreaks(InsertBreaks(s)) == s
    decreases |s|
  {
    if |s| > 0 {
      var n := BreakAt(s);
      if n > 0 {
        StripTagged(s, InsertBreaks(s[n..]));
        StripInsertBreaks(s[n..]);
        assert s == s[..n] + s[n..];
      } else {
        StripInsertBreaks(s[1..]);
        StripCons(s[0], InsertBreaks(s[1..]));
        assert s == [s[0]] + s[1..];
      }
    }
  }
}
