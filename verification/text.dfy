/**
 Shared vocabulary for the chat widget model: an option type and the
 predicates that say where a pattern occurs inside a string.
 */
module Text {

  datatype Option<+T> = None | Some(value: T)

  /** `p` occurs in `s` starting at index `i`. */
  predicate OccursAt(s: string, p: string, i: int)
  {
    0 <= i && i + |p| <= |s| && s[i..i + |p|] == p
  }

  /** No suffix of `s` begins with `p`: a regex for the literal `p` finds nothing. */
  predicate Absent(s: string, p: string)
  {
    forall i | 0 <= i <= |s| :: !(p <= s[i..])
  }

  /** Dropping the first character keeps a pattern absent. */
  lemma AbsentTail(s: string, p: string)
    requires |s| > 0 && Absent(s, p)
    ensures Absent(s[1..], p)
  {
    forall i | 0 <= i <= |s[1..]|
      ensures !(p <= s[1..][i..])
    {
      assert s[1..][i..] == s[i + 1..];
    }
  }

  /** A pattern is absent from a string with none of the pattern's first character. */
  lemma AbsentWithoutFirst(s: string, p: string)
    requires |p| > 0
    requires forall i | 0 <= i < |s| :: s[i] != p[0]
    ensures Absent(s, p)
  {
    forall i | 0 <= i <= |s|
      ensures !(p <= s[i..])
    {
      if i < |s| {
        assert s[i..][0] == s[i];
      }
    }
  }

  /** Putting a head in front of `rest` creates no occurrence of `p` when the
      head only holds `p`'s first character at its start and no occurrence
      begins there. */
  lemma AbsentPrepend(head: string, rest: string, p: string)
    requires |p| > 0 && Absent(rest, p)
    requires forall k | 0 < k < |head| :: head[k] != p[0]
    requires !(p <= head + rest)
    ensures Absent(head + rest, p)
  {
    var s := head + rest;
    forall i | 0 <= i <= |s|
      ensures !(p <= s[i..])
    {
      if i >= |head| {
        assert s[i..] == rest[i - |head|..];
      } else if i > 0 {
        assert s[i..][0] == head[i];
      }
    }
  }
}
