/**
 The post store behind the chat widget: one collection of posts per work,
 kept in browser storage under a per-work key. Storage and its JSON encoding
 are not modelled; the store is a map from work to posts in which a missing
 key, like an unreadable entry, stands for the empty collection.

 `post` appends one post to the current work; `chat_delete` removes a post id
 from the current work and, on the aggregate page (work 0), from works 1 to 3
 as well.
 */
module PostStore {

  /** One stored post. `date` is the posting time as an ordering key. */
  datatype Post = Post(id: string, name: string, date: int, text: string, work: int)

  type Store = map<int, seq<Post>>

  /** getChatData: the posts of a work, empty when none are stored. */
  function Load(store: Store, work: int): (r: seq<Post>)
    ensures work !in store ==> r == []
    ensures work in store ==> r == store[work]
  {
    if work in store then store[work] else []
  }

  /** The placeholder author name every post is stored with. */
  const Author: string := "\U{3042}\U{306A}\U{305F}"

  /** One global replacement of the character `from` by `to`. */
  function ReplaceChar(s: string, from: char, to: char): (r: string)
    ensures |r| == |s|
    ensures forall i | 0 <= i < |s| :: r[i] == if s[i] == from then to else s[i]
  {
    if |s| == 0 then [] else [if s[0] == from then to else s[0]] + ReplaceChar(s[1..], from, to)
  }

  /** The typographic quotes `post` straightens. */
  predicate CurlySingle(c: char)
  {
    c == '\U{2018}' || c == '\U{2019}'
  }

  predicate CurlyDouble(c: char)
  {
    c == '\U{201C}' || c == '\U{201D}'
  }

  /** The four replacements `post` applies to the text before storing it. */
  function NormalizeQuotes(s: string): (r: string)
    ensures |r| == |s|
    ensures forall i | 0 <= i < |s| ::
      r[i] == if CurlySingle(s[i]) then '\'' else if CurlyDouble(s[i]) then '"' else s[i]
  {
    var s1 := ReplaceChar(s, '\U{2018}', '\'');
    var s2 := ReplaceChar(s1, '\U{2019}', '\'');
    var s3 := ReplaceChar(s2, '\U{201C}', '"');
    ReplaceChar(s3, '\U{201D}', '"')
  }

  /** `post`: the text is normalised; the exact empty string is dropped,
      anything else is appended to the current work as a new post with the
      given id and date. */
  function Submit(store: Store, work: int, raw: string, id: string, date: int): (r: Store)
    ensures raw == [] ==> r == store
    ensures raw != [] ==> Load(r, work) == Load(store, work) + [Post(id, Author, date, NormalizeQuotes(raw), work)]
    ensures forall k | k != work :: Load(r, k) == Load(store, k)
  {
    var text := NormalizeQuotes(raw);
    if text == [] then store
    else store[work := Load(store, work) + [Post(id, Author, date, text, work)]]
  }

  /** The filter of `chat_delete`: every post whose id is not `id`, in order. */
  function RemoveId(posts: seq<Post>, id: string): (r: seq<Post>)
    ensures |r| <= |posts|
    ensures forall p: Post :: multiset(r)[p] == if p.id == id then 0 else multiset(posts)[p]
  {
    if |posts| == 0 then []
    else
      var rest := RemoveId(posts[1..], id);
      assert posts == [posts[0]] + posts[1..];
      if posts[0].id == id then rest else [posts[0]] + rest
  }

  /** A post survives the filter exactly when it was there and has another id. */
  lemma RemoveIdMembers(posts: seq<Post>, id: string, p: Post)
    ensures p in RemoveId(posts, id) <==> p in posts && p.id != id
  {
    assert p in RemoveId(posts, id) <==> multiset(RemoveId(posts, id))[p] > 0;
    assert p in posts <==> multiset(posts)[p] > 0;
  }

  /** The filter keeps the order: it works piecewise on a concatenation. */
  lemma {:induction false} RemoveIdConcat(a: seq<Post>, b: seq<Post>, id: string)
    ensures RemoveId(a + b, id) == RemoveId(a, id) + RemoveId(b, id)
    decreases |a|
  {
    if |a| == 0 {
      assert a + b == b;
    } else {
      assert (a + b)[0] == a[0];
      assert (a + b)[1..] == a[1..] + b;
      RemoveIdConcat(a[1..], b, id);
    }
  }

  /** Deleting the same id twice changes nothing the second time. */
  lemma {:induction false} RemoveIdIdempotent(posts: seq<Post>, id: string)
    ensures RemoveId(RemoveId(posts, id), id) == RemoveId(posts, id)
    decreases |posts|
  {
    if |posts| > 0 {
      RemoveIdIdempotent(posts[1..], id);
      var rest := RemoveId(posts[1..], id);
      if posts[0].id != id {
        assert ([posts[0]] + rest)[1..] == rest;
      }
    }
  }

  /** Filtering one work of the store. */
  function Purge(store: Store, k: int, id: string): (r: Store)
    ensures Load(r, k) == RemoveId(Load(store, k), id)
    ensures forall j | j != k :: Load(r, j) == Load(store, j)
  {
    store[k := RemoveId(Load(store, k), id)]
  }

  /** The works a deletion filters: the current one and, from work 0, 1 to 3. */
  predicate Affected(work: int, k: int)
  {
    k == work || (work == 0 && 1 <= k <= 3)
  }

  /** `chat_delete`: nothing happens unless the user confirms; then the id is
      removed from the current work, and from works 1 to 3 when the current
      work is 0. */
  function Delete(store: Store, work: int, id: string, confirmed: bool): (r: Store)
    ensures !confirmed ==> r == store
    ensures confirmed ==> forall k | Affected(work, k) :: Load(r, k) == RemoveId(Load(store, k), id)
    ensures forall k | !Affected(work, k) :: Load(r, k) == Load(store, k)
  {
    if !confirmed then store
    else
      var s1 := Purge(store, work, id);
      if work == 0 then Purge(Purge(Purge(s1, 1, id), 2, id), 3, id) else s1
  }

  /** After a confirmed delete no affected work holds a post with the id, and
      every other post of it survives as often as before. */
  lemma DeleteRemovesEverywhere(store: Store, work: int, id: string, k: int)
    requires Affected(work, k)
    ensures var after := Load(Delete(store, work, id, true), k);
      && (forall p | p in after :: p.id != id)
      && (forall p: Post | p.id != id :: multiset(after)[p] == multiset(Load(store, k))[p])
  {
    var after := Load(Delete(store, work, id, true), k);
    forall p | p in after
      ensures p.id != id
    {
      RemoveIdMembers(Load(store, k), id, p);
    }
  }

  /** `post` drops only the empty string: text of blanks alone is stored. */
  lemma SubmitGrowsUnlessEmpty(store: Store, work: int, raw: string, id: string, date: int)
    ensures |Load(Submit(store, work, raw, id, date), work)| == |Load(store, work)| + if raw == [] then 0 else 1
  {
  }
}
